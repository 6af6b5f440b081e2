/** Fleet-wide reads: `/_fleet/members` and `/_fleet/health`, folded from what each voter says of
    itself (crates/rift-cluster-server/src/fleet.rs,
    crates/rift-cluster-server/src/cluster_api.rs).

    Every other voter is asked at once.  `joined` lists the peers whose task ended before the
    budget ran out, in the order they ended; `outcomes` is what each task would end with.
 */
module Fleet {
  import opened Text
  import opened Control
  import opened StateMachine

  type NodeId = nat

  /** A JSON value; documents this layer only passes on are opaque. */
  datatype Json = Null | Bool(b: bool) | Number(n: U64) | Opaque(raw: string)

  /** The fields read off a peer's body; `None` is a key the body does not have. */
  datatype Reply = Reply(
    lastApplied: Option<Json>,
    isLeader: Option<Json>,
    boundPorts: Option<Json>,
    bindFailures: Option<Json>,
    bindStatusUnavailable: Option<Json>,
    writePath: Option<Json>,
    parkedIntents: Option<Json>)

  /** How a peer's task ends: with a reply, with an error, or by dying. */
  datatype Outcome = Replied(reply: Reply) | NoAnswer | TaskDied

  // ---- bind fields ----

  datatype BindFields = BindFields(boundPorts: Json, bindFailures: Json, bindStatusUnavailable: Json)

  const UNKNOWN: BindFields := BindFields(Null, Null, Null)

  function FromReply(reply: Option<Reply>): BindFields {
    if reply.None? then UNKNOWN
    else
      match (reply.value.boundPorts, reply.value.bindFailures, reply.value.bindStatusUnavailable)
      case (Some(ports), Some(failures), Some(unavailable)) => BindFields(ports, failures, unavailable)
      case _ => UNKNOWN
  }

  /** `Observed` carries its two rendered collections. */
  datatype LocalBindState = Observed(boundPorts: string, failures: string) | Unavailable

  function Fields(local: LocalBindState): BindFields {
    match local
    case Observed(ports, failures) => BindFields(Opaque(ports), Opaque(failures), Bool(false))
    case Unavailable => BindFields(Null, Null, Bool(true))
  }

  // ---- member rows ----

  datatype Row = Row(
    id: NodeId,
    lastApplied: Json,
    isLeader: Json,
    reachable: bool,
    bind: BindFields,
    writePath: Json)

  /** What a node says of itself: the part of its own body that a row repeats. */
  datatype Self = Self(lastApplied: Option<U64>, isLeader: bool, local: LocalBindState, writePath: string)

  function OrNull(field: Option<Json>): Json { if field.Some? then field.value else Null }

  function RenderIndex(index: Option<U64>): Json { if index.Some? then Number(index.value) else Null }

  function MemberRow(id: NodeId, isMe: bool, self: Self, answered: Option<Reply>): Row {
    if isMe then Row(id, RenderIndex(self.lastApplied), Bool(self.isLeader), true, Fields(self.local), Opaque(self.writePath))
    else if answered.Some? then
      Row(id, OrNull(answered.value.lastApplied), OrNull(answered.value.isLeader), true, FromReply(answered), OrNull(answered.value.writePath))
    else Row(id, Null, Null, false, UNKNOWN, Null)
  }

  /** The three bind fields of a row, as its owner stands: the ports it serves, the ports it could
      not bind, and whether it could find out. */
  ghost predicate ReportsBind(bind: BindFields, local: LocalBindState) {
    && (bind.bindStatusUnavailable == Bool(true) <==> local.Unavailable?)
    && (local.Unavailable? ==> bind.boundPorts == Null && bind.bindFailures == Null)
    && (local.Observed? ==> bind.boundPorts == Opaque(local.boundPorts) && bind.bindFailures == Opaque(local.failures)
                            && bind.bindStatusUnavailable == Bool(false))
  }

  /** A row that repeats a reply: each field is the reply's field of that name, null where it has
      none, and the bind fields are shown all three or not at all. */
  ghost predicate Repeats(row: Row, reply: Reply) {
    && (if reply.lastApplied.Some? then row.lastApplied == reply.lastApplied.value else row.lastApplied == Null)
    && (if reply.isLeader.Some? then row.isLeader == reply.isLeader.value else row.isLeader == Null)
    && (if reply.writePath.Some? then row.writePath == reply.writePath.value else row.writePath == Null)
    && if reply.boundPorts.Some? && reply.bindFailures.Some? && reply.bindStatusUnavailable.Some?
       then Some(row.bind.boundPorts) == reply.boundPorts && Some(row.bind.bindFailures) == reply.bindFailures
            && Some(row.bind.bindStatusUnavailable) == reply.bindStatusUnavailable
       else row.bind.boundPorts == Null && row.bind.bindFailures == Null && row.bind.bindStatusUnavailable == Null
  }

  /** What a row shows: this node's own standing, a peer's reply, or that nothing is known. */
  ghost predicate RowShows(row: Row, id: NodeId, isMe: bool, self: Self, answered: Option<Reply>) {
    && row.id == id
    && (row.reachable <==> isMe || answered.Some?)
    && (isMe ==>
          && (if self.lastApplied.Some? then row.lastApplied == Number(self.lastApplied.value) else row.lastApplied == Null)
          && row.isLeader == Bool(self.isLeader) && row.writePath == Opaque(self.writePath)
          && ReportsBind(row.bind, self.local))
    && (!isMe && answered.Some? ==> Repeats(row, answered.value))
    && (!isMe && answered.None? ==> row == Row(id, Null, Null, false, BindFields(Null, Null, Null), Null))
  }

  /** The body a node answers `/_cluster/members` with. */
  function BodyOf(self: Self): Reply {
    var bind := Fields(self.local);
    Reply(Some(RenderIndex(self.lastApplied)), Some(Bool(self.isLeader)), Some(bind.boundPorts), Some(bind.bindFailures),
          Some(bind.bindStatusUnavailable), Some(Opaque(self.writePath)), None)
  }

  /** A peer's row anywhere is the row the peer shows for itself: its report is echoed, never
      second-guessed. */
  lemma PeerRowEchoesOwnRow(id: NodeId, peer: Self, mine: Self)
    ensures MemberRow(id, false, mine, Some(BodyOf(peer))) == MemberRow(id, true, peer, None)
  {}

  /** Every row shows what `RowShows` says, and a node's own body repeats its own standing. */
  lemma RowMeans(id: NodeId, isMe: bool, self: Self, answered: Option<Reply>)
    ensures RowShows(MemberRow(id, isMe, self, answered), id, isMe, self, answered)
    ensures var echoed := MemberRow(id, false, self, Some(BodyOf(self)));
            ReportsBind(echoed.bind, self.local) && echoed.isLeader == Bool(self.isLeader) && echoed.writePath == Opaque(self.writePath)
  {}

  predicate MembersPartial(timedOut: bool, rows: seq<Row>) {
    || timedOut
    || (exists i :: 0 <= i < |rows| && !rows[i].reachable)
    || (exists i :: 0 <= i < |rows| && rows[i].reachable && rows[i].bind.boundPorts.Null?)
  }

  // ---- the fan-out ----

  /** The peers that joined: distinct, other voters, each with an outcome.  The fan-out timed out
      exactly when some task had not. */
  ghost predicate FanOut(voters: seq<NodeId>, me: NodeId, outcomes: map<NodeId, Outcome>, joined: seq<NodeId>) {
    && Distinct(voters) && Distinct(joined)
    && (forall i :: 0 <= i < |joined| ==> joined[i] in voters && joined[i] != me)
    && (forall i :: 0 <= i < |voters| ==> voters[i] in outcomes)
  }

  ghost predicate Distinct(s: seq<NodeId>) {
    forall i, j :: 0 <= i < j < |s| ==> s[i] != s[j]
  }

  predicate TimedOut(voters: seq<NodeId>, me: NodeId, joined: seq<NodeId>) {
    exists i :: 0 <= i < |voters| && voters[i] != me && voters[i] !in joined
  }

  /** What this node knows of a peer by the end: its reply, if it joined with one. */
  function AnswerOf(outcomes: map<NodeId, Outcome>, joined: seq<NodeId>, peer: NodeId): Option<Reply>
    requires peer in outcomes
  {
    if peer in joined && outcomes[peer].Replied? then Some(outcomes[peer].reply) else None
  }

  /** `merged_members`: rows in voter order, whatever order the peers answered in. */
  method MergedMembers(voters: seq<NodeId>, me: NodeId, self: Self, outcomes: map<NodeId, Outcome>, joined: seq<NodeId>)
    returns (rows: seq<Row>, partial: bool)
    requires FanOut(voters, me, outcomes, joined)
    ensures |rows| == |voters|
    ensures forall i :: 0 <= i < |voters| ==>
              rows[i] == MemberRow(voters[i], voters[i] == me, self, AnswerOf(outcomes, joined, voters[i]))
    ensures forall i :: 0 <= i < |voters| ==>
              RowShows(rows[i], voters[i], voters[i] == me, self, AnswerOf(outcomes, joined, voters[i]))
    ensures partial == MembersPartial(TimedOut(voters, me, joined), rows)
  {
    var answered: map<NodeId, Reply> := map[];
    for i := 0 to |joined|
      invariant forall p :: p in answered <==> p in joined[..i] && outcomes[p].Replied?
      invariant forall p :: p in answered ==> p in outcomes && outcomes[p] == Replied(answered[p])
    {
      var peer := joined[i];
      if outcomes[peer].Replied? { answered := answered[peer := outcomes[peer].reply]; }
    }
    rows := [];
    for i := 0 to |voters|
      invariant |rows| == i
      invariant forall j :: 0 <= j < i ==>
                  rows[j] == MemberRow(voters[j], voters[j] == me, self, AnswerOf(outcomes, joined, voters[j]))
    {
      var id := voters[i];
      assert joined[..|joined|] == joined;
      rows := rows + [MemberRow(id, id == me, self, if id in answered then Some(answered[id]) else None)];
    }
    forall i | 0 <= i < |voters| ensures RowShows(rows[i], voters[i], voters[i] == me, self, AnswerOf(outcomes, joined, voters[i])) {
      RowMeans(voters[i], voters[i] == me, self, AnswerOf(outcomes, joined, voters[i]));
    }
    partial := MembersPartial(TimedOut(voters, me, joined), rows);
  }

  /** The rows and the flag depend only on which peers answered what, not on when. */
  lemma MembersIgnoreArrivalOrder(voters: seq<NodeId>, me: NodeId, outcomes: map<NodeId, Outcome>, a: seq<NodeId>, b: seq<NodeId>, peer: NodeId)
    requires FanOut(voters, me, outcomes, a) && FanOut(voters, me, outcomes, b) && peer in voters
    requires multiset(a) == multiset(b)
    ensures AnswerOf(outcomes, a, peer) == AnswerOf(outcomes, b, peer)
    ensures TimedOut(voters, me, a) == TimedOut(voters, me, b)
  {
    forall p: NodeId ensures p in a <==> p in b {
      assert p in a <==> p in multiset(a);
      assert p in b <==> p in multiset(b);
    }
  }

  /** A complete answer: each voter's row is its own report, bind status included. */
  ghost predicate Contributed(row: Row, id: NodeId, me: NodeId, self: Self, outcomes: map<NodeId, Outcome>, joined: seq<NodeId>)
    requires id in outcomes
  {
    && row.id == id && row.reachable && row.bind.boundPorts != Null
    && if id == me then row == MemberRow(id, true, self, None) else
         id in joined && outcomes[id].Replied? && row == MemberRow(id, false, self, Some(outcomes[id].reply))
  }

  /** The partial flag is exact: it is off if and only if every voter contributed its own report
      with a bind status in it. */
  lemma NotPartialIffEveryVoterContributed(voters: seq<NodeId>, me: NodeId, self: Self, outcomes: map<NodeId, Outcome>, joined: seq<NodeId>, rows: seq<Row>)
    requires FanOut(voters, me, outcomes, joined) && |rows| == |voters|
    requires forall i :: 0 <= i < |voters| ==>
               rows[i] == MemberRow(voters[i], voters[i] == me, self, AnswerOf(outcomes, joined, voters[i]))
    ensures !MembersPartial(TimedOut(voters, me, joined), rows) <==>
            forall i :: 0 <= i < |voters| ==> Contributed(rows[i], voters[i], me, self, outcomes, joined)
  {
    if forall i :: 0 <= i < |voters| ==> Contributed(rows[i], voters[i], me, self, outcomes, joined) {
      forall i | 0 <= i < |voters| ensures rows[i].reachable && rows[i].bind.boundPorts != Null && (voters[i] != me ==> voters[i] in joined) {
        assert Contributed(rows[i], voters[i], me, self, outcomes, joined);
      }
    } else {
      var i :| 0 <= i < |voters| && !Contributed(rows[i], voters[i], me, self, outcomes, joined);
      assert rows[i] == MemberRow(voters[i], voters[i] == me, self, AnswerOf(outcomes, joined, voters[i]));
    }
  }

  // ---- the parked backlog ----

  /** The depth a peer contributed, if it contributed one. */
  function DepthOf(outcomes: map<NodeId, Outcome>, peer: NodeId): (depth: Option<U64>)
    requires peer in outcomes
    ensures forall n: U64 :: depth == Some(n) <==> outcomes[peer].Replied? && outcomes[peer].reply.parkedIntents == Some(Number(n))
  {
    match outcomes[peer]
    case Replied(reply) => if reply.parkedIntents.Some? && reply.parkedIntents.value.Number? then Some(reply.parkedIntents.value.n) else None
    case NoAnswer => None
    case TaskDied => None
  }

  /** `add_peer_depth`. */
  function AddPeerDepth(total: U64, depth: Option<U64>): (U64, bool) {
    if depth.Some? then (SaturatingAdd(total, depth.value), true) else (total, false)
  }

  function DepthOrZero(outcomes: map<NodeId, Outcome>, peer: NodeId): nat
    requires peer in outcomes
  {
    if DepthOf(outcomes, peer).Some? then DepthOf(outcomes, peer).value else 0
  }

  ghost predicate AllIn(peers: seq<NodeId>, outcomes: map<NodeId, Outcome>) {
    forall i :: 0 <= i < |peers| ==> peers[i] in outcomes
  }

  /** The sum of the depths contributed, without a cap. */
  function DepthSum(outcomes: map<NodeId, Outcome>, peers: seq<NodeId>): nat
    requires AllIn(peers, outcomes)
  {
    if peers == [] then 0 else DepthSum(outcomes, peers[..|peers| - 1]) + DepthOrZero(outcomes, peers[|peers| - 1])
  }

  lemma {:induction false} DepthSumAppends(outcomes: map<NodeId, Outcome>, a: seq<NodeId>, b: seq<NodeId>)
    requires AllIn(a, outcomes) && AllIn(b, outcomes)
    ensures DepthSum(outcomes, a + b) == DepthSum(outcomes, a) + DepthSum(outcomes, b)
    decreases |b|
  {
    if b == [] {
      assert a + b == a;
    } else {
      DepthSumAppends(outcomes, a, b[..|b| - 1]);
      assert (a + b)[..|a + b| - 1] == a + b[..|b| - 1];
    }
  }

  /** The peers among `voters` that joined, in voter order. */
  function JoinedVoters(voters: seq<NodeId>, joined: seq<NodeId>): seq<NodeId> {
    if voters == [] then []
    else
      JoinedVoters(voters[..|voters| - 1], joined) +
      if voters[|voters| - 1] in joined then [voters[|voters| - 1]] else []
  }

  lemma {:induction false} JoinedVotersAre(voters: seq<NodeId>, joined: seq<NodeId>)
    ensures forall p :: p in JoinedVoters(voters, joined) <==> p in voters && p in joined
    ensures Distinct(voters) ==> Distinct(JoinedVoters(voters, joined))
  {
    if voters != [] { JoinedVotersAre(voters[..|voters| - 1], joined); }
  }

  /** So the sum below does not depend on the order in which the peers joined. */
  lemma {:induction false} JoinedVotersIgnoreArrivalOrder(voters: seq<NodeId>, a: seq<NodeId>, b: seq<NodeId>)
    requires multiset(a) == multiset(b)
    ensures JoinedVoters(voters, a) == JoinedVoters(voters, b)
  {
    if voters != [] {
      JoinedVotersIgnoreArrivalOrder(voters[..|voters| - 1], a, b);
      var last := voters[|voters| - 1];
      assert last in a <==> last in multiset(a);
      assert last in b <==> last in multiset(b);
    }
  }

  ghost predicate SameElements(a: seq<NodeId>, b: seq<NodeId>) {
    (forall i :: 0 <= i < |a| ==> a[i] in b) && (forall i :: 0 <= i < |b| ==> b[i] in a)
  }

  /** A sum over distinct peers does not depend on their order. */
  lemma {:induction false} DepthSumPermutes(outcomes: map<NodeId, Outcome>, a: seq<NodeId>, b: seq<NodeId>)
    requires AllIn(a, outcomes) && AllIn(b, outcomes) && Distinct(a) && Distinct(b)
    requires SameElements(a, b)
    ensures DepthSum(outcomes, a) == DepthSum(outcomes, b)
    decreases |a|
  {
    if a != [] {
      var x, front := a[|a| - 1], a[..|a| - 1];
      assert x in b;
      var k :| 0 <= k < |b| && b[k] == x;
      DepthSumWithoutOne(outcomes, b, k);
      SameWithoutOne(a, b, k);
      DepthSumPermutes(outcomes, front, b[..k] + b[k + 1..]);
    }
  }

  lemma DepthSumWithoutOne(outcomes: map<NodeId, Outcome>, b: seq<NodeId>, k: nat)
    requires AllIn(b, outcomes) && k < |b|
    ensures AllIn(b[..k] + b[k + 1..], outcomes)
    ensures DepthSum(outcomes, b) == DepthSum(outcomes, b[..k] + b[k + 1..]) + DepthOrZero(outcomes, b[k])
  {
    var left, x, right := b[..k], b[k], b[k + 1..];
    assert b == left + [x] + right;
    DepthSumAppends(outcomes, left, [x]);
    DepthSumAppends(outcomes, left + [x], right);
    DepthSumAppends(outcomes, left, right);
    assert DepthSum(outcomes, [x]) == DepthOrZero(outcomes, x);
  }

  lemma SameWithoutOne(a: seq<NodeId>, b: seq<NodeId>, k: nat)
    requires Distinct(a) && Distinct(b) && a != [] && k < |b| && b[k] == a[|a| - 1]
    requires SameElements(a, b)
    ensures Distinct(a[..|a| - 1]) && Distinct(b[..k] + b[k + 1..])
    ensures SameElements(a[..|a| - 1], b[..k] + b[k + 1..])
  {
    var x, front, rest := a[|a| - 1], a[..|a| - 1], b[..k] + b[k + 1..];
    assert forall p :: p in a <==> p in front || p == x;
    assert forall p :: p in b <==> p in rest || p == x by {
      assert b == b[..k] + [x] + b[k + 1..];
    }
    assert x !in front && x !in rest;
  }

  ghost predicate AllUsable(voters: seq<NodeId>, me: NodeId, outcomes: map<NodeId, Outcome>, joined: seq<NodeId>)
    requires AllIn(voters, outcomes)
  {
    forall i :: 0 <= i < |voters| && voters[i] != me ==> voters[i] in joined && DepthOf(outcomes, voters[i]).Some?
  }

  function Saturated(n: nat): U64 { if n > U64_MAX then U64_MAX else n }

  /** The first `n` joined peers that gave no usable depth. */
  function WithoutDepth(outcomes: map<NodeId, Outcome>, joined: seq<NodeId>, n: nat): set<nat>
    requires AllIn(joined, outcomes) && n <= |joined|
  {
    set j | 0 <= j < n && DepthOf(outcomes, joined[j]).None?
  }

  lemma OneMoreWithoutDepth(outcomes: map<NodeId, Outcome>, joined: seq<NodeId>, n: nat)
    requires AllIn(joined, outcomes) && n < |joined|
    ensures |WithoutDepth(outcomes, joined, n + 1)| ==
            |WithoutDepth(outcomes, joined, n)| + if DepthOf(outcomes, joined[n]).None? then 1 else 0
  {
    var missing := if DepthOf(outcomes, joined[n]).None? then {n} else {};
    assert WithoutDepth(outcomes, joined, n + 1) == WithoutDepth(outcomes, joined, n) + missing;
  }

  lemma NoneWithoutDepth(outcomes: map<NodeId, Outcome>, joined: seq<NodeId>)
    requires AllIn(joined, outcomes)
    ensures |WithoutDepth(outcomes, joined, |joined|)| == 0 <==> forall j :: 0 <= j < |joined| ==> DepthOf(outcomes, joined[j]).Some?
  {
    assert forall j :: 0 <= j < |joined| ==> (DepthOf(outcomes, joined[j]).None? <==> j in WithoutDepth(outcomes, joined, |joined|));
  }

  /** The drain loop of `fleet_health`: depths are added as peers answer, and the peers that give none
      are counted. */
  method SumDepths(mine: U64, outcomes: map<NodeId, Outcome>, joined: seq<NodeId>) returns (sum: U64, unanswered: nat)
    requires AllIn(joined, outcomes)
    ensures sum == Saturated(mine + DepthSum(outcomes, joined))
    ensures unanswered == |WithoutDepth(outcomes, joined, |joined|)|
    ensures unanswered == 0 <==> forall j :: 0 <= j < |joined| ==> DepthOf(outcomes, joined[j]).Some?
  {
    sum, unanswered := mine, 0;
    for i := 0 to |joined|
      invariant AllIn(joined[..i], outcomes)
      invariant sum == Saturated(mine + DepthSum(outcomes, joined[..i]))
      invariant unanswered == |WithoutDepth(outcomes, joined, i)|
    {
      OneMoreWithoutDepth(outcomes, joined, i);
      assert joined[..i + 1][..i] == joined[..i];
      var (added, usable) := AddPeerDepth(sum, DepthOf(outcomes, joined[i]));
      sum := added;
      if !usable { unanswered := unanswered + 1; }
    }
    assert joined[..|joined|] == joined;
    NoneWithoutDepth(outcomes, joined);
  }

  lemma UsableIff(voters: seq<NodeId>, me: NodeId, outcomes: map<NodeId, Outcome>, joined: seq<NodeId>)
    requires FanOut(voters, me, outcomes, joined)
    ensures AllIn(joined, outcomes)
    ensures AllUsable(voters, me, outcomes, joined) <==>
            !TimedOut(voters, me, joined) && forall j :: 0 <= j < |joined| ==> DepthOf(outcomes, joined[j]).Some?
  {
    if AllUsable(voters, me, outcomes, joined) {
      forall j | 0 <= j < |joined| ensures DepthOf(outcomes, joined[j]).Some? {
        var i :| 0 <= i < |voters| && voters[i] == joined[j];
      }
    }
  }

  lemma JoinedInVoterOrder(voters: seq<NodeId>, me: NodeId, outcomes: map<NodeId, Outcome>, joined: seq<NodeId>)
    requires FanOut(voters, me, outcomes, joined)
    ensures AllIn(joined, outcomes) && AllIn(JoinedVoters(voters, joined), outcomes)
    ensures DepthSum(outcomes, joined) == DepthSum(outcomes, JoinedVoters(voters, joined))
  {
    JoinedVotersAre(voters, joined);
    var ordered := JoinedVoters(voters, joined);
    forall i | 0 <= i < |ordered| ensures ordered[i] in outcomes {
      assert ordered[i] in ordered;
    }
    DepthSumPermutes(outcomes, joined, ordered);
  }

  /** `fleet_health`: the fleet's backlog, and whether it is only a floor.  The total is the capped
      sum over the peers that joined, in voter order; it is exact if and only if every other voter
      contributed a depth. */
  method FleetHealth(mine: Option<U64>, voters: seq<NodeId>, me: NodeId, outcomes: map<NodeId, Outcome>, joined: seq<NodeId>)
    returns (total: Option<U64>, partial: bool)
    requires FanOut(voters, me, outcomes, joined)
    ensures mine.None? ==> total.None? && partial
    ensures mine.Some? ==>
              && AllIn(JoinedVoters(voters, joined), outcomes)
              && total == Some(Saturated(mine.value + DepthSum(outcomes, JoinedVoters(voters, joined))))
              && (!partial <==> AllUsable(voters, me, outcomes, joined))
  {
    if mine.None? { return None, true; }
    UsableIff(voters, me, outcomes, joined);
    JoinedInVoterOrder(voters, me, outcomes, joined);
    var sum, unanswered := SumDepths(mine.value, outcomes, joined);
    return Some(sum), TimedOut(voters, me, joined) || unanswered > 0;
  }
}
