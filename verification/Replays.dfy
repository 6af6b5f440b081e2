/** The entries of one multi-op write in the log, in order or not.

    A write's ops are parked before they are submitted, and a replay submits whatever is parked:
    the log can hold them in any order and any number of times.  Nothing here assumes that the
    dedup window is still open: an entry either is answered from an earlier run of the same op or
    runs again.
 */
module Replays {
  import opened Text
  import opened Control
  import opened StateMachine
  import opened Dedup
  import opened Revisions
  import opened Mutation
  import opened ReplaceAll

  /** The requests of one unconditional write of validated puts and deletes. */
  ghost predicate OneWrite(requests: seq<ControlRequest>) {
    && (forall i :: 0 <= i < |requests| ==> Plain(requests[i]))
    && (forall i, j :: 0 <= i < j < |requests| ==> requests[i].opId != requests[j].opId)
  }

  /** Requests of which those with one id carry one op: one write, or several attempts at it. */
  ghost predicate Coherent(requests: seq<ControlRequest>) {
    && (forall i :: 0 <= i < |requests| ==> Plain(requests[i]))
    && (forall i, j :: 0 <= i < |requests| && 0 <= j < |requests| && requests[i].opId == requests[j].opId ==> requests[i].op == requests[j].op)
  }

  ghost predicate Plain(request: ControlRequest) {
    PutOrDelete(request.op) && Validate(request.op).Ok? && request.expectedRevision.None? && !request.expectAbsent
  }

  /** The first `n` entries know none of the write's ids: it was minted under a fresh key. */
  ghost predicate Unused(log: seq<Payload>, n: nat, requests: seq<ControlRequest>)
    requires n <= |log|
  {
    forall m, i :: 0 <= m < n && 0 <= i < |requests| ==> !UsesId(log[m], requests[i].opId)
  }

  /** From `n` on the log holds only this write's entries, and entries that carry no op. */
  ghost predicate OnlyReplays(log: seq<Payload>, n: nat, requests: seq<ControlRequest>) {
    forall m :: n <= m < |log| && log[m].Normal? ==> log[m].request in requests
  }

  ghost function ConfigAt(log: seq<Payload>, k: nat, port: Port): Option<ImposterConfig>
    requires k <= |log|
  {
    if RowAt(log, k, port).Some? then Some(RowAt(log, k, port).value.config) else None
  }

  lemma RunLeaves(log: seq<Payload>, k: nat, port: Port)
    requires k < |log| && Ran(log, k) && Plain(log[k].request)
    ensures ConfigAt(log, k + 1, port) ==
            if port == Target(log[k].request.op) then Leaves(log[k].request.op) else ConfigAt(log, k, port)
  {
    StateStep(log, k);
    AppliedCounts(log, k);
    PutAndDeleteNeedNothing(TablesAt(log, k), log[k].request, k + 1);
  }

  lemma SameIdSameOp(requests: seq<ControlRequest>, a: ControlRequest, b: ControlRequest)
    requires Coherent(requests) && a in requests && b in requests && a.opId == b.opId
    ensures a.op == b.op
  {
    var i, j :| 0 <= i < |requests| && 0 <= j < |requests| && requests[i] == a && requests[j] == b;
  }

  /** An entry of the write that did not run was answered from an earlier entry of the same op. */
  lemma AnsweredByItself(log: seq<Payload>, n: nat, k: nat, requests: seq<ControlRequest>) returns (m: nat)
    requires n <= k < |log| && Coherent(requests) && Unused(log, n, requests) && OnlyReplays(log, n, requests)
    requires log[k].Normal? && !Ran(log, k)
    ensures n <= m < k && log[m].Normal? && log[m].request.op == log[k].request.op
  {
    AnsweredIffWithinWindow(log, k);
    m :| 0 <= m < k && RanAs(log, m, log[k].request.opId);
    var i :| 0 <= i < |requests| && requests[i] == log[k].request;
    assert UsesId(log[m], requests[i].opId);
    SameIdSameOp(requests, log[m].request, log[k].request);
  }

  /** Ops on one port leave the same there: what a body of distinct ports gives, and what two
      attempts at one body give together. */
  ghost predicate Consistent(requests: seq<ControlRequest>)
    requires Coherent(requests)
  {
    forall i, j :: 0 <= i < |requests| && 0 <= j < |requests| && Target(requests[i].op) == Target(requests[j].op) ==>
      Leaves(requests[i].op) == Leaves(requests[j].op)
  }

  /** Once an op of the write is in the log, its port holds what it leaves, from then on. */
  lemma {:induction false} Settled(log: seq<Payload>, n: nat, m: nat, k: nat, requests: seq<ControlRequest>)
    requires n <= m < k <= |log| && Coherent(requests) && Consistent(requests)
    requires Unused(log, n, requests) && OnlyReplays(log, n, requests) && log[m].Normal?
    ensures ConfigAt(log, k, Target(log[m].request.op)) == Leaves(log[m].request.op)
    decreases k
  {
    var op, last := log[m].request.op, k - 1;
    if log[last].Normal? && Ran(log, last) {
      RunLeaves(log, last, Target(op));
      if m < last {
        Settled(log, n, m, last, requests);
        SameTargetLeavesSame(requests, log[m].request, log[last].request);
      }
    } else {
      NotRanStep(log, last);
      var earlier := m;
      if m == last { earlier := AnsweredByItself(log, n, last, requests); }
      Settled(log, n, earlier, last, requests);
    }
  }

  lemma SameTargetLeavesSame(requests: seq<ControlRequest>, a: ControlRequest, b: ControlRequest)
    requires Coherent(requests) && Consistent(requests) && a in requests && b in requests
    ensures Target(a.op) == Target(b.op) ==> Leaves(a.op) == Leaves(b.op)
  {
    var i, j :| 0 <= i < |requests| && 0 <= j < |requests| && requests[i] == a && requests[j] == b;
  }

  /** Entry `m` carries an op on the port. */
  ghost predicate Targets(log: seq<Payload>, m: nat, port: Port)
    requires m < |log|
  {
    log[m].Normal? && PutOrDelete(log[m].request.op) && Target(log[m].request.op) == port
  }

  /** A port no entry since names keeps its config. */
  lemma {:induction false} Untouched(log: seq<Payload>, n: nat, k: nat, requests: seq<ControlRequest>, port: Port)
    requires n <= k <= |log| && Coherent(requests) && OnlyReplays(log, n, requests)
    requires forall m :: n <= m < k ==> !Targets(log, m, port)
    ensures ConfigAt(log, k, port) == ConfigAt(log, n, port)
    decreases k
  {
    if n < k {
      Untouched(log, n, k - 1, requests, port);
      assert !Targets(log, k - 1, port);
      if log[k - 1].Normal? && Ran(log, k - 1) { RunLeaves(log, k - 1, port); } else { NotRanStep(log, k - 1); }
    }
  }

  ghost predicate AllOccur(log: seq<Payload>, n: nat, requests: seq<ControlRequest>)
    requires n <= |log|
  {
    forall i :: 0 <= i < |requests| ==> Normal(requests[i]) in log[n..]
  }

  /** One replay of a write: its entries after `before`, in any order, each at least once. */
  ghost predicate Replay(before: seq<Payload>, log: seq<Payload>, requests: seq<ControlRequest>) {
    before <= log && OnlyReplays(log, |before|, requests) && AllOccur(log, |before|, requests)
  }

  lemma PortAfterReplay(before: seq<Payload>, log: seq<Payload>, requests: seq<ControlRequest>, port: Port)
    requires Coherent(requests) && Consistent(requests)
    requires Unused(before, |before|, requests) && Replay(before, log, requests)
    ensures (forall i :: 0 <= i < |requests| ==> Target(requests[i].op) != port) ==>
              ConfigAt(log, |log|, port) == ConfigAt(before, |before|, port)
    ensures forall i :: 0 <= i < |requests| && Target(requests[i].op) == port ==>
              ConfigAt(log, |log|, port) == Leaves(requests[i].op)
  {
    var n := |before|;
    assert log == before + log[n..];
    StateOfPrefix(before, log[n..], n);
    assert Unused(log, n, requests);
    if i :| 0 <= i < |requests| && Target(requests[i].op) == port {
      var at :| 0 <= at < |log[n..]| && log[n..][at] == Normal(requests[i]);
      assert log[n + at] == Normal(requests[i]);
      Settled(log, n, n + at, |log|, requests);
    } else {
      forall m | n <= m < |log| ensures !Targets(log, m, port) {
        if log[m].Normal? { assert log[m].request in requests; }
      }
      Untouched(log, n, |log|, requests, port);
    }
  }

  lemma SameConfigs(a: seq<Payload>, b: seq<Payload>)
    requires forall port: Port :: ConfigAt(a, |a|, port) == ConfigAt(b, |b|, port)
    ensures Contents(TablesAt(a, |a|)) == Contents(TablesAt(b, |b|))
  {
    var x, y := Contents(TablesAt(a, |a|)), Contents(TablesAt(b, |b|));
    forall port: Port ensures port in x <==> port in y
                      ensures port in x && port in y ==> x[port] == y[port]
    {
      assert ConfigAt(a, |a|, port) == ConfigAt(b, |b|, port);
    }
  }

  /** Confluence: any two replays of one write from one state end with the same configs, whatever
      the order, the repetition, and however much of it was answered from the dedup table. */
  lemma ReplaysAgree(before: seq<Payload>, a: seq<Payload>, b: seq<Payload>, requests: seq<ControlRequest>)
    requires Coherent(requests) && Consistent(requests) && Unused(before, |before|, requests)
    requires Replay(before, a, requests) && Replay(before, b, requests)
    ensures Contents(TablesAt(a, |a|)) == Contents(TablesAt(b, |b|))
  {
    forall port: Port ensures ConfigAt(a, |a|, port) == ConfigAt(b, |b|, port) {
      PortAfterReplay(before, a, requests, port);
      PortAfterReplay(before, b, requests, port);
    }
    SameConfigs(a, b);
  }

  // ---- and only then ----

  /** The write with its op `j` moved to the end. */
  function MovedLast(requests: seq<ControlRequest>, j: nat): seq<ControlRequest>
    requires j < |requests|
  {
    Remove(requests, j) + [requests[j]]
  }

  lemma MovedLastIsTheWrite(requests: seq<ControlRequest>, j: nat)
    requires OneWrite(requests) && j < |requests|
    ensures OneWrite(MovedLast(requests, j)) && forall r :: r in MovedLast(requests, j) <==> r in requests
  {
    var moved, n := MovedLast(requests, j), |requests| - 1;
    assert forall i :: 0 <= i < n ==> moved[i] == requests[if i < j then i else i + 1];
    forall r | r in requests ensures r in moved {
      var i :| 0 <= i < |requests| && requests[i] == r;
      assert moved[if i < j then i else if i == j then n else i - 1] == r;
    }
  }

  lemma ReplayOfTheSame(before: seq<Payload>, log: seq<Payload>, moved: seq<ControlRequest>, requests: seq<ControlRequest>)
    requires Replay(before, log, moved) && forall r :: r in moved <==> r in requests
    ensures Replay(before, log, requests)
  {
    forall i | 0 <= i < |requests| ensures Normal(requests[i]) in log[|before|..] {
      assert requests[i] in moved;
      var k :| 0 <= k < |moved| && moved[k] == requests[i];
      assert Normal(moved[k]) in log[|before|..];
    }
  }

  lemma LastRunsLast(before: seq<Payload>, moved: seq<ControlRequest>, log: seq<Payload>)
    requires OneWrite(moved) && moved != [] && log == before + Entries(moved) && Unused(before, |before|, moved)
    ensures var op := moved[|moved| - 1].op; ConfigAt(log, |log|, Target(op)) == Leaves(op)
  {
    AppendedStands(before, moved, log);
    InOrderEntryRuns(log, |before|, moved, |log| - 1);
    RunLeaves(log, |log| - 1, Target(moved[|moved| - 1].op));
  }

  lemma AppendedStands(before: seq<Payload>, requests: seq<ControlRequest>, log: seq<Payload>)
    requires log == before + Entries(requests) && Unused(before, |before|, requests)
    ensures InOrder(log, |before|, requests) && Unused(log, |before|, requests)
  {}

  /** The replay in which op `j` comes last leaves what op `j` leaves. */
  lemma LastWins(before: seq<Payload>, requests: seq<ControlRequest>, j: nat) returns (log: seq<Payload>)
    requires OneWrite(requests) && Unused(before, |before|, requests) && j < |requests|
    ensures Replay(before, log, requests) && ConfigAt(log, |log|, Target(requests[j].op)) == Leaves(requests[j].op)
  {
    var moved := MovedLast(requests, j);
    MovedLastIsTheWrite(requests, j);
    forall m, i | 0 <= m < |before| && 0 <= i < |moved| ensures !UsesId(before[m], moved[i].opId) {
      assert moved[i] in requests;
    }
    log := before + Entries(moved);
    InOrderIsAReplay(before, moved);
    ReplayOfTheSame(before, log, moved, requests);
    LastRunsLast(before, moved, log);
  }

  ghost predicate AllReplaysAgree(before: seq<Payload>, requests: seq<ControlRequest>) {
    forall a, b :: Replay(before, a, requests) && Replay(before, b, requests) ==> Contents(TablesAt(a, |a|)) == Contents(TablesAt(b, |b|))
  }

  /** All replays of a write agree if and only if its ops agree on each port: a body that gives one
      port two configs has replays that end apart. */
  lemma ReplaysAgreeIff(before: seq<Payload>, requests: seq<ControlRequest>)
    requires OneWrite(requests) && Unused(before, |before|, requests)
    ensures AllReplaysAgree(before, requests) <==> Consistent(requests)
  {
    if Consistent(requests) {
      forall a, b | Replay(before, a, requests) && Replay(before, b, requests)
        ensures Contents(TablesAt(a, |a|)) == Contents(TablesAt(b, |b|))
      {
        ReplaysAgree(before, a, b, requests);
      }
    } else {
      var i, j :| 0 <= i < |requests| && 0 <= j < |requests| && Target(requests[i].op) == Target(requests[j].op) &&
                  Leaves(requests[i].op) != Leaves(requests[j].op);
      ReplaysEndApart(before, requests, i, j);
    }
  }

  lemma ReplaysEndApart(before: seq<Payload>, requests: seq<ControlRequest>, i: nat, j: nat)
    requires OneWrite(requests) && Unused(before, |before|, requests) && i < |requests| && j < |requests|
    requires Target(requests[i].op) == Target(requests[j].op) && Leaves(requests[i].op) != Leaves(requests[j].op)
    ensures !AllReplaysAgree(before, requests)
  {
    var a := LastWins(before, requests, i);
    var b := LastWins(before, requests, j);
    var port := Target(requests[i].op);
    assert ConfigAt(a, |a|, port) == if port in Contents(TablesAt(a, |a|)) then Some(Contents(TablesAt(a, |a|))[port]) else None;
    assert ConfigAt(b, |b|, port) == if port in Contents(TablesAt(b, |b|)) then Some(Contents(TablesAt(b, |b|))[port]) else None;
    assert Contents(TablesAt(a, |a|)) != Contents(TablesAt(b, |b|));
  }

  // ---- the run in order ----

  function OpsOf(requests: seq<ControlRequest>): seq<ControlOp> {
    seq(|requests|, i requires 0 <= i < |requests| => requests[i].op)
  }

  lemma EntryContents(log: seq<Payload>, k: nat)
    requires k < |log| && Ran(log, k) && Plain(log[k].request)
    ensures Contents(TablesAt(log, k + 1)) == Effect(Contents(TablesAt(log, k)), log[k].request.op)
  {
    StateStep(log, k);
    AppliedCounts(log, k);
    PutAndDeleteNeedNothing(TablesAt(log, k), log[k].request, k + 1);
  }

  /** The write's entries stand in order from `n` on. */
  ghost predicate InOrder(log: seq<Payload>, n: nat, requests: seq<ControlRequest>) {
    && n + |requests| <= |log|
    && forall i :: n <= i < n + |requests| ==> log[i] == Normal(requests[i - n])
  }

  lemma InOrderEntryRuns(log: seq<Payload>, n: nat, requests: seq<ControlRequest>, k: nat)
    requires OneWrite(requests) && InOrder(log, n, requests) && Unused(log, n, requests) && n <= k < n + |requests|
    ensures Ran(log, k) && log[k] == Normal(requests[k - n])
  {
    forall m | 0 <= m < k ensures !UsesId(log[m], log[k].request.opId) {
      if n <= m { assert log[m] == Normal(requests[m - n]); }
    }
    FirstUseRuns(log, k);
  }

  lemma InOrderStep(log: seq<Payload>, n: nat, requests: seq<ControlRequest>, k: nat)
    requires OneWrite(requests) && InOrder(log, n, requests) && Unused(log, n, requests) && n <= k < n + |requests|
    ensures Contents(TablesAt(log, k + 1)) == Effect(Contents(TablesAt(log, k)), requests[k - n].op)
  {
    InOrderEntryRuns(log, n, requests, k);
    EntryContents(log, k);
  }

  /** With no other writer, the entries of a write submitted in order have exactly the effects of
      its ops, one after the other, wherever the run stops. */
  lemma {:induction false} RunInOrder(log: seq<Payload>, n: nat, requests: seq<ControlRequest>, k: nat)
    requires OneWrite(requests) && InOrder(log, n, requests) && Unused(log, n, requests) && k <= |requests|
    ensures AllPutOrDelete(OpsOf(requests))
    ensures Contents(TablesAt(log, n + k)) == Effects(Contents(TablesAt(log, n)), OpsOf(requests)[..k])
  {
    if k > 0 {
      RunInOrder(log, n, requests, k - 1);
      InOrderStep(log, n, requests, n + k - 1);
      EffectsNext(Contents(TablesAt(log, n)), OpsOf(requests), k - 1);
    }
  }

  lemma InOrderIsAReplay(before: seq<Payload>, requests: seq<ControlRequest>)
    ensures Replay(before, before + Entries(requests), requests)
  {
    var log := before + Entries(requests);
    assert log[|before|..] == Entries(requests);
    forall i | 0 <= i < |requests| ensures Normal(requests[i]) in log[|before|..] {
      assert Entries(requests)[i] == Normal(requests[i]);
    }
    forall m | |before| <= m < |log| && log[m].Normal? ensures log[m].request in requests {
      assert log[m] == Entries(requests)[m - |before|];
    }
  }

  lemma ReplayEndsInOrder(before: seq<Payload>, log: seq<Payload>, inOrder: seq<Payload>, requests: seq<ControlRequest>)
    requires Coherent(requests) && Consistent(requests)
    requires Unused(before, |before|, requests) && Replay(before, log, requests) && inOrder == before + Entries(requests)
    ensures Contents(TablesAt(log, |log|)) == Contents(TablesAt(inOrder, |inOrder|))
  {
    InOrderIsAReplay(before, requests);
    ReplaysAgree(before, log, inOrder, requests);
  }

  // ---- the requests of PUT /imposters ----

  ghost predicate DistinctPorts(imposters: seq<ImposterConfig>)
    requires AllPorted(imposters)
  {
    forall i, j :: 0 <= i < j < |imposters| ==> imposters[i].port.value != imposters[j].port.value
  }

  /** A port the body repeats, it gives the same config. */
  ghost predicate OneConfigPerPort(imposters: seq<ImposterConfig>)
    requires AllPorted(imposters)
  {
    forall i, j :: 0 <= i < |imposters| && 0 <= j < |imposters| && imposters[i].port == imposters[j].port ==> imposters[i] == imposters[j]
  }

  ghost predicate Distinct(ports: seq<Port>) {
    forall i, j :: 0 <= i < j < |ports| ==> ports[i] != ports[j]
  }

  lemma {:induction false} ConfiguredPortsAreDistinct(tables: Tables, bound: nat)
    requires bound <= 0x1_0000
    ensures Distinct(PortsBelow(tables, bound))
  {
    if bound > 0 {
      ConfiguredPortsAreDistinct(tables, bound - 1);
      PortsBelowAre(tables, bound - 1);
    }
  }

  ghost predicate DistinctOps(ops: seq<ControlOp>)
    requires AllPutOrDelete(ops)
  {
    forall i, j :: 0 <= i < j < |ops| ==> Target(ops[i]) != Target(ops[j])
  }

  lemma {:induction false} PrunesAreDistinct(existing: seq<Port>, keep: set<Port>)
    requires Distinct(existing)
    ensures AllPutOrDelete(Prunes(existing, keep)) && DistinctOps(Prunes(existing, keep))
  {
    PrunesAreDeletes(existing, keep);
    if existing != [] {
      PrunesAreDistinct(existing[..|existing| - 1], keep);
      PrunesAreDeletes(existing[..|existing| - 1], keep);
    }
  }

  lemma {:induction false} SubmittedAreDistinct(imposters: seq<ImposterConfig>, existing: seq<Port>, reconcile: bool)
    requires AllPorted(imposters) && imposters != [] && DistinctPorts(imposters) && Distinct(existing)
    ensures AllPutOrDelete(Submitted(imposters, existing, reconcile)) && DistinctOps(Submitted(imposters, existing, reconcile))
  {
    SubmittedShape(imposters, existing, reconcile);
    PrunesAreDistinct(existing, Kept(imposters));
    PrunesAreDeletes(existing, Kept(imposters));
    PortsListed(imposters);
    assert DistinctOps(ReplaceAllOps(imposters, existing));
  }

  ghost predicate AllValid(ops: seq<ControlOp>) {
    forall i :: 0 <= i < |ops| ==> Validate(ops[i]).Ok?
  }

  lemma MintedIsOneWrite(ops: seq<ControlOp>, base: OpId, stamps: seq<Stamp>)
    requires AllPutOrDelete(ops) && AllValid(ops) && |stamps| == |ops|
    ensures OneWrite(Requests(ops, base, Unconditional, stamps))
    ensures OpsOf(Requests(ops, base, Unconditional, stamps)) == ops
    ensures DistinctOps(ops) ==> Consistent(Requests(ops, base, Unconditional, stamps))
  {
    var requests := Requests(ops, base, Unconditional, stamps);
    forall i, j | 0 <= i < j < |requests| ensures requests[i].opId != requests[j].opId {
      OpIdLaws(base, i, j, |ops|, i + 1);
    }
  }

  /** The in-order run of a batch replace, at every prefix. */
  lemma {:induction false} ReplaceInOrder(log: seq<Payload>, n: nat, imposters: seq<ImposterConfig>, existing: seq<Port>, reconcile: bool,
                                          requests: seq<ControlRequest>, k: nat)
    requires AllPorted(imposters) && imposters != []
    requires OneWrite(requests) && OpsOf(requests) == Submitted(imposters, existing, reconcile)
    requires InOrder(log, n, requests) && Unused(log, n, requests) && k <= |requests|
    ensures Contents(TablesAt(log, n + k)) == After(Contents(TablesAt(log, n)), imposters, existing, reconcile, k)
  {
    RunInOrder(log, n, requests, k);
  }

  lemma {:induction false} InOrderReplaceIsExact(log: seq<Payload>, n: nat, imposters: seq<ImposterConfig>, existing: seq<Port>, reconcile: bool,
                                                 requests: seq<ControlRequest>, begun: Configs, ended: Configs)
    requires AllPorted(imposters) && imposters != []
    requires OneWrite(requests) && OpsOf(requests) == Submitted(imposters, existing, reconcile)
    requires InOrder(log, n, requests) && Unused(log, n, requests)
    requires begun == Contents(TablesAt(log, n)) && ended == Contents(TablesAt(log, n + |requests|))
    ensures ended == Asked(imposters) <==> Known(begun, imposters, existing)
  {
    assert |requests| == |OpsOf(requests)|;
    ReplaceInOrder(log, n, imposters, existing, reconcile, requests, |requests|);
    ExactlyWhenKnown(begun, ended, imposters, existing, reconcile);
  }

  lemma AppendedInOrder(before: seq<Payload>, requests: seq<ControlRequest>, log: seq<Payload>, begun: Configs, ended: Configs)
    requires Unused(before, |before|, requests) && log == before + Entries(requests)
    requires begun == Contents(TablesAt(before, |before|)) && ended == Contents(TablesAt(log, |log|))
    ensures InOrder(log, |before|, requests) && Unused(log, |before|, requests)
    ensures begun == Contents(TablesAt(log, |before|)) && ended == Contents(TablesAt(log, |before| + |requests|))
  {
    StateOfPrefix(before, Entries(requests), |before|);
  }

  lemma {:induction false} AppendedReplaceIsExact(before: seq<Payload>, log: seq<Payload>, imposters: seq<ImposterConfig>, existing: seq<Port>,
                                                  reconcile: bool, requests: seq<ControlRequest>, begun: Configs, ended: Configs)
    requires AllPorted(imposters) && imposters != []
    requires OneWrite(requests) && OpsOf(requests) == Submitted(imposters, existing, reconcile)
    requires Unused(before, |before|, requests) && log == before + Entries(requests)
    requires begun == Contents(TablesAt(before, |before|)) && ended == Contents(TablesAt(log, |log|))
    ensures ended == Asked(imposters) <==> Known(begun, imposters, existing)
  {
    AppendedInOrder(before, requests, log, begun, ended);
    InOrderReplaceIsExact(log, |before|, imposters, existing, reconcile, requests, begun, ended);
  }

  /** A batch replace with distinct ports ends at what its body asked for however its entries reach
      the log, if and only if the node that built it knew every configured port. */
  lemma {:induction false} ReplayedReplaceIsExact(before: seq<Payload>, log: seq<Payload>, imposters: seq<ImposterConfig>, existing: seq<Port>,
                                                  reconcile: bool, requests: seq<ControlRequest>, begun: Configs, ended: Configs)
    requires AllPorted(imposters) && imposters != []
    requires OneWrite(requests) && Consistent(requests) && OpsOf(requests) == Submitted(imposters, existing, reconcile)
    requires Unused(before, |before|, requests) && Replay(before, log, requests)
    requires begun == Contents(TablesAt(before, |before|)) && ended == Contents(TablesAt(log, |log|))
    ensures ended == Asked(imposters) <==> Known(begun, imposters, existing)
  {
    var inOrder := before + Entries(requests);
    ReplayEndsInOrder(before, log, inOrder, requests);
    AppendedReplaceIsExact(before, inOrder, imposters, existing, reconcile, requests, begun, ended);
  }

  /** The requests the front mints for a body of distinct ports are such a write. */
  lemma {:induction false} FrontMintsOneWrite(view: View, imposters: seq<ImposterConfig>, reconcile: bool, base: OpId, stamps: seq<Stamp>)
    requires AllPorted(imposters) && imposters != []
    requires var ops := Submitted(imposters, ConfiguredPorts(view.tables), reconcile); AllValid(ops) && |stamps| == |ops|
    ensures var ops := Submitted(imposters, ConfiguredPorts(view.tables), reconcile);
            var requests := Requests(ops, base, Unconditional, stamps);
            && OneWrite(requests) && OpsOf(requests) == ops
            && (DistinctPorts(imposters) ==> Consistent(requests))
  {
    var existing := ConfiguredPorts(view.tables);
    SubmittedShape(imposters, existing, reconcile);
    MintedIsOneWrite(Submitted(imposters, existing, reconcile), base, stamps);
    if DistinctPorts(imposters) {
      ConfiguredPortsAreDistinct(view.tables, 0x1_0000);
      SubmittedAreDistinct(imposters, existing, reconcile);
    }
  }
}
