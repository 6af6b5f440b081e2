/** One node's side of an admin write: the checks at the door, parking, submitting, unparking, and
    the replay of what stays parked (crates/rift-cluster-server/src/admin_front.rs,
    crates/rift-cluster-server/src/compose.rs, crates/rift-cluster/src/raft/store.rs).

    What the node cannot decide comes from outside: whether each durable write to the parked table
    succeeded, and what each submit came back with.
 */
module WritePath {
  import opened Text
  import opened Control
  import opened StateMachine
  import opened Mutation

  type Intents = map<OpId, ControlRequest>

  /** What `submit` came back with; `TimedOut` is the front's own deadline. */
  datatype Reply = Answered(response: ControlResponse) | TimedOut | Unavailable | TooLarge | Broken

  /** How the durable writes and the submits of `n` requests turn out, by position. */
  datatype Weather = Weather(parks: seq<bool>, replies: seq<Reply>, unparks: seq<bool>)
  {
    predicate Covers(n: nat) { |parks| == |replies| == |unparks| == n }
  }

  datatype WriteAnswer =
    | Invalidated(reason: Refusal)
    | AtTheDoor(answer: DoorAnswer)
    | TooLargeToReplicate
    | CannotPark
    | Accepted(base: OpId, ids: seq<OpId>)
    | ParkedForReplay(why: Reply)
    | Refused(reason: Refusal)
    | Committed(id: OpId, response: ControlResponse)
    | NothingToCommit

  // ---- the door ----

  /** Op `i` is the first that does not validate, and for this reason. */
  ghost predicate IsFirstInvalid(ops: seq<ControlOp>, i: int, reason: Refusal) {
    0 <= i < |ops| && Validate(ops[i]) == Err(reason) && forall j :: 0 <= j < i ==> Validate(ops[j]).Ok?
  }

  function FirstRefusal(ops: seq<ControlOp>): (refusal: Option<Refusal>)
    ensures refusal.None? <==> forall i :: 0 <= i < |ops| ==> Validate(ops[i]).Ok?
    ensures refusal.Some? ==> exists i :: IsFirstInvalid(ops, i, refusal.value)
  {
    if ops == [] then None
    else if Validate(ops[0]).Err? then
      assert IsFirstInvalid(ops, 0, Validate(ops[0]).error);
      Some(Validate(ops[0]).error)
    else
      assert forall i :: 0 < i < |ops| ==> ops[i] == ops[1..][i - 1];
      var rest := FirstRefusal(ops[1..]);
      assert rest.Some? ==> forall i :: IsFirstInvalid(ops[1..], i, rest.value) ==> IsFirstInvalid(ops, i + 1, rest.value);
      rest
  }

  predicate AllAdmitted(requests: seq<ControlRequest>) {
    forall i :: 0 <= i < |requests| ==> AdmitsEntrySize(requests[i])
  }

  /** Everything `run_mutation` decides before it parks anything: the requests to park, or the
      refusal.  Script resolution and engine admission, which run between, are not modelled. */
  function Door(m: Mutation, ifMatch: Option<string>, createOnly: bool, base: OpId, stamps: seq<Stamp>)
    : (requests: Result<seq<ControlRequest>, WriteAnswer>)
    requires |stamps| == |m.ops|
    ensures requests.Ok? ==> AllAdmitted(requests.value) && |requests.value| == |m.ops|
    ensures requests.Ok? ==> forall i :: 0 <= i < |m.ops| ==> Validate(requests.value[i].op).Ok?
  {
    var refusal := FirstRefusal(m.ops);
    if refusal.Some? then Err(Invalidated(refusal.value))
    else
      var precondition := DoorPrecondition(m, ifMatch, createOnly);
      if precondition.Err? then Err(AtTheDoor(precondition.error))
      else
        var requests := Requests(m.ops, base, precondition.value, stamps);
        if AllAdmitted(requests) then Ok(requests) else Err(TooLargeToReplicate)
  }

  // ---- what a run leaves parked ----

  /** Parking the first `k` requests; a known id is overwritten. */
  function Park(parked: Intents, requests: seq<ControlRequest>, k: nat): Intents
    requires k <= |requests|
  {
    if k == 0 then parked else Park(parked, requests, k - 1)[requests[k - 1].opId := requests[k - 1]]
  }

  /** The first position from `i` on that is flagged, or the end. */
  function FirstFlag(flags: seq<bool>, i: nat): (stop: nat)
    requires i <= |flags|
    ensures i <= stop <= |flags|
    ensures forall j :: i <= j < stop ==> !flags[j]
    ensures stop < |flags| ==> flags[stop]
    decreases |flags| - i
  {
    if i == |flags| || flags[i] then i else FirstFlag(flags, i + 1)
  }

  function Not(flags: seq<bool>): seq<bool> {
    seq(|flags|, i requires 0 <= i < |flags| => !flags[i])
  }

  /** The ids of the first `k` requests that are flagged and whose unpark succeeded. */
  function Retired(requests: seq<ControlRequest>, k: nat, retire: seq<bool>, unparks: seq<bool>): set<OpId>
    requires k <= |requests| == |retire| == |unparks|
  {
    set i | 0 <= i < k && retire[i] && unparks[i] :: requests[i].opId
  }

  /** Whether the front's loop over submits ends at a reply: always at a failure to submit, and in
      the synchronous mode also at an op the state machine refused. */
  predicate EndsFront(reply: Reply, async: bool) {
    !reply.Answered? || (!async && reply.response.outcome.Failed?)
  }

  function FrontEnds(replies: seq<Reply>, async: bool): seq<bool> {
    seq(|replies|, i requires 0 <= i < |replies| => EndsFront(replies[i], async))
  }

  function FrontRetires(replies: seq<Reply>): seq<bool> {
    seq(|replies|, i requires 0 <= i < |replies| => replies[i].Answered?)
  }

  /** How many requests the front submits: all, or up to and including the one it ends at. */
  function Submitted(replies: seq<Reply>, async: bool): nat {
    var stop := FirstFlag(FrontEnds(replies, async), 0);
    if stop < |replies| then stop + 1 else stop
  }

  /** What the front's submits leave parked: everything but the ids whose submit was answered and
      whose unpark succeeded, up to where the loop ended. */
  function AfterSubmits(parked: Intents, requests: seq<ControlRequest>, w: Weather, async: bool): Intents
    requires w.Covers(|requests|)
  {
    parked - Retired(requests, Submitted(w.replies, async), FrontRetires(w.replies), w.unparks)
  }

  /** A sweep ends where no quorum was found, and retires what was answered or can never be
      proposed. */
  function SweepEnds(replies: seq<Reply>): seq<bool> {
    seq(|replies|, i requires 0 <= i < |replies| => replies[i].Unavailable?)
  }

  function SweepRetires(replies: seq<Reply>): seq<bool> {
    seq(|replies|, i requires 0 <= i < |replies| => replies[i].Answered? || replies[i].TooLarge?)
  }

  function AfterSweep(parked: Intents, intents: seq<ControlRequest>, w: Weather): Intents
    requires w.Covers(|intents|)
  {
    parked - Retired(intents, FirstFlag(SweepEnds(w.replies), 0), SweepRetires(w.replies), w.unparks)
  }

  lemma RetiredNext(requests: seq<ControlRequest>, k: nat, retire: seq<bool>, unparks: seq<bool>)
    requires k < |requests| == |retire| == |unparks|
    ensures Retired(requests, k + 1, retire, unparks) ==
            Retired(requests, k, retire, unparks) + if retire[k] && unparks[k] then {requests[k].opId} else {}
  {}

  function Ids(requests: seq<ControlRequest>): seq<OpId> {
    seq(|requests|, i requires 0 <= i < |requests| => requests[i].opId)
  }

  /** What the requests of one write leave parked, and what the client hears.  Only a write whose
      every op is parked gets past `CannotPark`. */
  function RunRequests(parked: Intents, requests: seq<ControlRequest>, async: bool, base: OpId, w: Weather): (Intents, WriteAnswer)
    requires w.Covers(|requests|)
  {
    var failed := FirstFlag(Not(w.parks), 0);
    if failed < |requests| then (Park(parked, requests, failed), CannotPark)
    else if async then (Park(parked, requests, failed), Accepted(base, Ids(requests)))
    else (AfterSubmits(Park(parked, requests, failed), requests, w, false), SyncAnswer(requests, w.replies))
  }

  function SyncAnswer(requests: seq<ControlRequest>, replies: seq<Reply>): WriteAnswer
    requires |requests| == |replies|
  {
    var stop := FirstFlag(FrontEnds(replies, false), 0);
    if stop < |requests| then
      (if replies[stop].Answered? then Refused(replies[stop].response.outcome.reason) else ParkedForReplay(replies[stop]))
    else if requests == [] then NothingToCommit
    else
      assert !FrontEnds(replies, false)[stop - 1];
      Committed(requests[stop - 1].opId, replies[stop - 1].response)
  }

  // ---- laws of a run ----

  predicate DistinctIds(requests: seq<ControlRequest>) {
    forall i, j :: 0 <= i < j < |requests| ==> requests[i].opId != requests[j].opId
  }

  /** Parking keeps every id it finds, and files each request under its own. */
  lemma {:induction false} ParkHolds(parked: Intents, requests: seq<ControlRequest>, k: nat)
    requires k <= |requests|
    ensures forall id :: id in parked ==> id in Park(parked, requests, k)
    ensures forall i :: 0 <= i < k ==> requests[i].opId in Park(parked, requests, k)
    ensures DistinctIds(requests) ==> forall i :: 0 <= i < k ==> Park(parked, requests, k)[requests[i].opId] == requests[i]
  {
    if k > 0 { ParkHolds(parked, requests, k - 1); }
  }

  /** The front gets past a reply: the op was answered, and applied unless the client is not waiting. */
  ghost predicate GetsPast(reply: Reply, async: bool) {
    reply.Answered? && (async || reply.response.outcome.Applied?)
  }

  lemma SubmittedIff(replies: seq<Reply>, async: bool, i: nat)
    requires i < |replies|
    ensures i < Submitted(replies, async) <==> forall j :: 0 <= j < i ==> GetsPast(replies[j], async)
  {
    var ends := FrontEnds(replies, async);
    assert forall j :: 0 <= j < |replies| ==> (ends[j] <==> !GetsPast(replies[j], async));
  }

  /** Exactly which ops of a parked write are still parked when the front is done with it: all but
      those it came to, was answered for, and unparked.  A refusal or a failure part-way leaves the
      whole tail parked. */
  lemma StillParkedIff(parked: Intents, requests: seq<ControlRequest>, w: Weather, async: bool, i: nat)
    requires w.Covers(|requests|) && DistinctIds(requests) && i < |requests|
    ensures var after := AfterSubmits(Park(parked, requests, |requests|), requests, w, async);
            && (requests[i].opId in after <==>
                !(w.replies[i].Answered? && w.unparks[i] && forall j :: 0 <= j < i ==> GetsPast(w.replies[j], async)))
            && (requests[i].opId in after ==> after[requests[i].opId] == requests[i])
  {
    ParkHolds(parked, requests, |requests|);
    SubmittedIff(w.replies, async, i);
    var retired := Retired(requests, Submitted(w.replies, async), FrontRetires(w.replies), w.unparks);
    assert requests[i].opId in retired <==> i < Submitted(w.replies, async) && w.replies[i].Answered? && w.unparks[i];
  }

  ghost predicate WasApplied(reply: Reply) {
    reply.Answered? && reply.response.outcome.Applied?
  }

  /** The first op of a write that was not answered as applied. */
  ghost predicate StopsAt(replies: seq<Reply>, k: nat) {
    k < |replies| && !WasApplied(replies[k]) && forall i :: 0 <= i < k ==> WasApplied(replies[i])
  }

  lemma EndIsStop(replies: seq<Reply>)
    ensures var stop := FirstFlag(FrontEnds(replies, false), 0);
            && (forall k: nat :: StopsAt(replies, k) <==> stop < |replies| && k == stop)
            && (stop == |replies| <==> forall i :: 0 <= i < |replies| ==> WasApplied(replies[i]))
  {
    var ends := FrontEnds(replies, false);
    assert forall i :: 0 <= i < |replies| ==> (ends[i] <==> !WasApplied(replies[i]));
    var stop := FirstFlag(ends, 0);
    forall k: nat | StopsAt(replies, k) ensures stop == k {
      assert ends[k];
    }
  }

  /** What a synchronous client hears.  Success exactly when every op was answered and applied, with
      the id and the response of the last; else the first op that was not decides: its reason if the
      state machine refused it, and that it stays parked if it was not answered. */
  lemma SyncAnswerIs(requests: seq<ControlRequest>, replies: seq<Reply>)
    requires |requests| == |replies|
    ensures SyncAnswer(requests, replies) == NothingToCommit <==> requests == []
    ensures SyncAnswer(requests, replies).Committed? <==>
            requests != [] && forall i :: 0 <= i < |replies| ==> WasApplied(replies[i])
    ensures SyncAnswer(requests, replies).Committed? ==>
              SyncAnswer(requests, replies) == Committed(requests[|requests| - 1].opId, replies[|requests| - 1].response)
    ensures forall k: nat :: StopsAt(replies, k) ==>
              if replies[k].Answered? then SyncAnswer(requests, replies) == Refused(replies[k].response.outcome.reason)
              else SyncAnswer(requests, replies) == ParkedForReplay(replies[k])
  {
    EndIsStop(replies);
  }

  /** What any client hears of the requests of one write, and what is parked if they cannot all be:
      those before the first that failed to park. */
  lemma RunAnswers(parked: Intents, requests: seq<ControlRequest>, async: bool, base: OpId, w: Weather)
    requires w.Covers(|requests|) && DistinctIds(requests)
    ensures var (after, answer) := RunRequests(parked, requests, async, base, w);
            && (answer == CannotPark <==> exists i :: 0 <= i < |requests| && !w.parks[i])
            && (answer == CannotPark ==> forall i :: 0 <= i < |requests| ==>
                  (requests[i].opId in after <==> requests[i].opId in parked || forall j :: 0 <= j <= i ==> w.parks[j]))
            && (answer.Accepted? <==> async && answer != CannotPark)
            && (answer.Accepted? ==>
                  && answer.base == base && |answer.ids| == |requests|
                  && (forall i :: 0 <= i < |requests| ==> answer.ids[i] == requests[i].opId)
                  && AreParked(requests, after))
            && (!async && answer != CannotPark ==> answer == SyncAnswer(requests, w.replies))
  {
    var failed := FirstFlag(Not(w.parks), 0);
    assert forall i :: 0 <= i < |requests| ==> Not(w.parks)[i] == !w.parks[i];
    ParkHolds(parked, requests, failed);
    ParkHoldsOnly(parked, requests, failed);
  }

  /** Parking adds no id but those of the requests parked. */
  lemma {:induction false} ParkHoldsOnly(parked: Intents, requests: seq<ControlRequest>, k: nat)
    requires k <= |requests|
    ensures forall id :: id in Park(parked, requests, k) && id !in parked ==> exists i :: 0 <= i < k && requests[i].opId == id
  {
    if k > 0 { ParkHoldsOnly(parked, requests, k - 1); }
  }

  predicate AreParked(intents: seq<ControlRequest>, parked: Intents) {
    forall i :: 0 <= i < |intents| ==> intents[i].opId in parked && parked[intents[i].opId] == intents[i]
  }

  /** `intents` is the parked table, row by row. */
  ghost predicate Lists(intents: seq<ControlRequest>, parked: Intents) {
    && DistinctIds(intents) && AreParked(intents, parked)
    && (forall id :: id in parked ==> exists i :: 0 <= i < |intents| && intents[i].opId == id)
  }

  /** Exactly which intents a sweep leaves parked: all but those answered or impossible to propose, and
      unparked, before any reply that found no quorum. */
  lemma StillParkedAfterSweepIff(parked: Intents, intents: seq<ControlRequest>, w: Weather, i: nat)
    requires w.Covers(|intents|) && DistinctIds(intents) && AreParked(intents, parked) && i < |intents|
    ensures intents[i].opId in AfterSweep(parked, intents, w) <==>
            !((w.replies[i].Answered? || w.replies[i].TooLarge?) && w.unparks[i] && forall j :: 0 <= j < i ==> !w.replies[j].Unavailable?)
  {
    var stop, retire, ends := FirstFlag(SweepEnds(w.replies), 0), SweepRetires(w.replies), SweepEnds(w.replies);
    assert intents[i].opId in Retired(intents, stop, retire, w.unparks) <==> i < stop && retire[i] && w.unparks[i];
    assert forall j :: 0 <= j < |intents| ==> (ends[j] <==> w.replies[j].Unavailable?);
  }

  /** A sweep empties the table exactly when every intent was retired: none met a lost quorum, each
      was answered or can never be proposed, and each unpark succeeded. */
  lemma SweepEmptiesIff(parked: Intents, intents: seq<ControlRequest>, w: Weather)
    requires w.Covers(|intents|) && Lists(intents, parked)
    ensures AfterSweep(parked, intents, w) == map[] <==>
            forall i :: 0 <= i < |intents| ==> (w.replies[i].Answered? || w.replies[i].TooLarge?) && w.unparks[i]
  {
    var after, ends := AfterSweep(parked, intents, w), SweepEnds(w.replies);
    var stop := FirstFlag(ends, 0);
    if after == map[] {
      forall i | 0 <= i < |intents| ensures (w.replies[i].Answered? || w.replies[i].TooLarge?) && w.unparks[i] {
        StillParkedAfterSweepIff(parked, intents, w, i);
      }
    } else {
      var id :| id in after;
      var i :| 0 <= i < |intents| && intents[i].opId == id;
      StillParkedAfterSweepIff(parked, intents, w, i);
      assert stop < |intents| ==> ends[stop] && w.replies[stop].Unavailable?;
    }
  }

  // ---- the node ----

  class FrontNode {
    /** The durable table of accepted intents. */
    var parked: Intents
    /** Whether the replay loop has been woken. */
    var replayRequested: bool

    constructor ()
      ensures parked == map[] && !replayRequested
    {
      parked, replayRequested := map[], false;
    }

    method ParkIntent(request: ControlRequest, ok: bool)
      modifies this`parked
      ensures parked == if ok then old(parked)[request.opId := request] else old(parked)
    {
      if ok { parked := parked[request.opId := request]; }
    }

    method UnparkIntent(id: OpId, ok: bool)
      modifies this`parked
      ensures parked == if ok then old(parked) - {id} else old(parked)
    {
      if ok { parked := parked - {id}; }
    }

    /** Park every request, in order; false at the first that cannot be made durable. */
    method ParkAll(requests: seq<ControlRequest>, parks: seq<bool>) returns (ok: bool)
      requires |parks| == |requests|
      modifies this`parked
      ensures var failed := FirstFlag(Not(parks), 0);
              parked == Park(old(parked), requests, failed) && ok == (failed == |requests|)
    {
      for i := 0 to |requests|
        invariant parked == Park(old(parked), requests, i)
        invariant FirstFlag(Not(parks), 0) == FirstFlag(Not(parks), i)
      {
        ParkIntent(requests[i], parks[i]);
        if !parks[i] { return false; }
      }
      return true;
    }

    /** The submit loop of `run_mutation`, synchronous or in the background: the last op committed,
        or the reply it ended at. */
    method SubmitAll(requests: seq<ControlRequest>, w: Weather, async: bool) returns (last: Option<nat>, ended: Option<Reply>)
      requires w.Covers(|requests|)
      modifies this
      ensures parked == AfterSubmits(old(parked), requests, w, async)
      ensures var stop := FirstFlag(FrontEnds(w.replies, async), 0);
              if stop < |requests| then
                ended == Some(w.replies[stop]) && replayRequested == (old(replayRequested) || !w.replies[stop].Answered?)
              else
                ended == None && replayRequested == old(replayRequested) &&
                last == if requests == [] then None else Some(|requests| - 1)
    {
      last, ended := None, None;
      ghost var retire, ends := FrontRetires(w.replies), FrontEnds(w.replies, async);
      for i := 0 to |requests|
        invariant FirstFlag(ends, 0) == FirstFlag(ends, i)
        invariant parked == old(parked) - Retired(requests, i, retire, w.unparks)
        invariant last == (if i == 0 then None else Some(i - 1)) && ended == None
        invariant replayRequested == old(replayRequested)
      {
        RetiredNext(requests, i, retire, w.unparks);
        var reply := w.replies[i];
        if !reply.Answered? {
          replayRequested := true;
          return last, Some(reply);
        }
        UnparkIntent(requests[i].opId, w.unparks[i]);
        assert parked == old(parked) - Retired(requests, i + 1, retire, w.unparks);
        if !async && reply.response.outcome.Failed? { return last, Some(reply); }
        last := Some(i);
      }
    }

    /** The second half of `run_mutation`: park everything, then submit, or leave the submits to a
        background `SubmitAll`. */
    method Run(requests: seq<ControlRequest>, async: bool, base: OpId, w: Weather) returns (answer: WriteAnswer)
      requires w.Covers(|requests|)
      modifies this
      ensures (parked, answer) == RunRequests(old(parked), requests, async, base, w)
      ensures replayRequested == (old(replayRequested) || answer.ParkedForReplay?)
    {
      var ok := ParkAll(requests, w.parks);
      if !ok { return CannotPark; }
      if async { return Accepted(base, Ids(requests)); }
      var last, ended := SubmitAll(requests, w, false);
      if ended.Some? {
        return if ended.value.Answered? then Refused(ended.value.response.outcome.reason) else ParkedForReplay(ended.value);
      }
      if last.None? { return NothingToCommit; }
      assert !FrontEnds(w.replies, false)[last.value];
      return Committed(requests[last.value].opId, w.replies[last.value].response);
    }

    /** `run_mutation`, up to rendering. */
    method RunMutation(m: Mutation, ifMatch: Option<string>, createOnly: bool, async: bool, base: OpId, stamps: seq<Stamp>, w: Weather)
      returns (answer: WriteAnswer)
      requires |stamps| == |m.ops| && w.Covers(|m.ops|)
      modifies this
      ensures var door := Door(m, ifMatch, createOnly, base, stamps);
              (parked, answer) ==
              if door.Err? then (old(parked), door.error) else RunRequests(old(parked), door.value, async, base, w)
      ensures replayRequested == (old(replayRequested) || answer.ParkedForReplay?)
    {
      var door := Door(m, ifMatch, createOnly, base, stamps);
      if door.Err? { return door.error; }
      answer := Run(door.value, async, base, w);
    }

    /** `drain_parked_intents`, over the intents in the order the table lists them. */
    method DrainParkedIntents(intents: seq<ControlRequest>, w: Weather)
      requires w.Covers(|intents|)
      modifies this`parked
      ensures parked == AfterSweep(old(parked), intents, w)
    {
      ghost var retire, ends := SweepRetires(w.replies), SweepEnds(w.replies);
      for i := 0 to |intents|
        invariant FirstFlag(ends, 0) == FirstFlag(ends, i)
        invariant parked == old(parked) - Retired(intents, i, retire, w.unparks)
      {
        RetiredNext(intents, i, retire, w.unparks);
        match w.replies[i] {
          case Answered(_) => UnparkIntent(intents[i].opId, w.unparks[i]);
          case Unavailable => return;
          case TooLarge => UnparkIntent(intents[i].opId, w.unparks[i]);
          case TimedOut =>
          case Broken =>
        }
      }
    }
  }
}
