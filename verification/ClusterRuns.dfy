/** Runs of the protocol: that what a front node's methods do is among them, and runs that reach the
    corners of its theorems (crates/rift-cluster-server/src/admin_front.rs,
    crates/rift-cluster-server/src/compose.rs).
 */
module ClusterRuns {
  import opened Text
  import opened Control
  import opened StateMachine
  import opened Dedup
  import opened Revisions
  import opened WritePath
  import opened Cluster
  import opened Mutation
  import Replays

  // ---- the methods of a front node are runs of the protocol ----

  lemma OneMore(c: Cluster, steps: seq<Step>, d: Cluster, step: Step, e: Cluster)
    requires RunFrom(c, steps) == Some(d) && Next(d, step) == Some(e)
    ensures RunFrom(c, steps + [step]) == Some(e)
  {
    assert (steps + [step])[..|steps|] == steps;
  }

  lemma {:induction false} RunAppends(c: Cluster, first: seq<Step>, d: Cluster, second: seq<Step>)
    requires RunFrom(c, first) == Some(d)
    ensures RunFrom(c, first + second) == RunFrom(d, second)
    decreases |second|
  {
    if second == [] {
      assert first + second == first;
    } else {
      var n := |second| - 1;
      RunAppends(c, first, d, second[..n]);
      assert (first + second)[..|first + second| - 1] == first + second[..n];
    }
  }

  /** Where one task of one node stands. */
  ghost predicate At(c: Cluster, n: NodeId, task: TaskId, t: Task, parked: Intents, log: seq<Payload>) {
    && n in c.nodes && task in c.nodes[n].tasks && c.nodes[n].tasks[task] == t
    && c.nodes[n].parked == parked && c.log == log && c.nodes[n].applied <= |log|
  }

  /** The node applies the log up to `k`. */
  lemma {:induction false} ApplySteps(c: Cluster, n: NodeId, k: nat) returns (steps: seq<Step>, d: Cluster)
    requires n in c.nodes && c.nodes[n].applied <= k <= |c.log|
    ensures RunFrom(c, steps) == Some(d) && d == c.(nodes := c.nodes[n := c.nodes[n].(applied := k)])
    decreases k
  {
    if k == c.nodes[n].applied {
      steps, d := [], c;
      assert c.nodes[n := c.nodes[n]] == c.nodes;
    } else {
      var before, b := ApplySteps(c, n, k - 1);
      d := Next(b, AtNode(n, LocalApply)).value;
      OneMore(c, before, b, AtNode(n, LocalApply), d);
      steps := before + [AtNode(n, LocalApply)];
    }
  }

  lemma {:induction false} ParkSteps(c: Cluster, n: NodeId, task: TaskId, requests: seq<ControlRequest>, async: bool, k: nat)
    returns (steps: seq<Step>, d: Cluster)
    requires n in c.nodes && task !in c.nodes[n].tasks && c.nodes[n].applied <= |c.log| && AllAdmitted(requests) && k <= |requests|
    ensures RunFrom(c, steps) == Some(d)
    ensures At(d, n, task, Parking(requests, k, async), Park(c.nodes[n].parked, requests, k), c.log)
    ensures d.nodes[n].applied == c.nodes[n].applied
    ensures forall t :: t != task && t in d.nodes[n].tasks ==> t in c.nodes[n].tasks
    ensures forall m :: m in c.nodes && m != n ==> m in d.nodes && d.nodes[m] == c.nodes[m]
  {
    var step;
    if k == 0 {
      steps, d, step := [], c, AtNode(n, Begin(task, requests, async));
    } else {
      steps, d := ParkSteps(c, n, task, requests, async, k - 1);
      step := AtTask(n, task, ParkNext);
    }
    var e := Next(d, step).value;
    OneMore(c, steps, d, step, e);
    steps, d := steps + [step], e;
  }

  /** The next request of a task is sent and committed at once. */
  lemma SendAndCommit(c: Cluster, n: NodeId, task: TaskId, t: Task) returns (steps: seq<Step>, d: Cluster)
    requires n in c.nodes && task in c.nodes[n].tasks && c.nodes[n].tasks[task] == t && !t.Parking? && HasNext(t)
    requires AdmitsEntrySize(t.requests[t.next])
    ensures RunFrom(c, steps) == Some(d) && d.nodes == c.nodes
    ensures d.log == c.log + [Normal(t.requests[t.next])] && d.accepted == c.accepted
  {
    var send, commit := AtTask(n, task, Send), Commit(t.requests[t.next]);
    var sent := Next(c, send).value;
    OneMore(c, [], c, send, sent);
    d := Next(sent, commit).value;
    OneMore(c, [] + [send], sent, commit, d);
    steps := [] + [send] + [commit];
    assert c.nodes[n := c.nodes[n]] == c.nodes;
  }

  /** And applied by the node that sent it. */
  lemma SendCommitApply(c: Cluster, n: NodeId, task: TaskId, t: Task) returns (steps: seq<Step>, d: Cluster)
    requires n in c.nodes && task in c.nodes[n].tasks && c.nodes[n].tasks[task] == t && !t.Parking? && HasNext(t)
    requires AdmitsEntrySize(t.requests[t.next]) && c.nodes[n].applied <= |c.log|
    ensures RunFrom(c, steps) == Some(d)
    ensures At(d, n, task, t, c.nodes[n].parked, c.log + [Normal(t.requests[t.next])]) && d.accepted == c.accepted
    ensures d.nodes[n] == c.nodes[n].(applied := |d.log|)
  {
    var before, b := SendAndCommit(c, n, task, t);
    var more;
    more, d := ApplySteps(b, n, |b.log|);
    RunAppends(c, before, b, more);
    steps := before + more;
  }

  /** One submit: sent, committed next, applied, answered. */
  lemma SubmitSteps(c: Cluster, n: NodeId, task: TaskId, t: Task, unparked: bool) returns (steps: seq<Step>, d: Cluster)
    requires n in c.nodes && task in c.nodes[n].tasks && c.nodes[n].tasks[task] == t && t.Submitting? && HasNext(t)
    requires AdmitsEntrySize(t.requests[t.next]) && c.nodes[n].applied <= |c.log|
    ensures RunFrom(c, steps) == Some(d)
    ensures var log := c.log + [Normal(t.requests[t.next])];
            && n in d.nodes && d.nodes[n].parked == Unparked(c.nodes[n].parked, t.requests[t.next].opId, unparked)
            && (t.async || !ResponseAt(log, |c.log|).outcome.Failed? ==> At(d, n, task, Advance(t), d.nodes[n].parked, log))
            && d.log == log && d.nodes[n].applied == |log| && d.nodes[n].tasks.Keys <= c.nodes[n].tasks.Keys
  {
    var before, b := SendCommitApply(c, n, task, t);
    var answer := AtTask(n, task, AnswerArrives(|c.log|, unparked));
    assert AppliedSomewhere(b, |c.log|);
    d := Next(b, answer).value;
    OneMore(c, before, b, answer, d);
    steps := before + [answer];
  }

  /** The replies are what the log answers, when nothing else is committed in between. */
  ghost predicate Honest(log: seq<Payload>, requests: seq<ControlRequest>, w: Weather)
    requires w.Covers(|requests|)
  {
    forall i :: 0 <= i < |requests| && w.replies[i].Answered? ==>
      w.replies[i].response == ResponseAt(log + Entries(requests), |log| + i)
  }

  lemma HonestAt(log: seq<Payload>, requests: seq<ControlRequest>, w: Weather, k: nat)
    requires w.Covers(|requests|) && Honest(log, requests, w) && k < |requests| && w.replies[k].Answered?
    ensures log + Entries(requests)[..k + 1] == log + Entries(requests)[..k] + [Normal(requests[k])]
    ensures w.replies[k].response == ResponseAt(log + Entries(requests)[..k + 1], |log| + k)
  {
    var before, rest := log + Entries(requests)[..k + 1], Entries(requests)[k + 1..];
    assert before + rest == log + Entries(requests);
    StateOfPrefix(before, rest, |log| + k);
  }

  /** What a write has left parked after `k` submits. */
  function LeftParked(parked: Intents, requests: seq<ControlRequest>, k: nat, w: Weather): Intents
    requires w.Covers(|requests|) && k <= |requests|
  {
    parked - Retired(requests, k, FrontRetires(w.replies), w.unparks)
  }

  lemma RetireOne(parked: Intents, requests: seq<ControlRequest>, k: nat, w: Weather)
    requires w.Covers(|requests|) && k < |requests|
    ensures LeftParked(parked, requests, k + 1, w) ==
            Unparked(LeftParked(parked, requests, k, w), requests[k].opId, w.replies[k].Answered? && w.unparks[k])
  {
    RetiredNext(requests, k, FrontRetires(w.replies), w.unparks);
  }

  /** The next submit of a parked write, answered. */
  lemma AnsweredOnce(c: Cluster, n: NodeId, task: TaskId, requests: seq<ControlRequest>, k: nat, w: Weather, async: bool,
                     parked: Intents, log: seq<Payload>)
    returns (steps: seq<Step>, d: Cluster)
    requires w.Covers(|requests|) && k < |requests| && AllAdmitted(requests) && Honest(log, requests, w) && w.replies[k].Answered?
    requires At(c, n, task, Submitting(requests, k, async), LeftParked(parked, requests, k, w), log + Entries(requests)[..k])
    ensures RunFrom(c, steps) == Some(d)
    ensures n in d.nodes && d.nodes[n].parked == LeftParked(parked, requests, k + 1, w)
    ensures !EndsFront(w.replies[k], async) ==>
              At(d, n, task, Submitting(requests, k + 1, async), d.nodes[n].parked, log + Entries(requests)[..k + 1])
  {
    steps, d := SubmitSteps(c, n, task, Submitting(requests, k, async), w.unparks[k]);
    HonestAt(log, requests, w, k);
    RetireOne(parked, requests, k, w);
  }

  /** The first `k` answered submits of a parked write. */
  lemma {:induction false} AnsweredSteps(c: Cluster, n: NodeId, task: TaskId, requests: seq<ControlRequest>, k: nat, w: Weather, async: bool)
    returns (steps: seq<Step>, d: Cluster)
    requires w.Covers(|requests|) && k <= |requests| && AllAdmitted(requests)
    requires n in c.nodes && task in c.nodes[n].tasks && c.nodes[n].tasks[task] == Submitting(requests, 0, async)
    requires c.nodes[n].applied <= |c.log| && Honest(c.log, requests, w) && forall i :: 0 <= i < k ==> !EndsFront(w.replies[i], async)
    ensures RunFrom(c, steps) == Some(d)
    ensures At(d, n, task, Submitting(requests, k, async), LeftParked(c.nodes[n].parked, requests, k, w), c.log + Entries(requests)[..k])
  {
    if k == 0 {
      steps, d := [], c;
      assert c.nodes[n].parked - {} == c.nodes[n].parked;
      assert c.log + Entries(requests)[..0] == c.log;
    } else {
      var before, b := AnsweredSteps(c, n, task, requests, k - 1, w, async);
      assert !EndsFront(w.replies[k - 1], async);
      var more;
      more, d := AnsweredOnce(b, n, task, requests, k - 1, w, async, c.nodes[n].parked, c.log);
      RunAppends(c, before, b, more);
      steps := before + more;
    }
  }

  lemma NoEndBefore(replies: seq<Reply>, async: bool)
    ensures forall i :: 0 <= i < FirstFlag(FrontEnds(replies, async), 0) ==> !EndsFront(replies[i], async)
  {
    forall i | 0 <= i < FirstFlag(FrontEnds(replies, async), 0) ensures !EndsFront(replies[i], async) {
      assert !FrontEnds(replies, async)[i];
    }
  }

  lemma LeftParkedAtEnd(parked: Intents, requests: seq<ControlRequest>, w: Weather, async: bool)
    requires w.Covers(|requests|)
    ensures AfterSubmits(parked, requests, w, async) == LeftParked(parked, requests, Submitted(w.replies, async), w)
  {}

  /** The submit loop of a front node is a run of the protocol. */
  lemma SubmitAllIsARun(c: Cluster, n: NodeId, task: TaskId, requests: seq<ControlRequest>, w: Weather, async: bool)
    returns (steps: seq<Step>, d: Cluster)
    requires w.Covers(|requests|) && Honest(c.log, requests, w) && AllAdmitted(requests)
    requires n in c.nodes && task in c.nodes[n].tasks && c.nodes[n].tasks[task] == Submitting(requests, 0, async)
    requires c.nodes[n].applied <= |c.log|
    ensures RunFrom(c, steps) == Some(d)
    ensures n in d.nodes && d.nodes[n].parked == AfterSubmits(c.nodes[n].parked, requests, w, async)
  {
    var stop := FirstFlag(FrontEnds(w.replies, async), 0);
    NoEndBefore(w.replies, async);
    LeftParkedAtEnd(c.nodes[n].parked, requests, w, async);
    steps, d := AnsweredSteps(c, n, task, requests, stop, w, async);
    if stop < |requests| {
      if w.replies[stop].Answered? {
        var more, e := AnsweredOnce(d, n, task, requests, stop, w, async, c.nodes[n].parked, c.log);
        RunAppends(c, steps, d, more);
        steps, d := steps + more, e;
      } else {
        RetireOne(c.nodes[n].parked, requests, stop, w);
        var e := Next(d, AtTask(n, task, SubmitFails)).value;
        OneMore(c, steps, d, AtTask(n, task, SubmitFails), e);
        steps, d := steps + [AtTask(n, task, SubmitFails)], e;
      }
    }
  }

  /** So is a whole write: whatever `RunRequests` leaves parked, some run of the protocol leaves,
      and every theorem above holds of it. */
  lemma FrontWriteIsARun(c: Cluster, n: NodeId, task: TaskId, requests: seq<ControlRequest>, async: bool, base: OpId, w: Weather)
    returns (steps: seq<Step>, d: Cluster)
    requires w.Covers(|requests|) && Honest(c.log, requests, w) && AllAdmitted(requests)
    requires n in c.nodes && task !in c.nodes[n].tasks && c.nodes[n].applied <= |c.log|
    ensures RunFrom(c, steps) == Some(d)
    ensures n in d.nodes && d.nodes[n].parked == RunRequests(c.nodes[n].parked, requests, async, base, w).0
    ensures RunRequests(c.nodes[n].parked, requests, async, base, w).1 != CannotPark ==> IdsOf(n, requests) <= d.accepted
  {
    var failed := FirstFlag(Not(w.parks), 0);
    steps, d := ParkSteps(c, n, task, requests, async, failed);
    if failed == |requests| {
      var e := Next(d, AtTask(n, task, Accept)).value;
      OneMore(c, steps, d, AtTask(n, task, Accept), e);
      steps, d := steps + [AtTask(n, task, Accept)], e;
      if !async {
        var more;
        more, d := SubmitAllIsARun(e, n, task, requests, w, async);
        RunAppends(c, steps, e, more);
        AcceptedStays(e, more);
        steps := steps + more;
      }
    }
  }

  lemma {:induction false} AcceptedStays(c: Cluster, steps: seq<Step>)
    requires RunFrom(c, steps).Some?
    ensures c.accepted <= RunFrom(c, steps).value.accepted
  {
    if steps != [] { AcceptedStays(c, steps[..|steps| - 1]); }
  }

  // ---- a sweep is a run ----

  /** A submit refuses an entry as too large exactly when it is, before anything is sent. */
  ghost predicate HonestSizes(intents: seq<ControlRequest>, w: Weather)
    requires w.Covers(|intents|)
  {
    forall i :: 0 <= i < |intents| ==> (w.replies[i].TooLarge? <==> !AdmitsEntrySize(intents[i]))
  }

  function SweptParked(parked: Intents, intents: seq<ControlRequest>, k: nat, w: Weather): Intents
    requires w.Covers(|intents|) && k <= |intents|
  {
    parked - Retired(intents, k, SweepRetires(w.replies), w.unparks)
  }

  lemma SweptOneMore(parked: Intents, intents: seq<ControlRequest>, k: nat, w: Weather)
    requires w.Covers(|intents|) && k < |intents|
    ensures SweptParked(parked, intents, k + 1, w) ==
            Unparked(SweptParked(parked, intents, k, w), intents[k].opId, SweepRetires(w.replies)[k] && w.unparks[k])
  {
    RetiredNext(intents, k, SweepRetires(w.replies), w.unparks);
  }

  ghost predicate Sweeps(c: Cluster, n: NodeId, task: TaskId, intents: seq<ControlRequest>, k: nat, parked: Intents) {
    SweepAt(c, n, task, intents, k) && c.nodes[n].parked == parked && c.nodes[n].applied <= |c.log|
  }

  lemma AnsweredSweep(c: Cluster, n: NodeId, task: TaskId, intents: seq<ControlRequest>, k: nat, unparked: bool) returns (steps: seq<Step>, d: Cluster)
    requires SweepAt(c, n, task, intents, k) && k < |intents| && AdmitsEntrySize(intents[k]) && c.nodes[n].applied <= |c.log|
    ensures RunFrom(c, steps) == Some(d)
    ensures Sweeps(d, n, task, intents, k + 1, Unparked(c.nodes[n].parked, intents[k].opId, unparked))
    ensures d.log == c.log + [Normal(intents[k])] && d.accepted == c.accepted
  {
    var before, b := SendCommitApply(c, n, task, Sweeping(intents, k));
    var answer := AtTask(n, task, SweepAnswer(|c.log|, unparked));
    assert AppliedSomewhere(b, |c.log|);
    d := Next(b, answer).value;
    OneMore(c, before, b, answer, d);
    steps := before + [answer];
  }

  /** One intent of a sweep that does not end there. */
  lemma SweepOne(c: Cluster, n: NodeId, task: TaskId, intents: seq<ControlRequest>, k: nat, w: Weather, parked: Intents) returns (steps: seq<Step>, d: Cluster)
    requires w.Covers(|intents|) && k < |intents| && HonestSizes(intents, w) && !w.replies[k].Unavailable?
    requires Sweeps(c, n, task, intents, k, SweptParked(parked, intents, k, w))
    ensures RunFrom(c, steps) == Some(d) && Sweeps(d, n, task, intents, k + 1, SweptParked(parked, intents, k + 1, w))
  {
    SweptOneMore(parked, intents, k, w);
    assert w.replies[k].TooLarge? <==> !AdmitsEntrySize(intents[k]);
    if w.replies[k].Answered? {
      steps, d := AnsweredSweep(c, n, task, intents, k, w.unparks[k]);
    } else {
      var step := AtTask(n, task, if w.replies[k].TooLarge? then SweepTooLarge(w.unparks[k]) else SweepSkips);
      d := Next(c, step).value;
      OneMore(c, [], c, step, d);
      steps := [] + [step];
    }
  }

  lemma {:induction false} SweepMany(c: Cluster, n: NodeId, task: TaskId, intents: seq<ControlRequest>, k: nat, w: Weather) returns (steps: seq<Step>, d: Cluster)
    requires w.Covers(|intents|) && k <= |intents| && HonestSizes(intents, w) && SweepAt(c, n, task, intents, 0)
    requires c.nodes[n].applied <= |c.log|
    requires forall i :: 0 <= i < k ==> !w.replies[i].Unavailable?
    ensures RunFrom(c, steps) == Some(d) && Sweeps(d, n, task, intents, k, SweptParked(c.nodes[n].parked, intents, k, w))
  {
    if k == 0 {
      steps, d := [], c;
      assert c.nodes[n].parked - {} == c.nodes[n].parked;
    } else {
      var before, b := SweepMany(c, n, task, intents, k - 1, w);
      var more;
      more, d := SweepOne(b, n, task, intents, k - 1, w, c.nodes[n].parked);
      RunAppends(c, before, b, more);
      steps := before + more;
    }
  }

  /** The sweep of a front node is a run of the protocol, however its submits turn out. */
  lemma SweepIsARun(c: Cluster, n: NodeId, task: TaskId, intents: seq<ControlRequest>, w: Weather) returns (steps: seq<Step>, d: Cluster)
    requires w.Covers(|intents|) && HonestSizes(intents, w)
    requires n in c.nodes && task !in c.nodes[n].tasks && c.nodes[n].applied <= |c.log| && AreParked(intents, c.nodes[n].parked)
    ensures RunFrom(c, steps) == Some(d)
    ensures n in d.nodes && d.nodes[n].parked == AfterSweep(c.nodes[n].parked, intents, w)
  {
    var stop := FirstFlag(SweepEnds(w.replies), 0);
    forall i | 0 <= i < stop ensures !w.replies[i].Unavailable? { assert !SweepEnds(w.replies)[i]; }
    var start := AtNode(n, StartSweep(task, intents));
    var b := Next(c, start).value;
    OneMore(c, [], c, start, b);
    var more;
    more, d := SweepMany(b, n, task, intents, stop, w);
    RunAppends(c, [] + [start], b, more);
    steps := [] + [start] + more;
    var e := Next(d, AtTask(n, task, SweepGivesUp)).value;
    OneMore(c, steps, d, AtTask(n, task, SweepGivesUp), e);
    steps, d := steps + [AtTask(n, task, SweepGivesUp)], e;
  }

  /** A drain that finishes exists: from any state, over any table whose intents all fit. */
  lemma DrainCanFinish(c: Cluster, n: NodeId, task: TaskId, intents: seq<ControlRequest>) returns (steps: seq<Step>, d: Cluster)
    requires n in c.nodes && task !in c.nodes[n].tasks && c.nodes[n].applied <= |c.log|
    requires Lists(intents, c.nodes[n].parked) && AllAdmitted(intents)
    ensures RunFrom(c, steps) == Some(d) && n in d.nodes && d.nodes[n].parked == map[]
  {
    var k := |intents|;
    var answered := Answered(ControlResponse(0, Applied));
    var w := Weather(seq(k, _ => true), seq(k, _ => answered), seq(k, _ => true));
    steps, d := SweepIsARun(c, n, task, intents, w);
    SweepEmptiesIff(c.nodes[n].parked, intents, w);
  }

  // ---- corners ----

  /** A fleet of these members that has done nothing yet. */
  function New(members: set<NodeId>): Cluster { Started(NothingLeft(members), []) }

  lemma NewNodes(members: set<NodeId>)
    ensures Filed(NothingLeft(members)) && New(members).nodes.Keys == members
    ensures forall n :: n in members ==> New(members).nodes[n] == Node(map[], map[], 0)
  {}

  /** One write taken on by a node, all its ops parked and none submitted. */
  lemma TakenOn(c: Cluster, n: NodeId, task: TaskId, request: ControlRequest) returns (steps: seq<Step>, d: Cluster)
    requires n in c.nodes && task !in c.nodes[n].tasks && AdmitsEntrySize(request) && c.nodes[n].applied <= |c.log|
    ensures RunFrom(c, steps) == Some(d)
    ensures At(d, n, task, Submitting([request], 0, false), c.nodes[n].parked[request.opId := request], c.log)
    ensures d.nodes[n].applied == c.nodes[n].applied && (n, request.opId) in d.accepted
    ensures forall t :: t != task && t in d.nodes[n].tasks ==> t in c.nodes[n].tasks
    ensures forall m :: m in c.nodes && m != n ==> m in d.nodes && d.nodes[m] == c.nodes[m]
  {
    var before, b := ParkSteps(c, n, task, [request], false, 1);
    assert Park(c.nodes[n].parked, [request], 0) == c.nodes[n].parked;
    d := Next(b, AtTask(n, task, Accept)).value;
    OneMore(c, before, b, AtTask(n, task, Accept), d);
    steps := before + [AtTask(n, task, Accept)];
    assert (n, [request][0].opId) in IdsOf(n, [request]);
  }

  /** The same write committed, and its answer on the way. */
  lemma TakenOnAndCommitted(members: set<NodeId>, n: NodeId, request: ControlRequest) returns (steps: seq<Step>, d: Cluster)
    requires n in members && AdmitsEntrySize(request)
    ensures Reachable(NothingLeft(members), [], steps, d)
    ensures At(d, n, 0, Submitting([request], 0, false), map[request.opId := request], [Normal(request)])
    ensures (n, request.opId) in d.accepted && d.nodes.Keys == members && forall m :: m in members ==> d.nodes[m].applied == 0
  {
    NewNodes(members);
    var before, b := TakenOn(New(members), n, 0, request);
    var more;
    more, d := SendAndCommit(b, n, 0, Submitting([request], 0, false));
    RunAppends(New(members), before, b, more);
    steps := before + more;
    assert [] + [Normal(request)] == [Normal(request)];
    RunKeepsMembers(New(members), steps);
  }

  lemma {:induction false} RunKeepsMembers(c: Cluster, steps: seq<Step>)
    requires RunFrom(c, steps).Some?
    ensures RunFrom(c, steps).value.nodes.Keys == c.nodes.Keys
  {
    if steps != [] { RunKeepsMembers(c, steps[..|steps| - 1]); }
  }

  /** An accepted op can be a 404 on the node that accepted it: committed, applied by another node,
      answered and unparked, and not applied here yet.  Neither unknown nor lapsed. */
  lemma AcceptedOpCanBeUnknown(n: NodeId, leader: NodeId, request: ControlRequest) returns (steps: seq<Step>, c: Cluster, d: Cluster)
    requires AdmitsEntrySize(request) && n != leader
    ensures Reachable(NothingLeft({n, leader}), [], steps, c) && leader in c.nodes && c.nodes[leader].applied == |c.log|
    ensures Next(c, AtTask(n, 0, AnswerArrives(0, true))) == Some(d)
    ensures n in d.nodes && (n, request.opId) in d.accepted && d.nodes[n].applied <= |d.log| && Recorded(d.log, request.opId)
    ensures OpStatus(StateAt(d.log, d.nodes[n].applied), d.nodes[n].parked, request.opId).None?
  {
    var before, b := TakenOnAndCommitted({n, leader}, n, request);
    var applies := AtNode(leader, LocalApply);
    c := Next(b, applies).value;
    OneMore(New({n, leader}), before, b, applies, c);
    steps := before + [applies];
    assert 0 < c.nodes[leader].applied;
    d := Next(c, AtTask(n, 0, AnswerArrives(0, true))).value;
    assert UsesId(d.log[0], request.opId);
    assert StateAt(d.log, 0) == INITIAL;
  }

  /** And between the two reads: the record is read before the node applies the op, the parked table
      after the answer has unparked it.  The answer is 404 for an op applied here with a live record. */
  lemma TwoReadsCanMissALiveRecord(n: NodeId, request: ControlRequest) returns (steps: seq<Step>, c: Cluster, more: seq<Step>, d: Cluster)
    requires AdmitsEntrySize(request) && request.issuedAt < U64_MAX
    ensures Reachable(NothingLeft({n}), [], steps, c) && RunFrom(c, more) == Some(d) && n in c.nodes && n in d.nodes
    ensures c.nodes[n].applied <= |c.log| && d.nodes[n].applied <= |d.log|
    ensures OpStatus(StateAt(c.log, c.nodes[n].applied), d.nodes[n].parked, request.opId).None?
    ensures var s := StateAt(d.log, d.nodes[n].applied); Live(s.dedup, request.opId, s.clock).Some?
  {
    steps, c := TakenOnAndCommitted({n}, n, request);
    var applies, answer := AtNode(n, LocalApply), AtTask(n, 0, AnswerArrives(0, true));
    var b := Next(c, applies).value;
    OneMore(c, [], c, applies, b);
    assert 0 < b.nodes[n].applied;
    d := Next(b, answer).value;
    OneMore(c, [] + [applies], b, answer, d);
    more := [] + [applies] + [answer];
    assert StateAt(c.log, 0) == INITIAL;
    FirstUseRuns(d.log, 0);
    RanStep(d.log, 0);
    StateStep(d.log, 0);
  }

  // ---- an upgrade ----

  /** A run that leaves the op neither parked on the node nor terminal. */
  ghost predicate Loses(left: Inherited, log: seq<Payload>, n: NodeId, id: OpId, steps: seq<Step>, c: Cluster) {
    Reachable(left, log, steps, c) && n in c.nodes && id !in c.nodes[n].parked && !Recorded(c.log, id)
  }

  /** The next sweep drops an inherited intent that is too large. */
  lemma InheritedIsDropped(left: Inherited, log: seq<Payload>, n: NodeId, id: OpId) returns (steps: seq<Step>, d: Cluster)
    requires Filed(left) && n in left && Unsendable(left[n], id) && !Recorded(log, id)
    ensures Loses(left, log, n, id, steps, d)
  {
    var request, b := left[n][id], Started(left, log);
    var start, drop := AtNode(n, StartSweep(0, [request])), AtTask(n, 0, SweepTooLarge(true));
    var c := Next(b, start).value;
    OneMore(b, [], b, start, c);
    d := Next(c, drop).value;
    OneMore(b, [] + [start], c, drop, d);
    steps := [] + [start] + [drop];
  }

  /** Over an upgrade an inherited op can be lost if and only if its request is too large to
      replicate. */
  lemma InheritedCanBeLostIff(left: Inherited, log: seq<Payload>, n: NodeId, id: OpId)
    requires Filed(left) && n in left && id in left[n] && !Recorded(log, id)
    ensures (exists steps, c :: Loses(left, log, n, id, steps, c)) <==> !AdmitsEntrySize(left[n][id])
  {
    if !AdmitsEntrySize(left[n][id]) {
      var steps, c := InheritedIsDropped(left, log, n, id);
    } else {
      forall steps, c | Reachable(left, log, steps, c) ensures !Loses(left, log, n, id, steps, c) {
        assert (n, id) in Started(left, log).accepted;
        AcceptedStays(Started(left, log), steps);
        UpgradeKeepsAccepted(left, log, steps, c, n, id);
      }
    }
  }

  // ---- a later write overwritten ----

  /** A put of the port, valid and unconditional. */
  ghost predicate PutsPort(request: ControlRequest, port: Port) {
    Replays.Plain(request) && request.op.PutImposter? && request.op.config.port == Some(port) && AdmitsEntrySize(request)
  }

  /** Under a changed body a replay undoes a later write: a put whose client was told it timed out
      stays parked, a second put of the same port is committed and answered, and the replay of the
      first then leaves the first's config. */
  lemma ReplayCanUndoALaterWrite(n: NodeId, port: Port, first: ControlRequest, second: ControlRequest)
    returns (gaveUp: seq<Step>, b: Cluster, later: seq<Step>, c: Cluster, replay: seq<Step>, d: Cluster)
    requires PutsPort(first, port) && PutsPort(second, port) && first.opId != second.opId
    ensures Reachable(NothingLeft({n}), [], gaveUp, b) && RunFrom(b, later) == Some(c) && RunFrom(c, replay) == Some(d)
    ensures n in b.nodes && n in c.nodes && n in d.nodes
    ensures b.nodes[n].parked == map[first.opId := first] && b.nodes[n].tasks == map[] && b.log == []
    ensures c.log == [Normal(second)] && second.opId !in c.nodes[n].parked && Replays.ConfigAt(c.log, 1, port) == Some(second.op.config)
    ensures d.log == [Normal(second), Normal(first)] && Replays.ConfigAt(d.log, 2, port) == Some(first.op.config)
  {
    gaveUp, b := TimedOutWrite(n, first);
    later, c := LaterWrite(b, n, first, second);
    replay, d := ReplayOfOne(c, n, first);
    assert [Normal(second)] + [Normal(first)] == [Normal(second), Normal(first)];
    FirstUseRuns(c.log, 0);
    Replays.RunLeaves(c.log, 0, port);
    FirstUseRuns(d.log, 1);
    Replays.RunLeaves(d.log, 1, port);
  }

  lemma TimedOutWrite(n: NodeId, first: ControlRequest) returns (steps: seq<Step>, d: Cluster)
    requires AdmitsEntrySize(first)
    ensures Reachable(NothingLeft({n}), [], steps, d) && n in d.nodes
    ensures d.nodes[n] == Node(map[first.opId := first], map[], 0) && d.log == []
  {
    NewNodes({n});
    var before, c := TakenOn(New({n}), n, 0, first);
    d := Next(c, AtTask(n, 0, SubmitFails)).value;
    OneMore(New({n}), before, c, AtTask(n, 0, SubmitFails), d);
    steps := before + [AtTask(n, 0, SubmitFails)];
    assert d.nodes[n].tasks.Keys == {};
  }

  lemma LaterWrite(b: Cluster, n: NodeId, first: ControlRequest, second: ControlRequest) returns (steps: seq<Step>, d: Cluster)
    requires n in b.nodes && b.nodes[n] == Node(map[first.opId := first], map[], 0) && b.log == []
    requires AdmitsEntrySize(second) && first.opId != second.opId
    ensures RunFrom(b, steps) == Some(d) && n in d.nodes && d.nodes[n].applied <= |d.log|
    ensures d.nodes[n].parked == map[first.opId := first] && d.log == [Normal(second)] && 2 !in d.nodes[n].tasks
  {
    var before, c := TakenOn(b, n, 1, second);
    var more;
    more, d := SubmitSteps(c, n, 1, Submitting([second], 0, false), true);
    RunAppends(b, before, c, more);
    steps := before + more;
    assert [] + [Normal(second)] == [Normal(second)];
    assert map[first.opId := first][second.opId := second] - {second.opId} == map[first.opId := first];
  }

  lemma ReplayOfOne(c: Cluster, n: NodeId, first: ControlRequest) returns (steps: seq<Step>, d: Cluster)
    requires n in c.nodes && c.nodes[n].parked == map[first.opId := first] && 2 !in c.nodes[n].tasks && AdmitsEntrySize(first)
    requires c.nodes[n].applied <= |c.log|
    ensures RunFrom(c, steps) == Some(d) && n in d.nodes && d.log == c.log + [Normal(first)]
  {
    var start := AtNode(n, StartSweep(2, [first]));
    var b := Next(c, start).value;
    OneMore(c, [], c, start, b);
    var more;
    more, d := AnsweredSweep(b, n, 2, [first], 0, true);
    RunAppends(c, [] + [start], b, more);
    steps := [] + [start] + more;
  }
}
