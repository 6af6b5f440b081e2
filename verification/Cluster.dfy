/** The write path as a protocol: many nodes, one log.

    Each node runs any number of front writes and replay sweeps at once, over its own durable
    parked table and its own lagging view of the log.  A submitted request may be proposed any
    number of times, before or after its sender stops waiting; it is answered once some node has
    applied it.  A crash loses the tasks and keeps the table.  A run may start from tables and a log
    that an older binary left.  The steps are those of `run_mutation`, `drain_parked_intents` and their
    environment (crates/rift-cluster-server/src/admin_front.rs,
    crates/rift-cluster-server/src/compose.rs).
 */
module Cluster {
  import opened Text
  import opened Control
  import opened StateMachine
  import opened Dedup
  import opened Revisions
  import opened WritePath

  type NodeId = nat
  type TaskId = nat

  datatype Task =
    | Parking(requests: seq<ControlRequest>, next: nat, async: bool)
    | Submitting(requests: seq<ControlRequest>, next: nat, async: bool)
    | Sweeping(requests: seq<ControlRequest>, next: nat)

  datatype Node = Node(parked: Intents, tasks: map<TaskId, Task>, applied: nat)

  /** `wire` holds every request ever submitted; `accepted` remembers which node took on which op. */
  datatype Cluster = Cluster(
    nodes: map<NodeId, Node>,
    wire: set<ControlRequest>,
    log: seq<Payload>,
    accepted: set<(NodeId, OpId)>)

  datatype TaskAction =
    | ParkNext
    | ParkFails
    | Accept
    | Send
    | AnswerArrives(at: nat, unparked: bool)
    | SubmitFails
    | SweepAnswer(at: nat, unparked: bool)
    | SweepTooLarge(unparked: bool)
    | SweepSkips
    | SweepGivesUp

  /** `Begin` is the front's write, which sizes every op before it parks any.  `BeginUnsized` is the
      stub half of a space teardown, or a new session key: one op, small by its shape. */
  datatype NodeAction =
    | Begin(task: TaskId, requests: seq<ControlRequest>, async: bool)
    | BeginUnsized(task: TaskId, request: ControlRequest)
    | StartSweep(task: TaskId, intents: seq<ControlRequest>)
    | Crash
    | LocalApply

  datatype Step =
    | Commit(request: ControlRequest)
    | OtherCommit(entry: Payload)
    | AtNode(node: NodeId, act: NodeAction)
    | AtTask(node: NodeId, task: TaskId, action: TaskAction)

  // ---- the steps, one node at a time ----

  function Advance(task: Task): Task { task.(next := task.next + 1) }

  function Unparked(parked: Intents, id: OpId, ok: bool): Intents {
    if ok then parked - {id} else parked
  }

  predicate HasNext(task: Task) { task.next < |task.requests| }

  /** A front or a sweep hears back: entry `at` is the request it waits for. */
  predicate Answers(log: seq<Payload>, at: nat, task: Task) {
    HasNext(task) && at < |log| && log[at] == Normal(task.requests[task.next])
  }

  /** What a step that concerns one task of one node does there; `None` when it is not enabled.
      `failed` says whether the arriving answer is a refusal. */
  function TaskStep(node: Node, task: TaskId, action: TaskAction, log: seq<Payload>, failed: bool): Option<Node>
    requires task in node.tasks
  {
    var t := node.tasks[task];
    match action
    case ParkNext =>
      if t.Parking? && HasNext(t) then
        var request := t.requests[t.next];
        Some(node.(parked := node.parked[request.opId := request], tasks := node.tasks[task := Advance(t)]))
      else None
    case ParkFails =>
      if t.Parking? && HasNext(t) then Some(node.(tasks := node.tasks - {task})) else None
    case Accept =>
      if t.Parking? && !HasNext(t) then Some(node.(tasks := node.tasks[task := Submitting(t.requests, 0, t.async)])) else None
    case Send =>
      if !t.Parking? && HasNext(t) && AdmitsEntrySize(t.requests[t.next]) then Some(node) else None
    case AnswerArrives(at, unparked) =>
      if t.Submitting? && Answers(log, at, t) then
        var parked := Unparked(node.parked, t.requests[t.next].opId, unparked);
        if !t.async && failed then Some(node.(parked := parked, tasks := node.tasks - {task}))
        else Some(node.(parked := parked, tasks := node.tasks[task := Advance(t)]))
      else None
    case SubmitFails =>
      if t.Submitting? then Some(node.(tasks := node.tasks - {task})) else None
    case SweepAnswer(at, unparked) =>
      if t.Sweeping? && Answers(log, at, t) then
        Some(node.(parked := Unparked(node.parked, t.requests[t.next].opId, unparked), tasks := node.tasks[task := Advance(t)]))
      else None
    case SweepTooLarge(unparked) =>
      if t.Sweeping? && HasNext(t) && !AdmitsEntrySize(t.requests[t.next]) then
        Some(node.(parked := Unparked(node.parked, t.requests[t.next].opId, unparked), tasks := node.tasks[task := Advance(t)]))
      else None
    case SweepSkips =>
      if t.Sweeping? && HasNext(t) then Some(node.(tasks := node.tasks[task := Advance(t)])) else None
    case SweepGivesUp =>
      if t.Sweeping? then Some(node.(tasks := node.tasks - {task})) else None
  }

  /** The response entry `at` of the log was given. */
  ghost function AnswerAt(log: seq<Payload>, at: nat): Option<ControlResponse> {
    if at < |log| then Some(ResponseAt(log, at)) else None
  }

  ghost predicate IsRefusal(log: seq<Payload>, action: TaskAction) {
    action.AnswerArrives? && AnswerAt(log, action.at).Some? && AnswerAt(log, action.at).value.outcome.Failed?
  }

  function IdsOf(node: NodeId, requests: seq<ControlRequest>): set<(NodeId, OpId)> {
    set i | 0 <= i < |requests| :: (node, requests[i].opId)
  }

  // A request line's path is bounded by the HTTP library, and JSON spends at most six bytes on a
  // character; the rest of an envelope is a few short fields.
  const MAX_PATH_BYTES: nat := 65534
  const ENVELOPE_BYTES: nat := 1024

  /** What the two parkers that do not size an op can mint: the delete of one space's stubs, the space
      being a path segment, or a valid session key. */
  predicate SmallByShape(request: ControlRequest) {
    match request.op
    case PatchStubs(_, script) =>
      && |script| == 1 && script[0].DeleteBySpace? && |script[0].space| <= MAX_PATH_BYTES
      && request.size <= ENVELOPE_BYTES + 6 * |script[0].space|
    case SessionKeyPut(key) => Validate(request.op).Ok? && request.size <= ENVELOPE_BYTES + |key|
    case _ => false
  }

  lemma SmallIsAdmitted(request: ControlRequest)
    requires SmallByShape(request)
    ensures AdmitsEntrySize(request)
  {}

  /** The steps that change a node without a running task. */
  function NodeStep(node: Node, act: NodeAction, log: seq<Payload>): Option<Node> {
    match act
    case Begin(task, requests, async) =>
      if task !in node.tasks && AllAdmitted(requests) then Some(node.(tasks := node.tasks[task := Parking(requests, 0, async)])) else None
    case BeginUnsized(task, request) =>
      if task !in node.tasks && SmallByShape(request) then Some(node.(tasks := node.tasks[task := Parking([request], 0, false)])) else None
    case StartSweep(task, intents) =>
      if task !in node.tasks && AreParked(intents, node.parked) then Some(node.(tasks := node.tasks[task := Sweeping(intents, 0)])) else None
    case Crash => Some(node.(tasks := map[]))
    case LocalApply => if node.applied < |log| then Some(node.(applied := node.applied + 1)) else None
  }

  /** Some node has applied the entry: a submit is answered from the leader's apply. */
  ghost predicate AppliedSomewhere(c: Cluster, at: nat) {
    exists m :: m in c.nodes && at < c.nodes[m].applied
  }

  ghost predicate Heard(c: Cluster, action: TaskAction) {
    action.AnswerArrives? || action.SweepAnswer? ==> AppliedSomewhere(c, action.at)
  }

  ghost function Next(c: Cluster, step: Step): Option<Cluster> {
    match step
    case Commit(request) => if request in c.wire then Some(c.(log := c.log + [Normal(request)])) else None
    case OtherCommit(entry) => Some(c.(log := c.log + [entry]))
    case AtNode(n, act) =>
      if n !in c.nodes then None
      else
        var after :- NodeStep(c.nodes[n], act, c.log);
        Some(c.(nodes := c.nodes[n := after]))
    case AtTask(n, task, action) =>
      if n !in c.nodes || task !in c.nodes[n].tasks || !Heard(c, action) then None
      else
        var t := c.nodes[n].tasks[task];
        var after :- TaskStep(c.nodes[n], task, action, c.log, IsRefusal(c.log, action));
        Some(c.(nodes := c.nodes[n := after],
                wire := if action.Send? then c.wire + {t.requests[t.next]} else c.wire,
                accepted := if action.Accept? then c.accepted + IdsOf(n, t.requests) else c.accepted))
  }

  /** A run: the state after the steps, if each was enabled in turn. */
  ghost function RunFrom(c: Cluster, steps: seq<Step>): Option<Cluster> {
    if steps == [] then Some(c)
    else
      var before :- RunFrom(c, steps[..|steps| - 1]);
      Next(before, steps[|steps| - 1])
  }

  /** The parked tables an older binary left, by node. */
  type Inherited = map<NodeId, Intents>

  predicate Filed(left: Inherited) {
    forall n, id :: n in left && id in left[n] ==> left[n][id].opId == id
  }

  /** A fleet that starts over what was left: a log, and tables of ops accepted before. */
  function Started(left: Inherited, log: seq<Payload>): Cluster {
    Cluster(map n | n in left :: Node(left[n], map[], 0), {}, log, set n, id | n in left && id in left[n] :: (n, id))
  }

  /** A fleet that has done nothing yet inherits nothing. */
  function NothingLeft(members: set<NodeId>): Inherited {
    map n | n in members :: map[]
  }

  // ---- what every step keeps ----

  /** The table held the op before the run began, in a request too large to replicate. */
  predicate Unsendable(left: Intents, id: OpId) {
    id in left && !AdmitsEntrySize(left[id])
  }

  /** The op is parked on the node, or terminal, or was inherited too large. */
  ghost predicate Safe(node: Node, log: seq<Payload>, left: Intents, id: OpId) {
    id in node.parked || Recorded(log, id) || Unsendable(left, id)
  }

  /** The request fits, or is one the node inherited. */
  ghost predicate Fits(request: ControlRequest, left: Intents) {
    AdmitsEntrySize(request) || (request.opId in left && left[request.opId] == request)
  }

  ghost predicate TaskSound(node: Node, log: seq<Payload>, left: Intents, task: Task) {
    && task.next <= |task.requests|
    && (forall i :: 0 <= i < |task.requests| ==> Fits(task.requests[i], left))
    && (task.Parking? ==> forall i :: 0 <= i < task.next ==> Safe(node, log, left, task.requests[i].opId))
  }

  ghost predicate NodeSound(node: Node, log: seq<Payload>, left: Intents) {
    && node.applied <= |log|
    && (forall id :: id in node.parked ==> node.parked[id].opId == id && Fits(node.parked[id], left))
    && (forall t :: t in node.tasks ==> TaskSound(node, log, left, node.tasks[t]))
  }

  ghost predicate Sound(c: Cluster, left: Inherited) {
    && c.nodes.Keys == left.Keys
    && (forall n :: n in c.nodes ==> NodeSound(c.nodes[n], c.log, left[n]))
    && (forall a :: a in c.accepted ==> a.0 in c.nodes && Safe(c.nodes[a.0], c.log, left[a.0], a.1))
  }

  /** Every op that was safe on the node still is. */
  ghost predicate StaysSafe(before: Node, after: Node, log: seq<Payload>, left: Intents) {
    forall id :: Safe(before, log, left, id) ==> Safe(after, log, left, id)
  }

  lemma SoundAtNode(c: Cluster, left: Inherited, n: NodeId, after: Node, wire: set<ControlRequest>, accepted: set<(NodeId, OpId)>)
    requires Sound(c, left) && n in c.nodes
    requires NodeSound(after, c.log, left[n]) && StaysSafe(c.nodes[n], after, c.log, left[n])
    requires forall a :: a in accepted ==> a in c.accepted || (a.0 == n && Safe(after, c.log, left[n], a.1))
    ensures Sound(c.(nodes := c.nodes[n := after], wire := wire, accepted := accepted), left)
  {}

  /** A change to one task that leaves the node sound. */
  lemma SoundWithTask(node: Node, after: Node, log: seq<Payload>, left: Intents, task: TaskId)
    requires NodeSound(node, log, left) && StaysSafe(node, after, log, left) && after.applied <= |log|
    requires forall id :: id in after.parked ==> after.parked[id].opId == id && Fits(after.parked[id], left)
    requires forall t :: t in after.tasks && t != task ==> t in node.tasks && after.tasks[t] == node.tasks[t]
    requires task in after.tasks ==> TaskSound(after, log, left, after.tasks[task])
    ensures NodeSound(after, log, left)
  {
    forall t | t in after.tasks ensures TaskSound(after, log, left, after.tasks[t]) {
      if t != task { assert TaskSound(node, log, left, node.tasks[t]); }
    }
  }

  lemma AnsweredIsRecorded(log: seq<Payload>, at: nat, task: Task)
    requires Answers(log, at, task)
    ensures Recorded(log, task.requests[task.next].opId)
  {
    assert UsesId(log[at], task.requests[task.next].opId);
  }

  lemma TaskStepKeeps(node: Node, task: TaskId, action: TaskAction, log: seq<Payload>, left: Intents, failed: bool)
    requires NodeSound(node, log, left) && task in node.tasks && TaskStep(node, task, action, log, failed).Some?
    ensures var after := TaskStep(node, task, action, log, failed).value;
            NodeSound(after, log, left) && StaysSafe(node, after, log, left)
  {
    var t, after := node.tasks[task], TaskStep(node, task, action, log, failed).value;
    assert TaskSound(node, log, left, t);
    if action.AnswerArrives? || action.SweepAnswer? { AnsweredIsRecorded(log, action.at, t); }
    if HasNext(t) { assert Fits(t.requests[t.next], left); }
    assert StaysSafe(node, after, log, left);
    SoundWithTask(node, after, log, left, task);
  }

  lemma NodeStepKeeps(node: Node, act: NodeAction, log: seq<Payload>, left: Intents)
    requires NodeSound(node, log, left) && NodeStep(node, act, log).Some?
    ensures var after := NodeStep(node, act, log).value;
            NodeSound(after, log, left) && StaysSafe(node, after, log, left)
  {
    var after := NodeStep(node, act, log).value;
    assert after.parked == node.parked;
    if act.BeginUnsized? { SmallIsAdmitted(act.request); }
    SoundWithTask(node, after, log, left, if act.Crash? || act.LocalApply? then 0 else act.task);
  }

  lemma NodeStaysSound(node: Node, log: seq<Payload>, more: seq<Payload>, left: Intents)
    requires NodeSound(node, log, left)
    ensures NodeSound(node, log + more, left)
  {
    forall id | Safe(node, log, left, id) ensures Safe(node, log + more, left, id) {
      if Recorded(log, id) { RecordedStays(log, more, id); }
    }
    forall t | t in node.tasks ensures TaskSound(node, log + more, left, node.tasks[t]) {
      assert TaskSound(node, log, left, node.tasks[t]);
    }
  }

  lemma LongerLogKeepsSound(c: Cluster, left: Inherited, more: seq<Payload>)
    requires Sound(c, left)
    ensures Sound(c.(log := c.log + more), left)
  {
    forall n | n in c.nodes ensures NodeSound(c.nodes[n], c.log + more, left[n]) {
      NodeStaysSound(c.nodes[n], c.log, more, left[n]);
    }
    forall a | a in c.accepted ensures a.0 in c.nodes && Safe(c.nodes[a.0], c.log + more, left[a.0], a.1) {
      assert Safe(c.nodes[a.0], c.log, left[a.0], a.1);
      if Recorded(c.log, a.1) { RecordedStays(c.log, more, a.1); }
    }
  }

  lemma StepKeepsSound(c: Cluster, left: Inherited, step: Step)
    requires Sound(c, left) && Next(c, step).Some?
    ensures Sound(Next(c, step).value, left)
  {
    match step
    case Commit(request) => LongerLogKeepsSound(c, left, [Normal(request)]);
    case OtherCommit(entry) => LongerLogKeepsSound(c, left, [entry]);
    case AtNode(n, act) =>
      assert NodeSound(c.nodes[n], c.log, left[n]);
      NodeStepKeeps(c.nodes[n], act, c.log, left[n]);
      SoundAtNode(c, left, n, Next(c, step).value.nodes[n], c.wire, c.accepted);
    case AtTask(n, task, action) =>
      var after := Next(c, step).value;
      assert NodeSound(c.nodes[n], c.log, left[n]);
      assert TaskSound(c.nodes[n], c.log, left[n], c.nodes[n].tasks[task]);
      TaskStepKeeps(c.nodes[n], task, action, c.log, left[n], IsRefusal(c.log, action));
      SoundAtNode(c, left, n, after.nodes[n], after.wire, after.accepted);
  }

  lemma {:induction false} RunKeepsSound(c: Cluster, left: Inherited, steps: seq<Step>)
    requires Sound(c, left) && RunFrom(c, steps).Some?
    ensures Sound(RunFrom(c, steps).value, left)
  {
    if steps != [] {
      var front := steps[..|steps| - 1];
      RunKeepsSound(c, left, front);
      StepKeepsSound(RunFrom(c, front).value, left, steps[|steps| - 1]);
    }
  }

  // ---- theorems over every run ----

  ghost predicate Reachable(left: Inherited, log: seq<Payload>, steps: seq<Step>, c: Cluster) {
    Filed(left) && RunFrom(Started(left, log), steps) == Some(c)
  }

  lemma ReachableIsSound(left: Inherited, log: seq<Payload>, steps: seq<Step>, c: Cluster)
    requires Reachable(left, log, steps, c)
    ensures Sound(c, left)
  {
    assert Sound(Started(left, log), left);
    RunKeepsSound(Started(left, log), left, steps);
  }

  /** Durability: at every moment of every run of a fleet, each op of an accepted write is parked on
      the node that accepted it or terminal in the log. */
  lemma AcceptedIsParkedOrTerminal(members: set<NodeId>, log: seq<Payload>, steps: seq<Step>, c: Cluster, n: NodeId, id: OpId)
    requires Reachable(NothingLeft(members), log, steps, c) && (n, id) in c.accepted
    ensures n in c.nodes && (id in c.nodes[n].parked || Recorded(c.log, id))
  {
    ReachableIsSound(NothingLeft(members), log, steps, c);
  }

  /** The same over an upgrade, of every op but one the node inherited in a request too large to
      replicate. */
  lemma UpgradeKeepsAccepted(left: Inherited, log: seq<Payload>, steps: seq<Step>, c: Cluster, n: NodeId, id: OpId)
    requires Reachable(left, log, steps, c) && (n, id) in c.accepted
    ensures n in c.nodes && n in left && (Unsendable(left[n], id) || id in c.nodes[n].parked || Recorded(c.log, id))
  {
    ReachableIsSound(left, log, steps, c);
  }

  /** A node with nothing parked owes nothing: every op it ever accepted is terminal, with an
      outcome that every other entry of the op inside its window repeats without a further effect. */
  lemma EmptyTableOwesNothing(left: Inherited, log: seq<Payload>, steps: seq<Step>, c: Cluster, n: NodeId, id: OpId) returns (first: nat)
    requires Reachable(left, log, steps, c) && (n, id) in c.accepted && (n in left ==> !Unsendable(left[n], id))
    requires n in c.nodes && c.nodes[n].parked == map[]
    ensures first < |c.log| && RanAs(c.log, first, id)
    ensures forall j :: first < j < |c.log| && UsesId(c.log[j], id) && ClockAt(c.log, j) < ExpiryOf(c.log, first) ==>
              ResponseAt(c.log, j) == ResponseAt(c.log, first) && TablesAt(c.log, j + 1) == TablesAt(c.log, j)
  {
    UpgradeKeepsAccepted(left, log, steps, c, n, id);
    first := RecordedRan(c.log, id);
    forall j | first < j < |c.log| && UsesId(c.log[j], id) && ClockAt(c.log, j) < ExpiryOf(c.log, first)
      ensures ResponseAt(c.log, j) == ResponseAt(c.log, first) && TablesAt(c.log, j + 1) == TablesAt(c.log, j)
    {
      AtMostOnceInWindow(c.log, first, j);
    }
  }

  /** A sweep drops as too large only an intent its node inherited. */
  lemma OnlyInheritedIsDropped(left: Inherited, log: seq<Payload>, steps: seq<Step>, c: Cluster, n: NodeId, task: TaskId, unparked: bool)
    requires Reachable(left, log, steps, c) && Next(c, AtTask(n, task, SweepTooLarge(unparked))).Some?
    ensures var t := c.nodes[n].tasks[task];
            var request := t.requests[t.next];
            n in left && Unsendable(left[n], request.opId) && left[n][request.opId] == request
  {
    ReachableIsSound(left, log, steps, c);
    var t := c.nodes[n].tasks[task];
    assert NodeSound(c.nodes[n], c.log, left[n]);
    assert TaskSound(c.nodes[n], c.log, left[n], t);
    assert Fits(t.requests[t.next], left[n]);
  }

  // ---- every drain ----

  predicate IsTurn(step: Step, n: NodeId, task: TaskId) { step.AtTask? && step.node == n && step.task == task }

  /** A step in which the sweep, if it is its turn, retires its intent rather than skipping it or giving
      up: it is answered, or the intent is too large to send. */
  predicate Answering(step: Step, n: NodeId, task: TaskId) {
    IsTurn(step, n, task) ==> step.action.Send? || step.action.SweepAnswer? || step.action.SweepTooLarge?
  }

  ghost predicate AllAnswering(steps: seq<Step>, n: NodeId, task: TaskId) {
    forall i :: 0 <= i < |steps| ==> Answering(steps[i], n, task)
  }

  /** Wherever the sweep of `intents` stands, those before it are terminal or too large. */
  ghost predicate SweptSoFar(c: Cluster, n: NodeId, task: TaskId, intents: seq<ControlRequest>) {
    n in c.nodes && (task in c.nodes[n].tasks && c.nodes[n].tasks[task].Sweeping? && c.nodes[n].tasks[task].requests == intents ==>
      var next := c.nodes[n].tasks[task].next;
      next <= |intents| && forall i :: 0 <= i < next ==> AdmitsEntrySize(intents[i]) ==> Recorded(c.log, intents[i].opId))
  }

  lemma AnsweringKeepsSwept(c: Cluster, step: Step, d: Cluster, n: NodeId, task: TaskId, intents: seq<ControlRequest>)
    requires SweptSoFar(c, n, task, intents) && Next(c, step) == Some(d) && Answering(step, n, task)
    ensures SweptSoFar(d, n, task, intents)
  {
    LogGrows(c, step, d);
    forall id | Recorded(c.log, id) ensures Recorded(d.log, id) {
      RecordedStays(c.log, d.log[|c.log|..], id);
    }
    if IsTurn(step, n, task) {
      if step.action.SweepAnswer? { AnsweredIsRecorded(c.log, step.action.at, c.nodes[n].tasks[task]); }
    } else {
      OthersLeaveTheSweep(c, step, d, n, task);
    }
  }

  lemma LogGrows(c: Cluster, step: Step, d: Cluster)
    requires Next(c, step) == Some(d)
    ensures c.log <= d.log && d.log == c.log + d.log[|c.log|..]
  {}

  lemma {:induction false} AnsweredSweepRecords(c: Cluster, steps: seq<Step>, d: Cluster, n: NodeId, task: TaskId, intents: seq<ControlRequest>)
    requires SweptSoFar(c, n, task, intents) && RunFrom(c, steps) == Some(d) && AllAnswering(steps, n, task)
    ensures SweptSoFar(d, n, task, intents) && c.log <= d.log
  {
    if steps != [] {
      var front, last := steps[..|steps| - 1], steps[|steps| - 1];
      var b := RunFrom(c, front).value;
      AnsweredSweepRecords(c, front, b, n, task, intents);
      assert Answering(last, n, task);
      AnsweringKeepsSwept(b, last, d, n, task, intents);
    }
  }

  /** The node parks nothing, and the sweep's unparks succeed. */
  predicate Retiring(step: Step, n: NodeId, task: TaskId) {
    step.AtTask? && step.node == n ==>
      && !step.action.ParkNext?
      && (step.task == task && (step.action.SweepAnswer? || step.action.SweepTooLarge?) ==> step.action.unparked)
  }

  ghost predicate AllRetiring(steps: seq<Step>, n: NodeId, task: TaskId) {
    forall i :: 0 <= i < |steps| ==> Retiring(steps[i], n, task)
  }

  /** What is parked is among the intents, and past where the sweep of them stands. */
  ghost predicate OnlyAhead(c: Cluster, n: NodeId, task: TaskId, intents: seq<ControlRequest>) {
    && n in c.nodes
    && (forall id :: id in c.nodes[n].parked ==> Ahead(intents, 0, id))
    && (task in c.nodes[n].tasks && c.nodes[n].tasks[task].Sweeping? && c.nodes[n].tasks[task].requests == intents ==>
          forall id :: id in c.nodes[n].parked ==> Ahead(intents, c.nodes[n].tasks[task].next, id))
  }

  ghost predicate Ahead(intents: seq<ControlRequest>, k: nat, id: OpId) {
    exists i :: k <= i < |intents| && intents[i].opId == id
  }

  lemma RetiringParksNothing(c: Cluster, step: Step, d: Cluster, n: NodeId, task: TaskId)
    requires n in c.nodes && Next(c, step) == Some(d) && Retiring(step, n, task)
    ensures n in d.nodes && forall id :: id in d.nodes[n].parked ==> id in c.nodes[n].parked
  {}

  /** A step of anyone else leaves the sweep where it is, or starts one at the beginning. */
  lemma OthersLeaveTheSweep(c: Cluster, step: Step, d: Cluster, n: NodeId, task: TaskId)
    requires n in c.nodes && Next(c, step) == Some(d) && !IsTurn(step, n, task)
    ensures n in d.nodes
    ensures task in d.nodes[n].tasks && d.nodes[n].tasks[task].Sweeping? && d.nodes[n].tasks[task].next != 0 ==>
              task in c.nodes[n].tasks && c.nodes[n].tasks[task] == d.nodes[n].tasks[task]
  {}

  lemma TurnMovesTheSweep(c: Cluster, step: Step, d: Cluster, n: NodeId, task: TaskId, intents: seq<ControlRequest>)
    requires OnlyAhead(c, n, task, intents) && Next(c, step) == Some(d)
    requires IsTurn(step, n, task) && Answering(step, n, task) && Retiring(step, n, task)
    requires task in c.nodes[n].tasks && c.nodes[n].tasks[task].Sweeping? && c.nodes[n].tasks[task].requests == intents
    ensures n in d.nodes && task in d.nodes[n].tasks
    ensures forall id :: id in d.nodes[n].parked ==> Ahead(intents, d.nodes[n].tasks[task].next, id)
  {
    var next := c.nodes[n].tasks[task].next;
    if !step.action.Send? {
      forall id | id in d.nodes[n].parked ensures Ahead(intents, next + 1, id) {
        assert Ahead(intents, next, id) && id != intents[next].opId;
      }
    }
  }

  lemma RetiringKeepsAhead(c: Cluster, step: Step, d: Cluster, n: NodeId, task: TaskId, intents: seq<ControlRequest>)
    requires OnlyAhead(c, n, task, intents) && Next(c, step) == Some(d) && Answering(step, n, task) && Retiring(step, n, task)
    ensures OnlyAhead(d, n, task, intents)
  {
    RetiringParksNothing(c, step, d, n, task);
    if !IsTurn(step, n, task) {
      OthersLeaveTheSweep(c, step, d, n, task);
    } else if c.nodes[n].tasks[task].Sweeping? && c.nodes[n].tasks[task].requests == intents {
      TurnMovesTheSweep(c, step, d, n, task, intents);
    }
  }

  lemma {:induction false} RetiringSweepEmpties(c: Cluster, steps: seq<Step>, d: Cluster, n: NodeId, task: TaskId, intents: seq<ControlRequest>)
    requires OnlyAhead(c, n, task, intents) && RunFrom(c, steps) == Some(d) && AllAnswering(steps, n, task) && AllRetiring(steps, n, task)
    ensures OnlyAhead(d, n, task, intents)
  {
    if steps != [] {
      var front, last := steps[..|steps| - 1], steps[|steps| - 1];
      RetiringSweepEmpties(c, front, RunFrom(c, front).value, n, task, intents);
      assert Answering(last, n, task) && Retiring(last, n, task);
      RetiringKeepsAhead(RunFrom(c, front).value, last, d, n, task, intents);
    }
  }

  /** The sweep of the whole table is at position `k`. */
  ghost predicate SweepAt(c: Cluster, n: NodeId, task: TaskId, intents: seq<ControlRequest>, k: nat) {
    n in c.nodes && task in c.nodes[n].tasks && c.nodes[n].tasks[task] == Sweeping(intents, k)
  }

  /** What the sweep listed or the log already held is in the log at the end. */
  lemma ListedIsRecorded(c: Cluster, d: Cluster, n: NodeId, left: Intents, intents: seq<ControlRequest>, id: OpId)
    requires n in c.nodes && NodeSound(c.nodes[n], c.log, left) && Lists(intents, c.nodes[n].parked)
    requires Safe(c.nodes[n], c.log, left, id) && !Unsendable(left, id)
    requires c.log <= d.log && forall i :: 0 <= i < |intents| ==> AdmitsEntrySize(intents[i]) ==> Recorded(d.log, intents[i].opId)
    ensures Recorded(d.log, id)
  {
    if id in c.nodes[n].parked {
      var i :| 0 <= i < |intents| && intents[i].opId == id;
      assert c.nodes[n].parked[id] == intents[i] && Fits(intents[i], left);
    } else {
      assert c.log + d.log[|c.log|..] == d.log;
      RecordedStays(c.log, d.log[|c.log|..], id);
    }
  }

  lemma EmptyTableIsSettled(c: Cluster, left: Inherited, n: NodeId)
    requires Sound(c, left) && n in c.nodes && c.nodes[n].parked == map[]
    ensures forall id :: (n, id) in c.accepted && !Unsendable(left[n], id) ==> Recorded(c.log, id)
  {
    forall id | (n, id) in c.accepted && !Unsendable(left[n], id) ensures Recorded(c.log, id) {
      assert Safe(c.nodes[n], c.log, left[n], id);
    }
  }

  /** Every drain.  From any reachable state in which a sweep of the whole table begins, over every
      run in which that sweep retires its intent each time it is its turn, whatever else the fleet
      does: once it reaches the end, every op the node had accepted when it began is terminal.  If its
      unparks succeed and the node parks nothing meanwhile, nothing is parked and every op the node
      ever accepted is terminal.  Ops inherited too large aside, of which a fleet started afresh has
      none. */
  lemma FullDrain(left: Inherited, log: seq<Payload>, reached: seq<Step>, c: Cluster, steps: seq<Step>, d: Cluster,
                  n: NodeId, task: TaskId, intents: seq<ControlRequest>)
    requires Reachable(left, log, reached, c) && SweepAt(c, n, task, intents, 0) && Lists(intents, c.nodes[n].parked)
    requires RunFrom(c, steps) == Some(d) && AllAnswering(steps, n, task) && SweepAt(d, n, task, intents, |intents|)
    ensures n in left
    ensures forall id :: (n, id) in c.accepted && !Unsendable(left[n], id) ==> Recorded(d.log, id)
    ensures AllRetiring(steps, n, task) ==>
              d.nodes[n].parked == map[] && forall id :: (n, id) in d.accepted && !Unsendable(left[n], id) ==> Recorded(d.log, id)
  {
    ReachableIsSound(left, log, reached, c);
    AnsweredSweepRecords(c, steps, d, n, task, intents);
    assert NodeSound(c.nodes[n], c.log, left[n]);
    forall id | (n, id) in c.accepted && !Unsendable(left[n], id) ensures Recorded(d.log, id) {
      assert Safe(c.nodes[n], c.log, left[n], id);
      ListedIsRecorded(c, d, n, left[n], intents, id);
    }
    if AllRetiring(steps, n, task) {
      forall id | id in c.nodes[n].parked ensures Ahead(intents, 0, id) {}
      RetiringSweepEmpties(c, steps, d, n, task, intents);
      assert d.nodes[n].parked == map[];
      RunKeepsSound(c, left, steps);
      EmptyTableIsSettled(d, left, n);
    }
  }

  // ---- the op-status read ----

  datatype Status = Terminal(response: ControlResponse) | Pending

  /** `op_body`: the recorded response first, and if there is none, whether the op is parked; two
      reads, the second of the parked table as it is by then.  `None` is its 404. */
  function OpStatus(s: State, parked: Intents, id: OpId): Option<Status> {
    var response := ReadOp(s, id);
    if response.Some? then Some(Terminal(response.value))
    else if id in parked then Some(Pending)
    else None
  }

  /** Exactly when a replica answers 404, however it batched the entries it has applied: the op is not
      parked, and no entry that ran under its id is in the last batch or was live when it began. */
  lemma OpIsUnknownIff(batches: seq<seq<Payload>>, parked: Intents, id: OpId)
    ensures LastStart(batches) <= |Flatten(batches)|
    ensures OpStatus(ApplyBatches(INITIAL, batches).0, parked, id).None? <==>
            id !in parked && !Reported(Flatten(batches), LastStart(batches), id)
  {
    StatusIsReported(batches, id);
  }

  /** Exactly when it answers that the op has ended, and how: as the last entry that ran under its id
      did.  It answers that the op is pending exactly when it is parked and nothing is reported. */
  lemma OpIsTerminalIff(batches: seq<seq<Payload>>, parked: Intents, id: OpId, response: ControlResponse)
    ensures LastStart(batches) <= |Flatten(batches)|
    ensures var log := Flatten(batches);
            var status := OpStatus(ApplyBatches(INITIAL, batches).0, parked, id);
            && (status == Some(Terminal(response)) <==>
                  && Reported(log, LastStart(batches), id)
                  && LastRun(log, |log|, id).Some?
                  && response == ResponseAt(log, LastRun(log, |log|, id).value))
            && (status == Some(Pending) <==> id in parked && !Reported(log, LastStart(batches), id))
  {
    StatusIsReported(batches, id);
    if ReadOp(ApplyBatches(INITIAL, batches).0, id).Some? { StatusIsLastRun(batches, id); }
  }

  lemma RecordedIffLastRun(log: seq<Payload>, id: OpId)
    ensures Recorded(log, id) <==> LastRun(log, |log|, id).Some?
  {
    if Recorded(log, id) { var first := RecordedRan(log, id); }
    var last := LastRun(log, |log|, id);
    assert last.Some? ==> UsesId(log[last.value], id);
  }

  /** The node had not applied the op by this moment, or held only an expired record of it. */
  ghost predicate UnseenOrExpired(c: Cluster, n: NodeId, id: OpId)
    requires n in c.nodes && c.nodes[n].applied <= |c.log|
  {
    var seen := c.log[..c.nodes[n].applied];
    var last := LastRun(seen, |seen|, id);
    if last.Some? then ExpiryOf(seen, last.value) <= StateAt(c.log, c.nodes[n].applied).clock else !Recorded(seen, id)
  }

  /** When the node that accepted an op can answer 404 for it, over every run in which the record is
      read at `c` and the parked table at any later `d`: only when the op is terminal in the log by
      the second read, and at the first this node had not applied it or held an expired record. */
  lemma AcceptedOpIsUnknownOnlyWhen(left: Inherited, log: seq<Payload>, steps: seq<Step>, c: Cluster, more: seq<Step>, d: Cluster,
                                    n: NodeId, id: OpId, s: State)
    requires Reachable(left, log, steps, c) && RunFrom(c, more) == Some(d) && n in left && !Unsendable(left[n], id)
    requires (n, id) in d.accepted && n in c.nodes && n in d.nodes && c.nodes[n].applied <= |c.log|
    requires SweptFrom(s, StateAt(c.log, c.nodes[n].applied))
    requires OpStatus(s, d.nodes[n].parked, id).None?
    ensures Recorded(d.log, id) && UnseenOrExpired(c, n, id)
  {
    ReachableIsSound(left, log, steps, c);
    RunKeepsSound(c, left, more);
    assert Safe(d.nodes[n], d.log, left[n], id);
    var seen := c.log[..c.nodes[n].applied];
    assert seen[..|seen|] == seen;
    assert StateAt(seen, |seen|) == StateAt(c.log, c.nodes[n].applied);
    RecordedIffLastRun(seen, id);
    RowIsLastRun(seen, |seen|, id);
  }

  /** With both reads at one moment: terminal in the log, and not applied here yet or expired. */
  lemma AcceptedOpIsUnknownAtOnce(left: Inherited, log: seq<Payload>, steps: seq<Step>, c: Cluster, n: NodeId, id: OpId, s: State)
    requires Reachable(left, log, steps, c) && n in left && !Unsendable(left[n], id)
    requires (n, id) in c.accepted && n in c.nodes && c.nodes[n].applied <= |c.log|
    requires SweptFrom(s, StateAt(c.log, c.nodes[n].applied))
    requires OpStatus(s, c.nodes[n].parked, id).None?
    ensures Recorded(c.log, id) && UnseenOrExpired(c, n, id)
  {
    AcceptedOpIsUnknownOnlyWhen(left, log, steps, c, [], c, n, id, s);
  }
}
