/** How the admin front's accept loop ends, and who hears of it: `AdminFront::wait`,
    `AdminFront::shutdown` and the drop guard `ReleaseWaiters`
    (crates/rift-cluster-server/src/admin_front.rs).

    The accept task, one shutdown caller and any number of waiters share an outcome slot and two
    one-way flags.  The class holds the shared fields and what each party does to them; the protocol below
    interleaves those actions.
 */
module AcceptLoop {
  import opened Text

  /** `Died` is the error that says nobody asked the loop to stop. */
  datatype Verdict = Fine | Died

  datatype Shared = Shared(slot: Option<Verdict>, done: bool, shutdownRequested: bool)

  /** The guard's write, once it has looked at the shutdown flag. */
  function GuardWrites(s: Shared, sawRequest: bool): Shared {
    if s.slot.None? && !sawRequest then s.(slot := Some(Died)) else s
  }

  /** Taking the slot; an empty one reads as fine. */
  function Take(s: Shared): (Shared, Verdict) {
    (s.(slot := None), if s.slot.Some? then s.slot.value else Fine)
  }

  // ---- interleavings ----

  /** The accept task: queued, polled, then its guard's three actions.  Once the guard has looked at the
      shutdown flag, `sawRequest` remembers what it saw. */
  datatype Task =
    | Queued
    | Running
    | Dropping
    | Looked(sawRequest: bool)
    | Written(sawRequest: bool)
    | Ended(sawRequest: bool)

  datatype Caller = NotCalled | Requested | Aborting | Joined | Finished

  datatype Waiter = Waiting | Returned(verdict: Verdict)

  datatype Front = Front(shared: Shared, task: Task, abortRequested: bool, shutdown: Caller, waiters: map<nat, Waiter>)

  datatype Step =
    | Poll
    | Panic
    | AbortElsewhere
    | Abort
    | GuardLooks
    | GuardPublishes
    | GuardReleases
    | ShutdownProceeds
    | WaitBegins(waiter: nat)
    | WaitReturns(waiter: nat)

  function Shut(f: Front): Option<Front> {
    match f.shutdown
    case NotCalled => Some(f.(shutdown := Requested, shared := f.shared.(shutdownRequested := true)))
    case Requested => Some(f.(shutdown := Aborting, abortRequested := true))
    case Aborting => if f.task.Ended? then Some(f.(shutdown := Joined)) else None
    case Joined => Some(f.(shutdown := Finished, shared := f.shared.(done := true)))
    case Finished => None
  }

  function Next(f: Front, step: Step): Option<Front> {
    match step
    case Poll => if f.task.Queued? then Some(f.(task := Running)) else None
    case Panic => if f.task.Running? then Some(f.(task := Dropping)) else None
    case AbortElsewhere => Some(f.(abortRequested := true))
    case Abort => if f.abortRequested && (f.task.Queued? || f.task.Running?) then Some(f.(task := Dropping)) else None
    case GuardLooks => if f.task.Dropping? then Some(f.(task := Looked(f.shared.shutdownRequested))) else None
    case GuardPublishes =>
      if f.task.Looked? then Some(f.(task := Written(f.task.sawRequest), shared := GuardWrites(f.shared, f.task.sawRequest))) else None
    case GuardReleases =>
      if f.task.Written? then Some(f.(task := Ended(f.task.sawRequest), shared := f.shared.(done := true))) else None
    case ShutdownProceeds => Shut(f)
    case WaitBegins(w) => if w in f.waiters then None else Some(f.(waiters := f.waiters[w := Waiting]))
    case WaitReturns(w) =>
      if w in f.waiters && f.waiters[w].Waiting? && f.shared.done then
        var (shared, verdict) := Take(f.shared);
        Some(f.(shared := shared, waiters := f.waiters[w := Returned(verdict)]))
      else None
  }

  const BOUND: Front := Front(Shared(None, false, false), Queued, false, NotCalled, map[])

  function Run(f: Front, steps: seq<Step>): Option<Front> {
    if steps == [] then Some(f)
    else
      var before :- Run(f, steps[..|steps| - 1]);
      Next(before, steps[|steps| - 1])
  }

  // ---- what each party does when nothing runs in between ----

  const GUARD_STEPS: seq<Step> := [GuardLooks, GuardPublishes, GuardReleases]
  const SHUTDOWN_STEPS: seq<Step> :=
    [ShutdownProceeds, ShutdownProceeds, Abort, GuardLooks, GuardPublishes, GuardReleases, ShutdownProceeds, ShutdownProceeds]

  lemma RunNext(f: Front, steps: seq<Step>, k: nat)
    requires k < |steps| && Run(f, steps[..k]).Some?
    ensures Run(f, steps[..k + 1]) == Next(Run(f, steps[..k]).value, steps[k])
  {
    assert steps[..k + 1][..k] == steps[..k];
  }

  lemma GuardSteps(f: Front)
    requires f.task.Dropping?
    ensures Run(f, GUARD_STEPS) ==
            Some(f.(task := Ended(f.shared.shutdownRequested), shared := GuardWrites(f.shared, f.shared.shutdownRequested).(done := true)))
  {
    RunNext(f, GUARD_STEPS, 0);
    RunNext(f, GUARD_STEPS, 1);
    RunNext(f, GUARD_STEPS, 2);
    assert GUARD_STEPS[..3] == GUARD_STEPS;
  }

  lemma ShutdownSteps(f: Front)
    requires (f.task.Queued? || f.task.Running?) && f.shutdown.NotCalled?
    ensures Run(f, SHUTDOWN_STEPS) ==
            Some(f.(task := Ended(true), abortRequested := true, shutdown := Finished,
                    shared := f.shared.(done := true, shutdownRequested := true)))
  {
    RunNext(f, SHUTDOWN_STEPS, 0);
    RunNext(f, SHUTDOWN_STEPS, 1);
    RunNext(f, SHUTDOWN_STEPS, 2);
    var dropping := Run(f, SHUTDOWN_STEPS[..3]).value;
    GuardSteps(dropping);
    RunAppends(f, SHUTDOWN_STEPS[..3], GUARD_STEPS);
    assert SHUTDOWN_STEPS[..6] == SHUTDOWN_STEPS[..3] + GUARD_STEPS;
    RunNext(f, SHUTDOWN_STEPS, 6);
    RunNext(f, SHUTDOWN_STEPS, 7);
    assert SHUTDOWN_STEPS[..8] == SHUTDOWN_STEPS;
  }

  class AdminFront {
    var slot: Option<Verdict>
    var done: bool
    var shutdownRequested: bool

    function Value(): Shared
      reads this
    {
      Shared(slot, done, shutdownRequested)
    }

    constructor ()
      ensures Value() == BOUND.shared
    {
      slot, done, shutdownRequested := None, false, false;
    }

    /** `ReleaseWaiters::drop`: the guard's three steps. */
    method DropGuard()
      modifies this
      ensures Value() == GuardWrites(old(Value()), old(shutdownRequested)).(done := true)
      ensures forall f: Front :: f.shared == old(Value()) && f.task.Dropping? ==>
                Run(f, GUARD_STEPS) == Some(f.(shared := Value(), task := Ended(old(shutdownRequested))))
    {
      if slot.None? && !shutdownRequested { slot := Some(Died); }
      done := true;
      forall f: Front | f.shared == old(Value()) && f.task.Dropping?
        ensures Run(f, GUARD_STEPS) == Some(f.(shared := Value(), task := Ended(old(shutdownRequested))))
      {
        GuardSteps(f);
      }
    }

    /** The rest of `wait`, once `done` is set: the waiter's last step. */
    method TakeOutcome() returns (verdict: Verdict)
      modifies this
      ensures (Value(), verdict) == Take(old(Value()))
      ensures forall f: Front, w :: f.shared == old(Value()) && f.shared.done && w in f.waiters && f.waiters[w].Waiting? ==>
                Next(f, WaitReturns(w)) == Some(f.(shared := Value(), waiters := f.waiters[w := Returned(verdict)]))
    {
      verdict := if slot.Some? then slot.value else Fine;
      slot := None;
    }

    /** `shutdown` of a task that is dropped as soon as it is aborted: the caller's four steps, with
        the abort and the guard's steps before the third. */
    method Shutdown()
      modifies this
      ensures Value() == old(Value()).(done := true, shutdownRequested := true)
      ensures forall f: Front :: f.shared == old(Value()) && (f.task.Queued? || f.task.Running?) && f.shutdown.NotCalled? ==>
                Run(f, SHUTDOWN_STEPS) ==
                Some(f.(shared := Value(), task := Ended(true), abortRequested := true, shutdown := Finished))
    {
      shutdownRequested := true;
      DropGuard();
      done := true;
      forall f: Front | f.shared == old(Value()) && (f.task.Queued? || f.task.Running?) && f.shutdown.NotCalled?
        ensures Run(f, SHUTDOWN_STEPS) ==
                Some(f.(shared := Value(), task := Ended(true), abortRequested := true, shutdown := Finished))
      {
        ShutdownSteps(f);
      }
    }
  }

  // ---- what every step keeps ----

  predicate Errored(f: Front, w: nat) { w in f.waiters && f.waiters[w] == Returned(Died) }

  ghost predicate Sound(f: Front) {
    && (f.shared.done <==> f.task.Ended?)
    && (f.shutdown.Joined? || f.shutdown.Finished? ==> f.task.Ended?)
    && (f.shared.slot.Some? ==> f.shared.slot == Some(Died) && (f.task.Written? || f.task.Ended?) && !f.task.sawRequest)
    && (forall w :: w in f.waiters && f.waiters[w].Returned? ==> f.task.Ended?)
    && (forall w :: Errored(f, w) ==> f.task.Ended? && !f.task.sawRequest && f.shared.slot.None?)
    && (forall v, w :: Errored(f, v) && Errored(f, w) ==> v == w)
    && (f.task.Written? && !f.task.sawRequest ==> f.shared.slot == Some(Died))
    && (f.task.Ended? && !f.task.sawRequest ==> f.shared.slot == Some(Died) || exists w :: Errored(f, w))
  }

  lemma StepKeepsSound(f: Front, step: Step)
    requires Sound(f) && Next(f, step).Some?
    ensures Sound(Next(f, step).value)
  {
    var g := Next(f, step).value;
    forall w | Errored(f, w) && !step.WaitReturns? ensures Errored(g, w) {}
    if step.WaitReturns? {
      assert forall w :: w != step.waiter ==> (Errored(g, w) <==> Errored(f, w));
      assert f.shared.slot == Some(Died) ==> Errored(g, step.waiter);
      forall w | Errored(f, w) ensures Errored(g, w) {}
    } else {
      assert forall w :: Errored(g, w) <==> Errored(f, w);
    }
  }

  lemma {:induction false} RunIsSound(steps: seq<Step>)
    requires Run(BOUND, steps).Some?
    ensures Sound(Run(BOUND, steps).value)
  {
    if steps != [] {
      RunIsSound(steps[..|steps| - 1]);
      StepKeepsSound(Run(BOUND, steps[..|steps| - 1]).value, steps[|steps| - 1]);
    }
  }

  // ---- theorems over every interleaving ----

  /** No waiter returns before the guard has published. */
  lemma NobodyReturnsEarly(steps: seq<Step>, f: Front, w: nat)
    requires Run(BOUND, steps) == Some(f) && w in f.waiters && f.waiters[w].Returned?
    ensures f.task.Ended?
  {
    RunIsSound(steps);
  }

  /** The error reaches at most one waiter, and only if the guard found no shutdown requested. */
  lemma ErrorIsDeliveredAtMostOnce(steps: seq<Step>, f: Front, v: nat, w: nat)
    requires Run(BOUND, steps) == Some(f) && Errored(f, v) && Errored(f, w)
    ensures v == w && f.task == Ended(false)
  {
    RunIsSound(steps);
  }

  /** And it is not lost: if the guard found none requested, some waiter has the error or the next
      one to return gets it. */
  lemma ErrorIsNotLost(steps: seq<Step>, f: Front, w: nat)
    requires Run(BOUND, steps) == Some(f) && f.task == Ended(false)
    requires w in f.waiters && f.waiters[w].Waiting?
    ensures Next(f, WaitReturns(w)).Some?
    ensures Errored(Next(f, WaitReturns(w)).value, w) || exists v :: Errored(f, v)
  {
    RunIsSound(steps);
  }

  /** A shutdown was requested before the guard looked: no error, ever. */
  ghost predicate Quiet(f: Front) {
    f.shared.shutdownRequested && match f.task
      case Queued => true
      case Running => true
      case Dropping => true
      case Looked(saw) => saw
      case Written(saw) => saw
      case Ended(saw) => saw
  }

  lemma {:induction false} QuietStays(f: Front, steps: seq<Step>)
    requires Quiet(f) && Run(f, steps).Some?
    ensures Quiet(Run(f, steps).value)
  {
    if steps != [] { QuietStays(f, steps[..|steps| - 1]); }
  }

  lemma {:induction false} RunAppends(f: Front, first: seq<Step>, second: seq<Step>)
    requires Run(f, first).Some?
    ensures Run(f, first + second) == Run(Run(f, first).value, second)
    decreases |second|
  {
    if second == [] {
      assert first + second == first;
    } else {
      RunAppends(f, first, second[..|second| - 1]);
      assert (first + second)[..|first + second| - 1] == first + second[..|second| - 1];
    }
  }

  /** A requested shutdown is never reported as a death. */
  lemma RequestedShutdownIsQuiet(steps: seq<Step>, f: Front, more: seq<Step>, g: Front, w: nat)
    requires Run(BOUND, steps) == Some(f) && Quiet(f) && Run(f, more) == Some(g)
    ensures !Errored(g, w)
  {
    RunAppends(BOUND, steps, more);
    RunIsSound(steps + more);
    QuietStays(f, more);
  }

  /** Nobody is stranded: once an accept task is to be dropped, polled or not, the guard's own three
      actions are enabled one after the other and every waiter can then return. */
  lemma DroppedTaskReleasesWaiters(steps: seq<Step>, f: Front, w: nat)
    requires Run(BOUND, steps) == Some(f) && f.abortRequested && (f.task.Queued? || f.task.Running?)
    requires w in f.waiters && f.waiters[w].Waiting?
    ensures var released := Run(f, [Abort, GuardLooks, GuardPublishes, GuardReleases]);
            && released.Some? && released.value.shared.done
            && Next(released.value, WaitReturns(w)).Some?
            && (Errored(Next(released.value, WaitReturns(w)).value, w) <==> !f.shared.shutdownRequested)
  {
    RunIsSound(steps);
    var drop, looks, publishes, releases := [Abort], [Abort, GuardLooks], [Abort, GuardLooks, GuardPublishes], [Abort, GuardLooks, GuardPublishes, GuardReleases];
    assert drop[..0] == [] && looks[..1] == drop && publishes[..2] == looks && releases[..3] == publishes;
    assert Run(f, drop) == Some(f.(task := Dropping));
    assert Run(f, looks).Some? && Run(f, looks).value.task == Looked(f.shared.shutdownRequested);
    assert Run(f, publishes).Some? && Run(f, publishes).value.task.Written?;
  }
}
