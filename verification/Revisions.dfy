/** What a revision promises over a whole log: it names one state of one record, and a write
    conditioned on it happens at most once (crates/rift-cluster/src/raft/store.rs,
    crates/rift-cluster/src/control.rs).
 */
module Revisions {
  import opened Text
  import opened Control
  import opened StateMachine
  import opened Dedup

  ghost function TablesAt(log: seq<Payload>, k: nat): Tables
    requires k <= |log|
  {
    StateAt(log, k).tables
  }

  ghost function RowAt(log: seq<Payload>, k: nat, port: Port): Option<Record>
    requires k <= |log|
  {
    var configs := TablesAt(log, k).configs;
    if port in configs then Some(configs[port]) else None
  }

  /** Entry `i` ran and changed what it set out to change. */
  ghost predicate TookEffect(log: seq<Payload>, i: nat)
    requires i < |log|
  {
    Ran(log, i) && ResponseAt(log, i).outcome == Applied
  }

  // ---- one step ----

  /** A row after an op is the row before it, or gone, or stamped with the op's own index. */
  ghost predicate RowStepped(before: Tables, after: Tables, index: nat, port: Port) {
    || port !in after.configs
    || after.configs[port].revision == index
    || (port in before.configs && after.configs[port] == before.configs[port])
  }

  ghost predicate Stepped(before: Tables, after: Tables, index: nat) {
    && (forall port: Port :: RowStepped(before, after, index, port))
    && (after.routesRevision == before.routesRevision || after.routesRevision == Some(index))
    && (after.sessionKey == before.sessionKey || (after.sessionKey.Some? && after.sessionKey.value.revision == index))
  }

  lemma MutateSteps(t: Tables, op: ControlOp, index: nat)
    requires Mutate(t, op, index).Ok?
    ensures Stepped(t, Mutate(t, op, index).value, index)
  {}

  lemma EntrySteps(log: seq<Payload>, k: nat)
    requires k < |log|
    ensures Stepped(TablesAt(log, k), TablesAt(log, k + 1), k + 1)
    ensures !TookEffect(log, k) ==> TablesAt(log, k + 1) == TablesAt(log, k)
  {
    StateStep(log, k);
    AppliedCounts(log, k);
    if log[k].Normal? && Execute(TablesAt(log, k), log[k].request, k + 1).Ok? {
      MutateSteps(TablesAt(log, k), log[k].request.op, k + 1);
    }
  }

  lemma TookEffectExecutes(log: seq<Payload>, i: nat)
    requires i < |log| && TookEffect(log, i)
    ensures Execute(TablesAt(log, i), log[i].request, i + 1) == Ok(TablesAt(log, i + 1))
    ensures CheckPreconditions(TablesAt(log, i), log[i].request).Ok?
    ensures Mutate(TablesAt(log, i), log[i].request.op, i + 1) == Ok(TablesAt(log, i + 1))
  {
    StateStep(log, i);
    AppliedCounts(log, i);
  }

  // ---- revisions never exceed the log, and never come back ----

  lemma {:induction false} RevisionsInLog(log: seq<Payload>, k: nat)
    requires k <= |log|
    ensures forall port: Port :: port in TablesAt(log, k).configs ==> TablesAt(log, k).configs[port].revision <= k
    ensures RoutesRevision(TablesAt(log, k)) <= k
    ensures TablesAt(log, k).sessionKey.Some? ==> TablesAt(log, k).sessionKey.value.revision <= k
  {
    if k == 0 {
      assert StateAt(log, 0) == INITIAL;
    } else {
      RevisionsInLog(log, k - 1);
      EntrySteps(log, k - 1);
      var before, after := TablesAt(log, k - 1), TablesAt(log, k);
      forall port: Port | port in after.configs ensures after.configs[port].revision <= k {
        assert RowStepped(before, after, k, port);
      }
    }
  }

  /** A row seen at `k` is the row seen at `j`, or it was written in between. */
  lemma {:induction false} RowSince(log: seq<Payload>, j: nat, k: nat, port: Port)
    requires j <= k <= |log|
    ensures RowAt(log, k, port).Some? ==> RowAt(log, k, port) == RowAt(log, j, port) || RowAt(log, k, port).value.revision > j
    decreases k
  {
    if j < k {
      RowSince(log, j, k - 1, port);
      EntrySteps(log, k - 1);
      assert RowStepped(TablesAt(log, k - 1), TablesAt(log, k), k, port);
    }
  }

  lemma {:induction false} RoutesRevisionGrows(log: seq<Payload>, j: nat, k: nat)
    requires j <= k <= |log|
    ensures RoutesRevision(TablesAt(log, j)) <= RoutesRevision(TablesAt(log, k))
    decreases k
  {
    if j < k {
      RoutesRevisionGrows(log, j, k - 1);
      EntrySteps(log, k - 1);
      RevisionsInLog(log, k - 1);
    }
  }

  /** A revision names one state of a record: two nodes, at any two points of one log, that show
      the same revision on a port hold the same record there. */
  lemma RevisionNamesTheRecord(log: seq<Payload>, j: nat, k: nat, port: Port)
    requires j <= |log| && k <= |log|
    requires RowAt(log, j, port).Some? && RowAt(log, k, port).Some?
    requires RowAt(log, j, port).value.revision == RowAt(log, k, port).value.revision
    ensures RowAt(log, j, port) == RowAt(log, k, port)
  {
    RevisionsInLog(log, j);
    RevisionsInLog(log, k);
    if j <= k { RowSince(log, j, k, port); } else { RowSince(log, k, j, port); }
  }

  // ---- at most one conditioned write ----

  ghost predicate Conditioned(log: seq<Payload>, i: nat, target: PreconditionTarget, revision: nat)
    requires i < |log|
  {
    && TookEffect(log, i)
    && log[i].request.expectedRevision == Some(revision)
    && TargetOf(log[i].request.op) == Some(target)
  }

  /** A conditioned write leaves its target at a newer revision, or gone. */
  lemma ConditionedMovesOn(log: seq<Payload>, i: nat, target: PreconditionTarget, revision: nat)
    requires i < |log| && Conditioned(log, i, target, revision)
    ensures match target
            case ImposterRow(port) =>
              && RowAt(log, i, port).Some? && RowAt(log, i, port).value.revision == revision <= i
              && (RowAt(log, i + 1, port).None? || RowAt(log, i + 1, port).value.revision == i + 1)
            case WholeRouteTable =>
              RoutesRevision(TablesAt(log, i)) == revision <= i && RoutesRevision(TablesAt(log, i + 1)) == i + 1
  {
    TookEffectExecutes(log, i);
    RevisionsInLog(log, i);
  }

  /** Of all the writes in a log conditioned on one revision of one record, at most one applies:
      no update is lost to a writer that conditioned on the same state. */
  lemma AtMostOneConditionedWrite(log: seq<Payload>, i: nat, j: nat, target: PreconditionTarget, revision: nat)
    requires i < |log| && j < |log|
    requires Conditioned(log, i, target, revision) && Conditioned(log, j, target, revision)
    ensures i == j
  {
    if i < j {
      ConditionedOnlyOnce(log, i, j, target, revision);
    } else if j < i {
      ConditionedOnlyOnce(log, j, i, target, revision);
    }
  }

  lemma ConditionedOnlyOnce(log: seq<Payload>, i: nat, j: nat, target: PreconditionTarget, revision: nat)
    requires i < j < |log|
    requires Conditioned(log, i, target, revision)
    ensures !Conditioned(log, j, target, revision)
  {
    ConditionedMovesOn(log, i, target, revision);
    if Conditioned(log, j, target, revision) {
      ConditionedMovesOn(log, j, target, revision);
      match target
      case ImposterRow(port) =>
        RowSince(log, i + 1, j, port);
      case WholeRouteTable =>
        RoutesRevisionGrows(log, i + 1, j);
    }
  }

  /** Of all the creations of one port that carry the absence precondition, two can both apply
      only if the port was removed in between. */
  lemma CreationsAreSeparatedByRemoval(log: seq<Payload>, i: nat, j: nat, port: Port)
    requires i < j < |log|
    requires TookEffect(log, i) && log[i].request.op.PutImposter? && TargetOf(log[i].request.op) == Some(ImposterRow(port))
    requires TookEffect(log, j) && log[j].request.expectAbsent && TargetOf(log[j].request.op) == Some(ImposterRow(port))
    ensures exists k :: i < k < j && TookEffect(log, k) && RowAt(log, k, port).Some? && RowAt(log, k + 1, port).None?
  {
    TookEffectExecutes(log, i);
    TookEffectExecutes(log, j);
    var k := LastPresence(log, i + 1, j, port);
    EntrySteps(log, k);
  }

  lemma {:induction false} LastPresence(log: seq<Payload>, start: nat, end: nat, port: Port) returns (k: nat)
    requires start <= end <= |log|
    requires RowAt(log, start, port).Some? && RowAt(log, end, port).None?
    ensures start <= k < end && RowAt(log, k, port).Some? && RowAt(log, k + 1, port).None?
    decreases end
  {
    if RowAt(log, end - 1, port).Some? {
      k := end - 1;
    } else {
      k := LastPresence(log, start, end - 1, port);
    }
  }

  // ---- a row's two switches ----

  /** A row's `enabled` flag is its config's own. */
  ghost predicate EnabledAgrees(t: Tables) {
    forall port :: port in t.configs ==> t.configs[port].enabled == t.configs[port].config.enabled
  }

  lemma MutateKeepsEnabled(t: Tables, op: ControlOp, index: nat)
    requires EnabledAgrees(t) && Mutate(t, op, index).Ok?
    ensures EnabledAgrees(Mutate(t, op, index).value)
    ensures op.SetEnabled? ==> Mutate(t, op, index).value.configs[op.port].enabled == op.enabled
  {}

  /** In every log, the flag a row carries and the flag in its config never part ways. */
  lemma {:induction false} EnabledNeverDisagrees(log: seq<Payload>, k: nat)
    requires k <= |log|
    ensures EnabledAgrees(TablesAt(log, k))
  {
    if k == 0 {
      assert StateAt(log, 0) == INITIAL;
    } else {
      EnabledNeverDisagrees(log, k - 1);
      EntrySteps(log, k - 1);
      if TookEffect(log, k - 1) {
        TookEffectExecutes(log, k - 1);
        MutateKeepsEnabled(TablesAt(log, k - 1), log[k - 1].request.op, k);
      }
    }
  }
}
