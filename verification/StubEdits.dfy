/** Stub edits that read before they write.

    An index-addressed or whole-list stub edit has no op of its own: the front reads the stored
    config from this node's applied tables, edits it, and commits the whole config
    (crates/rift-cluster-server/src/admin_front.rs).  The read may be stale.  What does an
    `If-Match` on the commit buy?
 */
module StubEdits {
  import opened Text
  import opened Control
  import opened StateMachine
  import opened Dedup
  import opened Revisions
  import opened Routing
  import opened Mutation

  /** The body and view that lead `BuildMutation` to commit `edit` of the config stored on `port`. */
  function RouteOf(port: Port, edit: ConfigEdit): (Terminated, Body) {
    match edit
    case ReplaceList(stubs) => (ReplaceStubs(port), StubsBody(stubs))
    case ReplaceAtIndex(index, stub) => (ReplaceStubAt(port, index), StubBody(stub, true))
    case DeleteAtIndex(index) => (DeleteStubAt(port, index), Undecodable)
  }

  /** The three read-then-write routes commit exactly the edited config, or answer 404 when the
      port or the index is not there. */
  lemma EditRoutesCommitTheEdit(port: Port, edit: ConfigEdit, view: View)
    ensures var (kind, body) := RouteOf(port, edit);
            var built := BuildMutation(kind, body, view);
            var edited := if port in view.tables.configs then EditConfig(view.tables.configs[port].config, edit) else None;
            && (built.Ok? <==> edited.Some?)
            && (built.Err? ==> built.error == NotFound)
            && (built.Ok? ==> |built.value.ops| == 1 && built.value.ops[0].PutImposter? && built.value.ops[0].config == edited.value)
  {
    var (kind, body) := RouteOf(port, edit);
    match edit
    case ReplaceList(stubs) =>
    case ReplaceAtIndex(index, stub) =>
      if port in view.tables.configs {
        var stubs := view.tables.configs[port].config.stubs;
        assert StubPosition(index, |stubs|).Some? ==> StubPosition(index, |stubs|).value < |stubs|;
      }
    case DeleteAtIndex(index) =>
  }

  // ---- configs name their port ----

  lemma MutateKeepsPorts(t: Tables, op: ControlOp, index: nat)
    requires ConfigsKnowTheirPort(t) && Mutate(t, op, index).Ok?
    ensures ConfigsKnowTheirPort(Mutate(t, op, index).value)
  {}

  lemma {:induction false} PortsAreKnown(log: seq<Payload>, k: nat)
    requires k <= |log|
    ensures ConfigsKnowTheirPort(TablesAt(log, k))
  {
    if k == 0 {
      assert StateAt(log, 0) == INITIAL;
    } else {
      PortsAreKnown(log, k - 1);
      EntrySteps(log, k - 1);
      if TookEffect(log, k - 1) {
        TookEffectExecutes(log, k - 1);
        MutateKeepsPorts(TablesAt(log, k - 1), log[k - 1].request.op, k);
      }
    }
  }

  // ---- no lost update ----

  /** Entry `i` applied the `edit` of the config that a node had applied after `basis` entries,
      conditioned on revision `r`. */
  ghost predicate CommittedEdit(log: seq<Payload>, basis: nat, i: nat, port: Port, edit: ConfigEdit, r: nat)
    requires basis <= i < |log|
  {
    && TookEffect(log, i)
    && RowAt(log, basis, port).Some?
    && EditConfig(RowAt(log, basis, port).value.config, edit).Some?
    && log[i].request.op.PutImposter?
    && log[i].request.op.config == EditConfig(RowAt(log, basis, port).value.config, edit).value
    && log[i].request.expectedRevision == Some(r)
  }

  lemma EditKeepsPort(config: ImposterConfig, edit: ConfigEdit)
    requires EditConfig(config, edit).Some?
    ensures EditConfig(config, edit).value.port == config.port
  {}

  /** What a committed edit finds and leaves, whatever it read. */
  lemma CommittedEditWrites(log: seq<Payload>, basis: nat, i: nat, port: Port, edit: ConfigEdit, r: nat)
    requires basis <= i < |log| && CommittedEdit(log, basis, i, port, edit, r)
    ensures RowAt(log, i, port).Some? && RowAt(log, i, port).value.revision == r
    ensures RowAt(log, i + 1, port).Some?
    ensures RowAt(log, i + 1, port).value.config == EditConfig(RowAt(log, basis, port).value.config, edit).value
  {
    PortsAreKnown(log, basis);
    EditKeepsPort(RowAt(log, basis, port).value.config, edit);
    TookEffectExecutes(log, i);
  }

  /** No lost update, in every log and however far the node lagged: the row the edit was built on
      is the row it replaces exactly when the node had it at the revision the write carries, and
      then what is left is that edit of the current config. */
  lemma NoLostUpdate(log: seq<Payload>, basis: nat, i: nat, port: Port, edit: ConfigEdit, r: nat)
    requires basis <= i < |log| && CommittedEdit(log, basis, i, port, edit, r)
    ensures RowAt(log, i, port).Some? && RowAt(log, i + 1, port).Some?
    ensures RowAt(log, basis, port).value.revision == r <==> RowAt(log, basis, port) == RowAt(log, i, port)
    ensures RowAt(log, basis, port).value.revision == r ==>
              EditConfig(RowAt(log, i, port).value.config, edit) == Some(RowAt(log, i + 1, port).value.config)
  {
    CommittedEditWrites(log, basis, i, port, edit, r);
    if RowAt(log, basis, port).value.revision == r {
      RevisionNamesTheRecord(log, basis, i, port);
    }
  }

  // ---- the window that stays open ----

  function Write(id: OpId, config: ImposterConfig, expected: Option<nat>): Payload {
    Normal(ControlRequest(id, 0, expected, false, PutImposter(config, None), 0))
  }

  /** Two writes of one port, then an edit built on the first but carrying the second's revision:
      the revision a client learned from a node further ahead. */
  function StaleLog(first: ImposterConfig, second: ImposterConfig): seq<Payload> {
    [Write(Uuid(1), first, None), Write(Uuid(2), second, None), Write(Uuid(3), first.(stubs := []), Some(2))]
  }

  lemma ValidWriteApplies(log: seq<Payload>, k: nat, id: OpId, config: ImposterConfig, expected: Option<nat>)
    requires k < |log| && log[k] == Write(id, config, expected) && ValidateConfig(config).Ok?
    requires forall j :: 0 <= j < k ==> log[j].Normal? && log[j].request.opId != id
    requires expected.Some? ==> RowAt(log, k, config.port.value).Some? && RowAt(log, k, config.port.value).value.revision == expected.value
    ensures TookEffect(log, k)
    ensures RowAt(log, k + 1, config.port.value) == Some(Record(config, config.enabled, k + 1))
  {
    AnsweredIffWithinWindow(log, k);
    StateStep(log, k);
    AppliedCounts(log, k);
  }

  /** With the revision current but the local read behind, the commit goes through and the second
      write's changes are gone, for every pair of configs that differ beyond their stubs. */
  lemma StaleReadLosesAnUpdate(first: ImposterConfig, second: ImposterConfig)
    requires ValidateConfig(first).Ok? && ValidateConfig(second).Ok? && first.port == second.port
    requires first.rest != second.rest
    ensures var log, port := StaleLog(first, second), first.port.value;
            && CommittedEdit(log, 1, 2, port, ReplaceList([]), 2)
            && RowAt(log, 2, port).Some? && RowAt(log, 3, port).Some?
            && EditConfig(RowAt(log, 2, port).value.config, ReplaceList([])) != Some(RowAt(log, 3, port).value.config)
  {
    var log, port := StaleLog(first, second), first.port.value;
    ValidWriteApplies(log, 0, Uuid(1), first, None);
    ValidWriteApplies(log, 1, Uuid(2), second, None);
    ValidWriteApplies(log, 2, Uuid(3), first.(stubs := []), Some(2));
  }
}
