/** From a terminated route to the ops it commits: `build_mutation`, the precondition at the
    door, and the ids and envelopes the ops are minted with
    (crates/rift-cluster-server/src/admin_front.rs).

    What the front reads to build a mutation is a `View`: this node's applied tables and what its
    own engine answered.  A request body arrives decoded, or as `Undecodable` when its decoder
    refused it; a UUID in an idempotency key arrives parsed.
 */
module Mutation {
  import opened Text
  import opened Control
  import opened StateMachine
  import opened IfMatch
  import opened Routing

  datatype Body =
    | Undecodable
    | ConfigBody(config: ImposterConfig)
    | BatchBody(imposters: seq<ImposterConfig>)
    | AddStubBody(stub: Stub, index: Option<nat>)
    | StubBody(stub: Stub, looksLikeAStub: bool)
    | StubsBody(stubs: seq<Stub>)
    | TableBody(table: RouteTable)
    | NameBody(name: string)

  /** `served` is what the local engine answers for; `None` is a fetch that failed. */
  datatype View = View(tables: Tables, served: Option<set<Port>>)

  datatype Admit = Content | Nothing

  datatype Render =
    | FetchAfter(path: string, status: nat)
    | FetchAfterOrdered(path: string, status: nat, order: seq<Port>)
    | Captured(status: nat)

  datatype Mutation = Mutation(ops: seq<ControlOp>, port: Option<Port>, render: Render, admit: Admit)

  /** An answer given at the door, before anything is minted. */
  datatype DoorAnswer = BadData | NotFound | AlreadyGone | InternalError

  // ---- edits of one stored config ----

  datatype ConfigEdit =
    | ReplaceList(stubs: seq<Stub>)
    | ReplaceAtIndex(index: string, stub: Stub)
    | DeleteAtIndex(index: string)

  /** The config an index-addressed or whole-list edit leaves; `None` for an index naming no stub. */
  function EditConfig(config: ImposterConfig, edit: ConfigEdit): Option<ImposterConfig> {
    match edit
    case ReplaceList(stubs) => Some(config.(stubs := stubs))
    case ReplaceAtIndex(index, stub) =>
      var at :- StubPosition(index, |config.stubs|);
      if at < |config.stubs| then Some(config.(stubs := config.stubs[at := stub])) else None
    case DeleteAtIndex(index) =>
      var at :- StubPosition(index, |config.stubs|);
      if at < |config.stubs| then Some(config.(stubs := Remove(config.stubs, at))) else None
  }

  function StoredConfig(view: View, port: Port): Result<ImposterConfig, DoorAnswer> {
    if port in view.tables.configs then Ok(view.tables.configs[port].config) else Err(NotFound)
  }

  function ImposterPath(port: Port): string { "/imposters/" + Decimal(port) }

  function PutConfigMutation(port: Port, config: ImposterConfig, admit: Admit, restart: Option<Restart>): Mutation {
    Mutation([PutImposter(config, restart)], Some(port), FetchAfter(ImposterPath(port), 200), admit)
  }

  // ---- PUT /imposters ----

  function PortsOf(imposters: seq<ImposterConfig>): seq<Port>
    requires AllPorted(imposters)
  {
    if imposters == [] then [] else PortsOf(imposters[..|imposters| - 1]) + [imposters[|imposters| - 1].port.value]
  }

  predicate AllPorted(imposters: seq<ImposterConfig>) {
    forall i :: 0 <= i < |imposters| ==> imposters[i].port.Some?
  }

  function Upserts(imposters: seq<ImposterConfig>): seq<ControlOp> {
    seq(|imposters|, i requires 0 <= i < |imposters| => PutImposter(imposters[i], None))
  }

  /** Each port at its first position. */
  function FirstOccurrences(ports: seq<Port>): seq<Port> {
    if ports == [] then []
    else
      var front, last := ports[..|ports| - 1], ports[|ports| - 1];
      if last in front then FirstOccurrences(front) else FirstOccurrences(front) + [last]
  }

  function Prunes(existing: seq<Port>, keep: set<Port>): seq<ControlOp> {
    if existing == [] then []
    else
      var last := existing[|existing| - 1];
      Prunes(existing[..|existing| - 1], keep) + (if last in keep then [] else [ControlOp.DeleteImposter(last)])
  }

  /** The ops of a whole-set replace: the body's configs in order, then a delete for every port
      this node has applied that the body left out; an empty body deletes everything at once. */
  function ReplaceAllOps(imposters: seq<ImposterConfig>, existing: seq<Port>): seq<ControlOp>
    requires AllPorted(imposters)
  {
    if imposters == [] then [DeleteAll]
    else Upserts(imposters) + Prunes(existing, Kept(imposters))
  }

  function ReplaceAll(imposters: seq<ImposterConfig>, existing: seq<Port>): Result<Mutation, DoorAnswer> {
    if !AllPorted(imposters) then Err(BadData)
    else
      var render :=
        if imposters == [] then FetchAfter("/imposters", 200)
        else FetchAfterOrdered("/imposters", 200, FirstOccurrences(PortsOf(imposters)));
      Ok(Mutation(ReplaceAllOps(imposters, existing), None, render, Content))
  }

  function Kept(imposters: seq<ImposterConfig>): set<Port>
    requires AllPorted(imposters)
  {
    set p | p in PortsOf(imposters)
  }

  lemma OneMoreConfig(imposters: seq<ImposterConfig>, i: nat)
    requires i < |imposters| && AllPorted(imposters[..i]) && imposters[i].port.Some?
    ensures AllPorted(imposters[..i + 1])
    ensures var port := imposters[i].port.value;
            && Upserts(imposters[..i + 1]) == Upserts(imposters[..i]) + [PutImposter(imposters[i], None)]
            && Kept(imposters[..i + 1]) == Kept(imposters[..i]) + {port}
            && FirstOccurrences(PortsOf(imposters[..i + 1])) ==
               FirstOccurrences(PortsOf(imposters[..i])) + if port in Kept(imposters[..i]) then [] else [port]
  {
    var port := imposters[i].port.value;
    assert imposters[..i + 1][..i] == imposters[..i];
    var before := PortsOf(imposters[..i]);
    assert PortsOf(imposters[..i + 1]) == before + [port];
    assert (before + [port])[..|before|] == before;
    assert forall p :: p in before + [port] <==> p in before || p == port;
  }

  /** The `ReplaceAllImposters` arm of `build_mutation`: one loop over the body accumulates the
      kept ports, their order and the upserts; a second adds the prunes. */
  method BuildReplaceAll(imposters: seq<ImposterConfig>, existing: seq<Port>) returns (built: Result<Mutation, DoorAnswer>)
    ensures built == ReplaceAll(imposters, existing)
  {
    var keep: set<Port> := {};
    var order: seq<Port> := [];
    var ops: seq<ControlOp> := [];
    for i := 0 to |imposters|
      invariant AllPorted(imposters[..i])
      invariant keep == Kept(imposters[..i])
      invariant order == FirstOccurrences(PortsOf(imposters[..i]))
      invariant ops == Upserts(imposters[..i])
    {
      if imposters[i].port.None? {
        assert !AllPorted(imposters);
        return Err(BadData);
      }
      OneMoreConfig(imposters, i);
      var port := imposters[i].port.value;
      if port !in keep {
        keep := keep + {port};
        order := order + [port];
      }
      ops := ops + [PutImposter(imposters[i], None)];
    }
    assert imposters[..|imposters|] == imposters;
    assert |ops| == |imposters|;
    if ops == [] {
      return Ok(Mutation([DeleteAll], None, FetchAfter("/imposters", 200), Content));
    }
    var prunes := BuildPrunes(existing, keep);
    return Ok(Mutation(ops + prunes, None, FetchAfterOrdered("/imposters", 200, order), Content));
  }

  method BuildPrunes(existing: seq<Port>, keep: set<Port>) returns (prunes: seq<ControlOp>)
    ensures prunes == Prunes(existing, keep)
  {
    prunes := [];
    for i := 0 to |existing|
      invariant prunes == Prunes(existing[..i], keep)
    {
      assert existing[..i + 1][..i] == existing[..i];
      if existing[i] !in keep { prunes := prunes + [ControlOp.DeleteImposter(existing[i])]; }
    }
    assert existing[..|existing|] == existing;
  }

  /** The ports below `bound` with an applied config, ascending. */
  function PortsBelow(tables: Tables, bound: nat): seq<Port>
    requires bound <= 0x1_0000
  {
    if bound == 0 then []
    else
      var p: Port := bound - 1;
      PortsBelow(tables, bound - 1) + (if p in tables.configs then [p] else [])
  }

  function ConfiguredPorts(tables: Tables): seq<Port> { PortsBelow(tables, 0x1_0000) }

  lemma {:induction false} PortsBelowAre(tables: Tables, bound: nat)
    requires bound <= 0x1_0000
    ensures forall p: Port :: p in PortsBelow(tables, bound) <==> p in tables.configs && p < bound
  {
    if bound > 0 { PortsBelowAre(tables, bound - 1); }
  }

  // ---- every other route ----

  function BuildMutation(kind: Terminated, body: Body, view: View): Result<Mutation, DoorAnswer> {
    match kind
    case Create =>
      if !body.ConfigBody? || body.config.port.None? then Err(BadData)
      else
        var port := body.config.port.value;
        Ok(Mutation([PutImposter(body.config, None)], Some(port), FetchAfter(ImposterPath(port), 201), Content))
    case ReplaceAllImposters =>
      if !body.BatchBody? then Err(BadData) else ReplaceAll(body.imposters, ConfiguredPorts(view.tables))
    case PutFleetName =>
      if !body.NameBody? then Err(BadData) else Ok(Mutation([FleetNamePut(body.name)], None, Captured(200), Nothing))
    case DeleteAllImposters =>
      if view.served.None? then Err(InternalError) else Ok(Mutation([DeleteAll], None, Captured(200), Nothing))
    case DeleteOneImposter(port) =>
      if view.served.None? then Err(InternalError)
      else if port !in view.served.value then Err(AlreadyGone)
      else Ok(Mutation([ControlOp.DeleteImposter(port)], Some(port), Captured(200), Nothing))
    case AddStub(port) =>
      if !body.AddStubBody? then Err(BadData)
      else
        Ok(Mutation([PatchStubs(port, [Add(body.stub, body.index)])], Some(port), FetchAfter(ImposterPath(port), 200), Content))
    case AddSpaceStub(port, flow) =>
      if !body.StubBody? || !body.looksLikeAStub then Err(BadData)
      else
        Ok(Mutation([PatchStubs(port, [Add(body.stub.(space := Some(flow)), None)])], Some(port),
                    FetchAfter(ImposterPath(port) + "/spaces/" + flow + "/stubs", 201), Content))
    case ReplaceStubs(port) =>
      if !body.StubsBody? then Err(BadData)
      else
        var config :- StoredConfig(view, port);
        Ok(PutConfigMutation(port, config.(stubs := body.stubs), Content, Some(AllStubs)))
    case ReplaceStubAt(port, index) =>
      var config :- StoredConfig(view, port);
      var at := StubPosition(index, |config.stubs|);
      if at.None? || at.value >= |config.stubs| then Err(NotFound)
      else if !body.StubBody? then Err(BadData)
      else Ok(PutConfigMutation(port, config.(stubs := config.stubs[at.value := body.stub]), Content, Some(StubAt(at.value))))
    case DeleteStubAt(port, index) =>
      var config :- StoredConfig(view, port);
      var at := StubPosition(index, |config.stubs|);
      if at.None? || at.value >= |config.stubs| then Err(NotFound)
      else Ok(PutConfigMutation(port, config.(stubs := Remove(config.stubs, at.value)), Nothing, None))
    case ReplaceStubById(port, id) =>
      if !body.StubBody? then Err(BadData)
      else Ok(Mutation([PatchStubs(port, [ReplaceById(id, body.stub)])], Some(port), FetchAfter(ImposterPath(port), 200), Content))
    case ToggleEnabled(port, enabled) =>
      Ok(Mutation([SetEnabled(port, enabled)], Some(port), Captured(200), Nothing))
    case DeleteStubById(port, id) =>
      Ok(Mutation([PatchStubs(port, [DeleteById(id)])], Some(port), FetchAfter(ImposterPath(port), 200), Nothing))
    case PutRouteTable =>
      if !body.TableBody? then Err(BadData) else Ok(Mutation([PutRoutes(body.table)], None, Captured(200), Nothing))
    case DeleteOneRoute(id) =>
      if id !in view.tables.routes then Err(NotFound)
      else Ok(Mutation([DeleteRoute(id)], None, Captured(200), Nothing))
    case ClearSavedProxyResponses(port) =>
      Ok(Mutation([ProxyRecordedClear(port)], Some(port), FetchAfter(ImposterPath(port), 200), Nothing))
    case SpaceTeardown(_, _) => Err(InternalError)
    case SpacesList(_) => Err(InternalError)
    case TryImposter(_) => Err(InternalError)
    case SpecCompile => Err(InternalError)
  }

  /** `PUT /imposters` restarts every kept imposter unless the query asks to reconcile. */
  function WithRestarts(ops: seq<ControlOp>): seq<ControlOp> {
    seq(|ops|, i requires 0 <= i < |ops| =>
      if ops[i].PutImposter? then ops[i].(restart := Some(Imposter)) else ops[i])
  }

  // ---- the precondition at the door ----

  datatype Precondition = Unconditional | AtRevision(revision: nat) | Absent

  /** `precondition_port`: the subject an `If-Match` must name. */
  function PreconditionPort(m: Mutation): Result<Subject, DoorAnswer> {
    if m.port.Some? then Ok(m.port)
    else if m.ops != [] && forall i :: 0 <= i < |m.ops| ==> TargetOf(m.ops[i]) == Some(WholeRouteTable) then Ok(None)
    else Err(BadData)
  }

  function DoorPrecondition(m: Mutation, ifMatch: Option<string>, createOnly: bool): Result<Precondition, DoorAnswer> {
    match ifMatch
    case Some(raw) =>
      var subject :- PreconditionPort(m);
      var revision := ParseIfMatch(raw, subject);
      if revision.None? then Err(BadData) else Ok(AtRevision(revision.value))
    case None => Ok(if createOnly then Absent else Unconditional)
  }

  // ---- ids and envelopes ----

  const IDEMPOTENCY_NAMESPACE: OpId := Uuid(0x52_49_46_54_2d_45_45_2d_49_44_45_4d_50_4f_54)

  /** `base_op_id`: `parsed` is the trimmed key read as a UUID, `random` a newly drawn one. */
  function BaseOpId(key: Option<string>, parsed: Option<nat>, random: OpId): OpId {
    if key.Some? && Trim(key.value) != "" then
      if parsed.Some? then Uuid(parsed.value) else V5(IDEMPOTENCY_NAMESPACE, KeyText(Trim(key.value)))
    else random
  }

  function OpIdFor(base: OpId, index: nat, total: nat): OpId {
    if total == 1 then base else V5(base, PositionBytes(index))
  }

  /** What reading the clock and serializing gave each op. */
  datatype Stamp = Stamp(issuedAt: U64, size: nat)

  function Mint(id: OpId, op: ControlOp, precondition: Precondition, stamp: Stamp): ControlRequest {
    match precondition
    case Unconditional => ControlRequest(id, stamp.issuedAt, None, false, op, stamp.size)
    case AtRevision(revision) => ControlRequest(id, stamp.issuedAt, Some(revision), false, op, stamp.size)
    case Absent => ControlRequest(id, stamp.issuedAt, None, true, op, stamp.size)
  }

  function Requests(ops: seq<ControlOp>, base: OpId, precondition: Precondition, stamps: seq<Stamp>): seq<ControlRequest>
    requires |stamps| == |ops|
  {
    seq(|ops|, i requires 0 <= i < |ops| => Mint(OpIdFor(base, i, |ops|), ops[i], precondition, stamps[i]))
  }

  /** The payload position of each op of a batch replace, by counting the puts. */
  method BatchIndices(ops: seq<ControlOp>, isBatch: bool) returns (indices: seq<Option<nat>>)
    ensures |indices| == |ops|
    ensures forall i :: 0 <= i < |ops| ==>
              indices[i] == if isBatch && ops[i].PutImposter? then Some(PutsBefore(ops, i)) else None
  {
    var nextPut := 0;
    indices := [];
    for i := 0 to |ops|
      invariant |indices| == i && nextPut == if isBatch then PutsBefore(ops, i) else 0
      invariant forall j :: 0 <= j < i ==>
                  indices[j] == if isBatch && ops[j].PutImposter? then Some(PutsBefore(ops, j)) else None
    {
      if isBatch && ops[i].PutImposter? {
        indices := indices + [Some(nextPut)];
        nextPut := nextPut + 1;
      } else {
        indices := indices + [None];
      }
    }
  }

  /** How many of the first `k` ops are puts. */
  function PutsBefore(ops: seq<ControlOp>, k: nat): nat
    requires k <= |ops|
  {
    if k == 0 then 0 else PutsBefore(ops, k - 1) + if ops[k - 1].PutImposter? then 1 else 0
  }

  // ---- laws of building ----

  lemma {:induction false} PrunesAreDeletes(existing: seq<Port>, keep: set<Port>)
    ensures forall i :: 0 <= i < |Prunes(existing, keep)| ==>
              && Prunes(existing, keep)[i].DeleteImposter?
              && Prunes(existing, keep)[i].port !in keep && Prunes(existing, keep)[i].port in existing
    ensures forall p :: p in existing && p !in keep ==> ControlOp.DeleteImposter(p) in Prunes(existing, keep)
  {
    if existing != [] { PrunesAreDeletes(existing[..|existing| - 1], keep); }
  }

  lemma {:induction false} PutsBeforeUpserts(imposters: seq<ImposterConfig>, rest: seq<ControlOp>, k: nat)
    requires k <= |imposters|
    ensures PutsBefore(Upserts(imposters) + rest, k) == k
  {
    if k > 0 { PutsBeforeUpserts(imposters, rest, k - 1); }
  }

  /** Counting puts labels each upsert of a batch with its position in the request body, and a
      prune with nothing. */
  lemma BatchIndexIsBodyPosition(imposters: seq<ImposterConfig>, existing: seq<Port>, i: nat)
    requires AllPorted(imposters) && i < |ReplaceAllOps(imposters, existing)|
    ensures var ops := ReplaceAllOps(imposters, existing);
            ops[i].PutImposter? <==> i < |imposters|
    ensures var ops := ReplaceAllOps(imposters, existing);
            ops[i].PutImposter? ==> PutsBefore(ops, i) == i && ops[i].config == imposters[i]
  {
    if imposters != [] {
      var keep := Kept(imposters);
      PrunesAreDeletes(existing, keep);
      if i < |imposters| { PutsBeforeUpserts(imposters, Prunes(existing, keep), i); }
    }
  }

  /** A mutation of two or more ops is a whole-set replace, and every op in it is a put or a
      delete of one port: the ops that can run twice. */
  lemma MultiOpIsIdempotent(kind: Terminated, body: Body, view: View)
    requires BuildMutation(kind, body, view).Ok?
    ensures var m := BuildMutation(kind, body, view).value;
            && m.ops != []
            && (|m.ops| >= 2 ==> kind.ReplaceAllImposters?)
            && (|m.ops| >= 2 ==> forall i :: 0 <= i < |m.ops| ==> m.ops[i].PutImposter? || m.ops[i].DeleteImposter?)
  {
    if kind.ReplaceAllImposters? {
      var existing := ConfiguredPorts(view.tables);
      if body.imposters != [] {
        PrunesAreDeletes(existing, Kept(body.imposters));
        assert Upserts(body.imposters) != [];
      }
    }
  }

  /** Running such an op again changes no config: only the stamp moves. */
  lemma PutAndDeleteRunTwice(t: Tables, op: ControlOp, first: nat, second: nat)
    requires op.PutImposter? || op.DeleteImposter?
    requires Mutate(t, op, first).Ok?
    ensures var once := Mutate(t, op, first).value;
            Mutate(once, op, second).Ok? && Contents(Mutate(once, op, second).value) == Contents(once)
  {}

  /** The fleet's configs, without the revisions that stamp them. */
  function Contents(t: Tables): map<Port, ImposterConfig> {
    map p | p in t.configs :: t.configs[p].config
  }

  lemma MultiOpHasNoSubject(kind: Terminated, body: Body, view: View)
    requires BuildMutation(kind, body, view).Ok? && |BuildMutation(kind, body, view).value.ops| >= 2
    ensures PreconditionPort(BuildMutation(kind, body, view).value) == Err(BadData)
    ensures kind.ReplaceAllImposters?
  {
    var m := BuildMutation(kind, body, view).value;
    MultiOpIsIdempotent(kind, body, view);
    assert TargetOf(m.ops[0]) != Some(WholeRouteTable);
  }

  /** A revision or absence precondition is only ever minted onto a mutation of one op.  Where a
      revision is minted, that op's own target is the record the token named, with one exception:
      clearing saved proxy responses has a port at the door and no target at apply. */
  lemma PreconditionsAreSingleOp(kind: Terminated, body: Body, view: View, ifMatch: Option<string>)
    requires BuildMutation(kind, body, view).Ok?
    requires var m := BuildMutation(kind, body, view).value;
             DoorPrecondition(m, ifMatch, kind.Create?).Ok? && DoorPrecondition(m, ifMatch, kind.Create?).value != Unconditional
    ensures var m := BuildMutation(kind, body, view).value;
            && |m.ops| == 1
            && (DoorPrecondition(m, ifMatch, kind.Create?).value.Absent? ==> kind.Create? && TargetOf(m.ops[0]) == Some(ImposterRow(m.port.value)))
            && (kind.ClearSavedProxyResponses? ==> TargetOf(m.ops[0]).None?)
            && (ifMatch.Some? && !kind.ClearSavedProxyResponses? && ConfigsKnowTheirPort(view.tables) ==>
                  TargetOf(m.ops[0]) == Some(if m.port.Some? then ImposterRow(m.port.value) else WholeRouteTable))
  {
    MultiOpIsIdempotent(kind, body, view);
    if |BuildMutation(kind, body, view).value.ops| >= 2 { MultiOpHasNoSubject(kind, body, view); }
  }

  /** The config stored on a port names that port. */
  ghost predicate ConfigsKnowTheirPort(t: Tables) {
    forall p :: p in t.configs ==> t.configs[p].config.port == Some(p)
  }

  /** The exception at work: an `If-Match` that the door accepts on a clear is refused at apply in
      every state, whatever revision the port is at. */
  lemma ConditionedClearNeverApplies(port: Port, raw: string, body: Body, view: View, t: Tables, id: OpId, stamp: Stamp, index: nat)
    requires port != 0
    ensures var m := BuildMutation(ClearSavedProxyResponses(port), body, view).value;
            var door := DoorPrecondition(m, Some(raw), false);
            && (door.Ok? <==> ParseIfMatch(raw, Some(port)).Some?)
            && (door.Ok? ==> Execute(t, Mint(id, m.ops[0], door.value, stamp), index) == Err(RevisionConflict))
  {
    assert BuildMutation(ClearSavedProxyResponses(port), body, view).value.ops == [ProxyRecordedClear(port)];
  }

  /** Apply could hold a revision against the mutation: it is one op, and the op has a target. */
  predicate Conditionable(m: Mutation) {
    |m.ops| == 1 && TargetOf(m.ops[0]).Some?
  }

  /** A whole-set replace that comes down to one put: one config, and nothing known to prune. */
  predicate IsLonePut(kind: Terminated, m: Mutation) {
    kind.ReplaceAllImposters? && |m.ops| == 1 && m.ops[0].PutImposter?
  }

  /** The door and apply agree on what an `If-Match` can condition on every route but two: clearing
      saved proxy responses, where the door lets through what apply always refuses, and a whole-set
      replace of one config with nothing to prune, where the door refuses what apply could
      condition.  Where they agree that it can, they mean the same record. */
  lemma DoorAndApplyAgreeIff(kind: Terminated, body: Body, view: View)
    requires BuildMutation(kind, body, view).Ok? && ConfigsKnowTheirPort(view.tables)
    ensures var m := BuildMutation(kind, body, view).value;
            && ((PreconditionPort(m).Ok? <==> Conditionable(m)) <==> !kind.ClearSavedProxyResponses? && !IsLonePut(kind, m))
            && (kind.ClearSavedProxyResponses? ==> PreconditionPort(m).Ok? && !Conditionable(m))
            && (IsLonePut(kind, m) ==> PreconditionPort(m) == Err(BadData) && Conditionable(m))
            && (PreconditionPort(m).Ok? && Conditionable(m) ==>
                  TargetOf(m.ops[0]) == Some(if m.port.Some? then ImposterRow(m.port.value) else WholeRouteTable))
  {
    var m := BuildMutation(kind, body, view).value;
    MultiOpIsIdempotent(kind, body, view);
    if |m.ops| >= 2 {
      MultiOpHasNoSubject(kind, body, view);
    } else {
      SingleOpSubject(m);
      if kind.ReplaceAllImposters? { LoneReplace(body.imposters, ConfiguredPorts(view.tables)); }
    }
  }

  lemma SingleOpSubject(m: Mutation)
    requires |m.ops| == 1
    ensures PreconditionPort(m) ==
            if m.port.Some? || TargetOf(m.ops[0]) == Some(WholeRouteTable) then Ok(m.port) else Err(BadData)
  {
    assert m.ops[0] == m.ops[0];
  }

  lemma LoneReplace(imposters: seq<ImposterConfig>, existing: seq<Port>)
    requires AllPorted(imposters) && |ReplaceAllOps(imposters, existing)| == 1
    ensures imposters == [] ==> ReplaceAllOps(imposters, existing) == [DeleteAll]
    ensures imposters != [] ==> ReplaceAllOps(imposters, existing) == [PutImposter(imposters[0], None)] && |imposters| == 1
  {
    if imposters != [] { assert |Upserts(imposters)| == |imposters|; }
  }

  /** The second exception at work: the door refuses every `If-Match` on a replace of one config with
      nothing to prune, though the same op, conditioned, applies exactly at the revision it names. */
  lemma LonePutIsRefusedAtTheDoor(config: ImposterConfig, view: View, raw: string, t: Tables, id: OpId, revision: nat, stamp: Stamp, index: nat)
    requires ValidateConfig(config).Ok? && forall p :: p in view.tables.configs ==> Some(p) == config.port
    ensures var built := BuildMutation(ReplaceAllImposters, BatchBody([config]), view);
            && built.Ok? && built.value.ops == [PutImposter(config, None)]
            && DoorPrecondition(built.value, Some(raw), false) == Err(BadData)
            && (Execute(t, Mint(id, built.value.ops[0], AtRevision(revision), stamp), index).Ok? <==>
                  config.port.value in t.configs && t.configs[config.port.value].revision == revision)
  {
    LoneOps(config, view);
    SingleOpSubject(BuildMutation(ReplaceAllImposters, BatchBody([config]), view).value);
  }

  lemma LoneOps(config: ImposterConfig, view: View)
    requires config.port.Some? && forall p :: p in view.tables.configs ==> Some(p) == config.port
    ensures AllPorted([config]) && ReplaceAllOps([config], ConfiguredPorts(view.tables)) == [PutImposter(config, None)]
  {
    var existing := ConfiguredPorts(view.tables);
    PortsBelowAre(view.tables, 0x1_0000);
    assert [config][..0] == [];
    assert PortsOf([config]) == [config.port.value];
    NothingToPrune(existing, Kept([config]));
    assert Upserts([config]) == [PutImposter(config, None)];
  }

  lemma {:induction false} NothingToPrune(existing: seq<Port>, keep: set<Port>)
    requires forall p :: p in existing ==> p in keep
    ensures Prunes(existing, keep) == []
  {
    if existing != [] { NothingToPrune(existing[..|existing| - 1], keep); }
  }

  /** No op of a multi-op write is refused at apply, whatever the tables hold by then: the door has
      validated them all, none is conditioned, and a put or a delete needs nothing of the tables. */
  lemma MultiOpIsNeverRefused(kind: Terminated, body: Body, view: View, ifMatch: Option<string>, base: OpId, stamps: seq<Stamp>,
                              i: nat, t: Tables, index: nat)
    requires BuildMutation(kind, body, view).Ok?
    requires var ops := BuildMutation(kind, body, view).value.ops;
             |ops| >= 2 && |stamps| == |ops| && i < |ops| && Validate(ops[i]).Ok?
    requires DoorPrecondition(BuildMutation(kind, body, view).value, ifMatch, kind.Create?).Ok?
    ensures var m := BuildMutation(kind, body, view).value;
            var precondition := DoorPrecondition(m, ifMatch, kind.Create?).value;
            Execute(t, Requests(m.ops, base, precondition, stamps)[i], index).Ok?
  {
    var m := BuildMutation(kind, body, view).value;
    MultiOpIsIdempotent(kind, body, view);
    if DoorPrecondition(m, ifMatch, kind.Create?).value != Unconditional {
      PreconditionsAreSingleOp(kind, body, view, ifMatch);
      assert false;
    }
    PutAndDeleteNeedNothing(t, Requests(m.ops, base, Unconditional, stamps)[i], index);
  }

  lemma PutAndDeleteNeedNothing(t: Tables, request: ControlRequest, index: nat)
    requires request.op.PutImposter? || request.op.DeleteImposter?
    requires Validate(request.op).Ok? && request.expectedRevision.None? && !request.expectAbsent
    ensures Execute(t, request, index) == Mutate(t, request.op, index)
    ensures Execute(t, request, index).Ok?
  {}

  // ---- laws of ids ----

  /** The ids of one mutation are pairwise distinct, and two attempts under one key give op `i`
      the same id exactly when both or neither are single-op. */
  lemma OpIdLaws(base: OpId, i: nat, j: nat, total: nat, again: nat)
    requires i < total && j < total && i < again
    ensures OpIdFor(base, i, total) == OpIdFor(base, j, total) ==> i == j
    ensures OpIdFor(base, i, total) == OpIdFor(base, i, again) <==> (total == 1) == (again == 1)
  {
    NoV5IsItsOwnSpace(base, PositionBytes(i));
  }

  lemma {:induction false} NoV5IsItsOwnSpace(base: OpId, name: Hashed)
    ensures V5(base, name) != base
  {
    if base.V5? { NoV5IsItsOwnSpace(base.space, base.name); }
  }
}
