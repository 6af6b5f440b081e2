/** From the request to the tables: what each op of a route leaves once it is applied, said without
    the op (crates/rift-cluster-server/src/admin_front.rs, crates/rift-cluster/src/raft/store.rs).

    The ops are built from one node's view and applied to the tables at their log positions, which
    may be ahead of that view.
 */
module RouteEffects {
  import opened Text
  import opened Control
  import opened StateMachine
  import opened Dedup
  import opened Revisions
  import opened Recording
  import opened StubIds
  import opened Routing
  import opened Mutation
  import opened Building
  import opened StubEdits

  /** The ops a route commits, in order; none for a route that only reads or was refused at the door. */
  function Committed(kind: Terminated, body: Body, view: View, reconcile: bool): seq<ControlOp> {
    match kind
    case SpaceTeardown(port, flow) => [PatchStubs(port, [DeleteBySpace(flow)])]
    case _ =>
      if BuildMutation(kind, body, view).Err? then [] else Handed(kind, body, view, reconcile).ops
  }

  predicate OnlyReads(kind: Terminated) {
    kind.SpacesList? || kind.TryImposter? || kind.SpecCompile?
  }

  ghost function StubsOn(t: Tables, port: Port): seq<Stub> {
    if port in t.configs then t.configs[port].config.stubs else []
  }

  /** The stub list gained `stub` at `at`, and nothing else. */
  ghost predicate Gained(before: seq<Stub>, after: seq<Stub>, at: nat, stub: Stub) {
    && at <= |before| && |after| == |before| + 1 && after[at] == stub
    && (forall i :: 0 <= i < at ==> after[i] == before[i])
    && (forall i :: at < i < |after| ==> after[i] == before[i - 1])
  }

  /** The stub list lost the stub at `at`, and nothing else. */
  ghost predicate Lost(before: seq<Stub>, after: seq<Stub>, at: nat) {
    && at < |before| && |after| + 1 == |before|
    && (forall i :: 0 <= i < at ==> after[i] == before[i])
    && (forall i :: at <= i < |after| ==> after[i] == before[i + 1])
  }

  /** Only the stub list of the row on `port` changed, and the row carries the new revision. */
  ghost predicate OnlyStubsChanged(before: Tables, after: Tables, port: Port, index: nat) {
    && port in before.configs && port in after.configs
    && after.configs[port] ==
       before.configs[port].(config := before.configs[port].config.(stubs := StubsOn(after, port)), revision := index)
  }

  ghost predicate HasNoId(stubs: seq<Stub>, id: string) {
    forall i :: 0 <= i < |stubs| ==> stubs[i].id != Some(id)
  }

  /** The stub at `at`, which carried the id, was replaced by `stub` under the same id. */
  ghost predicate ReplacedAt(before: seq<Stub>, after: seq<Stub>, id: string, stub: Stub, at: nat) {
    at < |before| && before[at].id == Some(id) && after == before[at := stub.(id := Some(id))]
  }

  ghost predicate LostWithId(before: seq<Stub>, after: seq<Stub>, id: string, at: nat) {
    Lost(before, after, at) && before[at].id == Some(id)
  }

  /** The table is exactly the routes listed, each under its own id, the last listed of an id. */
  ghost predicate IsTableOf(routes: map<string, Route>, listed: seq<Route>) {
    && (forall i :: 0 <= i < |listed| ==> listed[i].id in routes)
    && (forall i :: 0 <= i < |listed| && LastOfItsId(listed, i) ==> routes[listed[i].id] == listed[i])
    && (forall id :: id in routes ==> routes[id] in listed && routes[id].id == id)
  }

  ghost predicate LastOfItsId(listed: seq<Route>, i: nat)
    requires i < |listed|
  {
    forall j :: i < j < |listed| ==> listed[j].id != listed[i].id
  }

  /** Neither a row nor a marker on `port`. */
  ghost predicate Gone(t: Tables, port: Port) {
    port !in t.configs && forall hash :: (port, hash) !in t.markers
  }

  /** The row on `port` is the one the view held with another stub list, and carries the new
      revision. */
  ghost predicate OnlyViewedStubsChanged(view: View, after: Tables, port: Port, index: nat) {
    && port in view.tables.configs && port in after.configs
    && var config := view.tables.configs[port].config;
       after.configs[port] == Record(config.(stubs := StubsOn(after, port)), config.enabled, index)
  }

  function OutsideSpace(stubs: seq<Stub>, space: string): seq<bool> {
    seq(|stubs|, i requires 0 <= i < |stubs| => stubs[i].space != Some(space))
  }

  function NotRecorded(responses: seq<StubResponse>): seq<bool> {
    seq(|responses|, i requires 0 <= i < |responses| => !IsRecorded(responses[i]))
  }

  /** A clear keeps a stub that still has something to answer once its recordings are gone, and a
      stub without recordings unless it is marked as recorded. */
  predicate Survives(stub: Stub) {
    if AnyRecorded(stub.responses) then exists i :: 0 <= i < |stub.responses| && !IsRecorded(stub.responses[i])
    else stub.recordedFrom.None?
  }

  function Surviving(stubs: seq<Stub>): seq<bool> {
    seq(|stubs|, i requires 0 <= i < |stubs| => Survives(stubs[i]))
  }

  /** The stub without its recorded responses. */
  ghost predicate Purged(before: Stub, after: Stub) {
    && after == before.(responses := after.responses)
    && exists from :: Picked(before.responses, after.responses, NotRecorded(before.responses), from)
  }

  /** The stub list holds the survivors, each without its recorded responses. */
  ghost predicate Cleared(before: seq<Stub>, after: seq<Stub>, purged: seq<Stub>, from: seq<nat>) {
    && |purged| == |before| && (forall i :: 0 <= i < |before| ==> Purged(before[i], purged[i]))
    && Picked(purged, after, Surviving(before), from)
  }

  /** What a client of the route may rely on once op `k` of it is applied. */
  ghost predicate Means(kind: Terminated, body: Body, view: View, k: nat, before: Tables, after: Tables, index: nat) {
    match kind
    case Create =>
      && body.ConfigBody? && body.config.port.Some? && body.config.port.value in after.configs
      && after.configs[body.config.port.value] == Record(body.config, body.config.enabled, index)
    case ReplaceAllImposters => body.BatchBody? && ReplaceMeans(body.imposters, view, k, after, index)
    case PutFleetName => body.NameBody? && after.fleetName == Some(body.name)
    case DeleteAllImposters => after.configs == map[] && after.markers == map[]
    case DeleteOneImposter(port) => Gone(after, port)
    case AddStub(port) =>
      && body.AddStubBody? && OnlyStubsChanged(before, after, port, index)
      && (body.stub.id.Some? ==> HasNoId(StubsOn(before, port), body.stub.id.value))
      && Gained(StubsOn(before, port), StubsOn(after, port),
                if body.index.Some? then Least(body.index.value, |StubsOn(before, port)|) else |StubsOn(before, port)|, body.stub)
    case AddSpaceStub(port, flow) =>
      && body.StubBody? && OnlyStubsChanged(before, after, port, index)
      && Gained(StubsOn(before, port), StubsOn(after, port), |StubsOn(before, port)|, body.stub.(space := Some(flow)))
    case ReplaceStubs(port) =>
      body.StubsBody? && OnlyViewedStubsChanged(view, after, port, index) && StubsOn(after, port) == body.stubs
    case ReplaceStubAt(port, text) =>
      && body.StubBody? && OnlyViewedStubsChanged(view, after, port, index)
      && exists at: nat :: PutAt(StubsOn(view.tables, port), StubsOn(after, port), text, at, body.stub)
    case DeleteStubAt(port, text) =>
      && OnlyViewedStubsChanged(view, after, port, index)
      && exists at: nat :: Decimal(at) == text && Lost(StubsOn(view.tables, port), StubsOn(after, port), at)
    case ReplaceStubById(port, id) =>
      && body.StubBody? && OnlyStubsChanged(before, after, port, index)
      && exists at: nat :: ReplacedAt(StubsOn(before, port), StubsOn(after, port), id, body.stub, at)
    case DeleteStubById(port, id) =>
      && OnlyStubsChanged(before, after, port, index)
      && (exists at: nat :: LostWithId(StubsOn(before, port), StubsOn(after, port), id, at))
      && (UniqueIds(StubsOn(before, port)) ==> HasNoId(StubsOn(after, port), id))
    case ToggleEnabled(port, enabled) =>
      && port in before.configs && port in after.configs
      && after.configs[port] == Record(before.configs[port].config.(enabled := enabled), enabled, index)
    case PutRouteTable => body.TableBody? && RoutesRevision(after) == index && IsTableOf(after.routes, body.table.routes)
    case DeleteOneRoute(id) => after.routes == before.routes - {id} && RoutesRevision(after) == index
    case ClearSavedProxyResponses(port) =>
      && (forall hash :: (port, hash) !in after.markers)
      && (exists purged, from :: Cleared(StubsOn(before, port), StubsOn(after, port), purged, from))
      && (StubsOn(after, port) != StubsOn(before, port) ==> OnlyStubsChanged(before, after, port, index))
      && (StubsOn(after, port) == StubsOn(before, port) ==> after.configs == before.configs)
    case SpaceTeardown(port, flow) =>
      && OnlyStubsChanged(before, after, port, index)
      && exists from :: Picked(StubsOn(before, port), StubsOn(after, port), OutsideSpace(StubsOn(before, port), flow), from)
    case SpacesList(_) => after == before
    case TryImposter(_) => after == before
    case SpecCompile => after == before
  }

  /** The ports below `bound` that the tables hold and the body leaves out. */
  ghost function StaleBelow(t: Tables, keep: set<Port>, bound: nat): set<Port> {
    set p | p in t.configs && p !in keep && p < bound
  }

  /** The port is stale, and exactly `rank` stale ports are lower. */
  ghost predicate IsStaleAt(t: Tables, keep: set<Port>, port: Port, rank: nat) {
    port in t.configs && port !in keep && |StaleBelow(t, keep, port)| == rank
  }

  /** Op `k` of a whole-set replace: an empty body leaves nothing; otherwise the body's configs first,
      each as given, then the ports this node knew and the body left out, each gone, the lowest
      first. */
  ghost predicate ReplaceMeans(imposters: seq<ImposterConfig>, view: View, k: nat, after: Tables, index: nat) {
    && AllPorted(imposters)
    && (imposters == [] ==> after.configs == map[] && after.markers == map[])
    && (k < |imposters| ==>
          && imposters[k].port.value in after.configs
          && after.configs[imposters[k].port.value] == Record(imposters[k], imposters[k].enabled, index))
    && (0 < |imposters| <= k ==>
          exists port :: IsStaleAt(view.tables, Kept(imposters), port, k - |imposters|) && Gone(after, port))
  }

  function Least(a: nat, b: nat): nat { if a < b then a else b }

  /** The position the text spells now holds `stub`. */
  ghost predicate PutAt(before: seq<Stub>, after: seq<Stub>, text: string, at: nat, stub: Stub) {
    Decimal(at) == text && at < |before| && after == before[at := stub]
  }

  lemma {:induction false} TableHoldsTheLast(routes: seq<Route>, i: nat)
    requires i < |routes| && LastOfItsId(routes, i)
    ensures routes[i].id in TableOf(routes) && TableOf(routes)[routes[i].id] == routes[i]
  {
    var front := routes[..|routes| - 1];
    if i < |front| {
      assert routes[|front|].id != routes[i].id && front[i] == routes[i];
      TableHoldsTheLast(front, i);
    }
  }

  lemma {:induction false} TableHoldsOnlyRoutes(routes: seq<Route>)
    ensures forall i :: 0 <= i < |routes| ==> routes[i].id in TableOf(routes)
    ensures forall id :: id in TableOf(routes) ==> TableOf(routes)[id] in routes && TableOf(routes)[id].id == id
  {
    if routes != [] {
      TableHoldsOnlyRoutes(routes[..|routes| - 1]);
      assert forall r :: r in routes[..|routes| - 1] ==> r in routes;
    }
  }

  lemma TableHoldsItsRoutes(routes: seq<Route>)
    ensures IsTableOf(TableOf(routes), routes)
  {
    TableHoldsOnlyRoutes(routes);
    forall i | 0 <= i < |routes| && LastOfItsId(routes, i) ensures TableOf(routes)[routes[i].id] == routes[i] {
      TableHoldsTheLast(routes, i);
    }
  }

  lemma {:induction false} SpaceIsLost(stubs: seq<Stub>, space: string) returns (from: seq<nat>)
    ensures Picked(stubs, WithoutSpace(stubs, space), OutsideSpace(stubs, space), from)
  {
    if stubs == [] {
      from := [];
    } else {
      var rest := SpaceIsLost(stubs[1..], space);
      var kept, mask := stubs[0].space != Some(space), OutsideSpace(stubs[1..], space);
      PickedWithHead(stubs[0], stubs[1..], WithoutSpace(stubs[1..], space), kept, mask, rest);
      from := Shifted(rest, kept);
      assert [stubs[0]] + stubs[1..] == stubs && [kept] + mask == OutsideSpace(stubs, space);
    }
  }

  lemma {:induction false} RecordedAreLost(responses: seq<StubResponse>) returns (from: seq<nat>)
    ensures Picked(responses, Unrecorded(responses), NotRecorded(responses), from)
  {
    if responses == [] {
      from := [];
    } else {
      var rest := RecordedAreLost(responses[1..]);
      var kept, mask := !IsRecorded(responses[0]), NotRecorded(responses[1..]);
      PickedWithHead(responses[0], responses[1..], Unrecorded(responses[1..]), kept, mask, rest);
      from := Shifted(rest, kept);
      assert [responses[0]] + responses[1..] == responses && [kept] + mask == NotRecorded(responses);
    }
  }

  function Purge(stub: Stub): Stub { stub.(responses := Unrecorded(stub.responses)) }

  lemma PurgeIsPurged(stub: Stub)
    ensures Purged(stub, Purge(stub))
  {
    var from := RecordedAreLost(stub.responses);
  }

  lemma StripKeepsSurvivor(stub: Stub)
    ensures StripOne(stub) == if Survives(stub) then [Purge(stub)] else []
  {
    var from := RecordedAreLost(stub.responses);
    UnrecordedShape(stub.responses);
    if from != [] { assert !IsRecorded(stub.responses[from[0]]); }
    if Survives(stub) && AnyRecorded(stub.responses) {
      var i :| 0 <= i < |stub.responses| && !IsRecorded(stub.responses[i]);
      assert i in from;
    }
  }

  function PurgeAll(stubs: seq<Stub>): seq<Stub> {
    seq(|stubs|, i requires 0 <= i < |stubs| => Purge(stubs[i]))
  }

  lemma {:induction false} StrippedIsPicked(stubs: seq<Stub>) returns (from: seq<nat>)
    ensures Picked(PurgeAll(stubs), Stripped(stubs), Surviving(stubs), from)
  {
    if stubs == [] {
      from := [];
    } else {
      var rest := StrippedIsPicked(stubs[1..]);
      StrippedWithHead(stubs);
      PurgedWithHead(stubs);
      SurvivingWithHead(stubs);
      PickedWithHead(Purge(stubs[0]), PurgeAll(stubs[1..]), Stripped(stubs[1..]), Survives(stubs[0]), Surviving(stubs[1..]), rest);
      from := Shifted(rest, Survives(stubs[0]));
    }
  }

  lemma StrippedWithHead(stubs: seq<Stub>)
    requires stubs != []
    ensures Stripped(stubs) == (if Survives(stubs[0]) then [Purge(stubs[0])] else []) + Stripped(stubs[1..])
  {
    StripKeepsSurvivor(stubs[0]);
  }

  lemma PurgedWithHead(stubs: seq<Stub>)
    requires stubs != []
    ensures PurgeAll(stubs) == [Purge(stubs[0])] + PurgeAll(stubs[1..])
  {}

  lemma SurvivingWithHead(stubs: seq<Stub>)
    requires stubs != []
    ensures Surviving(stubs) == [Survives(stubs[0])] + Surviving(stubs[1..])
  {}

  lemma ClearKeepsSurvivors(stubs: seq<Stub>) returns (purged: seq<Stub>, from: seq<nat>)
    ensures Cleared(stubs, Stripped(stubs), purged, from)
  {
    purged := PurgeAll(stubs);
    from := StrippedIsPicked(stubs);
    forall i | 0 <= i < |stubs| ensures Purged(stubs[i], purged[i]) { PurgeIsPurged(stubs[i]); }
  }

  lemma StaleBelowNext(t: Tables, keep: set<Port>, p: Port)
    ensures |StaleBelow(t, keep, p + 1)| == |StaleBelow(t, keep, p)| + if p in t.configs && p !in keep then 1 else 0
  {
    assert StaleBelow(t, keep, p + 1) == StaleBelow(t, keep, p) + if p in t.configs && p !in keep then {p} else {};
  }

  lemma PrunesNext(t: Tables, keep: set<Port>, p: Port)
    ensures Prunes(PortsBelow(t, p + 1), keep) ==
            Prunes(PortsBelow(t, p), keep) + if p in t.configs && p !in keep then [ControlOp.DeleteImposter(p)] else []
  {
    var before := PortsBelow(t, p);
    if p in t.configs { assert (before + [p])[..|before|] == before; } else { assert before + [] == before; }
  }

  lemma {:induction false} PrunesCountStale(t: Tables, keep: set<Port>, bound: nat)
    requires bound <= 0x1_0000
    ensures |Prunes(PortsBelow(t, bound), keep)| == |StaleBelow(t, keep, bound)|
  {
    if bound == 0 {
      assert StaleBelow(t, keep, 0) == {};
    } else {
      PrunesCountStale(t, keep, bound - 1);
      StaleBelowNext(t, keep, bound - 1);
      PrunesNext(t, keep, bound - 1);
    }
  }

  /** The prunes delete the stale ports, the lowest first. */
  lemma {:induction false} PrunesByRank(t: Tables, keep: set<Port>, bound: nat, rank: nat) returns (port: Port)
    requires bound <= 0x1_0000 && rank < |Prunes(PortsBelow(t, bound), keep)|
    ensures IsStaleAt(t, keep, port, rank) && Prunes(PortsBelow(t, bound), keep)[rank] == ControlOp.DeleteImposter(port)
  {
    PrunesNext(t, keep, bound - 1);
    if rank < |Prunes(PortsBelow(t, bound - 1), keep)| {
      port := PrunesByRank(t, keep, bound - 1, rank);
    } else {
      port := bound - 1;
      PrunesCountStale(t, keep, bound - 1);
    }
  }

  lemma AddGains(stubs: seq<Stub>, stub: Stub, index: Option<nat>)
    requires EditStep(stubs, Add(stub, index)).Ok?
    ensures Gained(stubs, EditStep(stubs, Add(stub, index)).value, if index.Some? then Least(index.value, |stubs|) else |stubs|, stub)
    ensures stub.id.Some? ==> HasNoId(stubs, stub.id.value)
  {}

  lemma ReplaceReplaces(stubs: seq<Stub>, id: string, stub: Stub)
    requires EditStep(stubs, ReplaceById(id, stub)).Ok?
    ensures ReplacedAt(stubs, EditStep(stubs, ReplaceById(id, stub)).value, id, stub, PositionOfId(stubs, id).value)
  {}

  lemma DeleteLoses(stubs: seq<Stub>, id: string)
    requires EditStep(stubs, DeleteById(id)).Ok?
    ensures LostWithId(stubs, EditStep(stubs, DeleteById(id)).value, id, PositionOfId(stubs, id).value)
    ensures UniqueIds(stubs) ==> HasNoId(EditStep(stubs, DeleteById(id)).value, id)
  {
    if UniqueIds(stubs) { RemoveKeepsIdsUnique(stubs, PositionOfId(stubs, id).value); }
  }

  /** A script of one step leaves what the step leaves. */
  lemma OneStep(stubs: seq<Stub>, step: StubEdit)
    ensures Edited(stubs, [step]) == EditStep(stubs, step)
  {
    assert [step][1..] == [];
  }

  lemma PatchMeans(t: Tables, port: Port, step: StubEdit, index: nat)
    requires Mutate(t, PatchStubs(port, [step]), index).Ok?
    ensures var after := Mutate(t, PatchStubs(port, [step]), index).value;
            && OnlyStubsChanged(t, after, port, index)
            && EditStep(StubsOn(t, port), step) == Ok(StubsOn(after, port))
  {
    OneStep(t.configs[port].config.stubs, step);
  }

  predicate IsPatch(kind: Terminated) {
    kind.AddStub? || kind.AddSpaceStub? || kind.ReplaceStubById? || kind.DeleteStubById? || kind.SpaceTeardown?
  }

  lemma PatchRouteCommits(kind: Terminated, body: Body, view: View, reconcile: bool)
    requires IsPatch(kind) && Committed(kind, body, view, reconcile) != []
    ensures var ops := Committed(kind, body, view, reconcile);
            && |ops| == 1 && ops[0].PatchStubs? && ops[0].port == kind.port && |ops[0].script| == 1
            && (kind.AddStub? ==> body.AddStubBody? && ops[0].script[0] == Add(body.stub, body.index))
            && (kind.AddSpaceStub? ==> body.StubBody? && ops[0].script[0] == Add(body.stub.(space := Some(kind.flow)), None))
            && (kind.ReplaceStubById? ==> body.StubBody? && ops[0].script[0] == ReplaceById(kind.id, body.stub))
            && (kind.DeleteStubById? ==> ops[0].script[0] == DeleteById(kind.id))
            && (kind.SpaceTeardown? ==> ops[0].script[0] == DeleteBySpace(kind.flow))
  {}

  lemma PatchRouteMeans(kind: Terminated, body: Body, view: View, reconcile: bool, k: nat, t: Tables, index: nat)
    requires IsPatch(kind) && k < |Committed(kind, body, view, reconcile)|
    requires Mutate(t, Committed(kind, body, view, reconcile)[k], index).Ok?
    ensures Means(kind, body, view, k, t, Mutate(t, Committed(kind, body, view, reconcile)[k], index).value, index)
  {
    PatchRouteCommits(kind, body, view, reconcile);
    var op := Committed(kind, body, view, reconcile)[k];
    var stubs, step := StubsOn(t, kind.port), op.script[0];
    assert op == PatchStubs(kind.port, [step]);
    PatchMeans(t, kind.port, step, index);
    match step
    case Add(stub, at) => AddGains(stubs, stub, at);
    case ReplaceById(id, stub) => ReplaceReplaces(stubs, id, stub);
    case DeleteById(id) => DeleteLoses(stubs, id);
    case DeleteBySpace(space) => var from := SpaceIsLost(stubs, space);
  }

  lemma RemoveLoses(stubs: seq<Stub>, at: nat)
    requires at < |stubs|
    ensures Lost(stubs, Remove(stubs, at), at)
  {}

  predicate IsEdit(kind: Terminated) {
    kind.ReplaceStubs? || kind.ReplaceStubAt? || kind.DeleteStubAt?
  }

  /** What the read-then-write routes put: the edit of the config this node has applied. */
  lemma EditRoutePuts(kind: Terminated, body: Body, view: View, reconcile: bool, stubs: seq<Stub>)
    requires IsEdit(kind) && Committed(kind, body, view, reconcile) != []
    requires ConfigsKnowTheirPort(view.tables) && stubs == StubsOn(view.tables, kind.port)
    ensures kind.port in view.tables.configs
    ensures var ops := Committed(kind, body, view, reconcile);
            && |ops| == 1 && ops[0].PutImposter? && ops[0].config.port == Some(kind.port)
            && ops[0].config == view.tables.configs[kind.port].config.(stubs := ops[0].config.stubs)
            && (kind.ReplaceStubs? ==> body.StubsBody? && ops[0].config.stubs == body.stubs)
            && (!kind.ReplaceStubs? ==> StubPosition(kind.index, |stubs|).Some? && StubPosition(kind.index, |stubs|).value < |stubs|)
            && (kind.ReplaceStubAt? ==> body.StubBody? && ops[0].config.stubs == stubs[StubPosition(kind.index, |stubs|).value := body.stub])
            && (kind.DeleteStubAt? ==> ops[0].config.stubs == Remove(stubs, StubPosition(kind.index, |stubs|).value))
  {}

  lemma PutLeavesRow(t: Tables, op: ControlOp, port: Port, index: nat)
    requires op.PutImposter? && op.config.port == Some(port)
    ensures Mutate(t, op, index).Ok? && port in Mutate(t, op, index).value.configs
    ensures Mutate(t, op, index).value.configs[port] == Record(op.config, op.config.enabled, index)
  {}

  lemma EditRouteMeans(kind: Terminated, body: Body, view: View, reconcile: bool, k: nat, t: Tables, index: nat)
    requires IsEdit(kind) && k < |Committed(kind, body, view, reconcile)| && ConfigsKnowTheirPort(view.tables)
    requires Mutate(t, Committed(kind, body, view, reconcile)[k], index).Ok?
    ensures Means(kind, body, view, k, t, Mutate(t, Committed(kind, body, view, reconcile)[k], index).value, index)
  {
    var stubs := StubsOn(view.tables, kind.port);
    EditRoutePuts(kind, body, view, reconcile, stubs);
    var op := Committed(kind, body, view, reconcile)[k];
    PutLeavesRow(t, op, kind.port, index);
    if kind.ReplaceStubAt? {
      assert PutAt(stubs, op.config.stubs, kind.index, StubPosition(kind.index, |stubs|).value, body.stub);
    } else if kind.DeleteStubAt? {
      RemoveLoses(stubs, StubPosition(kind.index, |stubs|).value);
    }
  }

  /** Op `k` of a whole-set replace, restarts marked or not. */
  ghost predicate IsReplaceOp(imposters: seq<ImposterConfig>, existing: seq<Port>, op: ControlOp, k: nat)
    requires AllPorted(imposters)
  {
    && (imposters == [] ==> op == DeleteAll)
    && (k < |imposters| ==> op.PutImposter? && op.config == imposters[k])
    && (0 < |imposters| <= k ==>
          k - |imposters| < |Prunes(existing, Kept(imposters))| && op == Prunes(existing, Kept(imposters))[k - |imposters|])
  }

  lemma ReplaceOpAt(imposters: seq<ImposterConfig>, existing: seq<Port>, k: nat)
    requires AllPorted(imposters) && k < |ReplaceAllOps(imposters, existing)|
    ensures IsReplaceOp(imposters, existing, ReplaceAllOps(imposters, existing)[k], k)
    ensures IsReplaceOp(imposters, existing, WithRestarts(ReplaceAllOps(imposters, existing))[k], k)
  {
    PrunesAreDeletes(existing, Kept(imposters));
  }

  lemma ReplaceCommits(imposters: seq<ImposterConfig>, view: View, reconcile: bool, k: nat)
    requires var ops := Committed(ReplaceAllImposters, BatchBody(imposters), view, reconcile); k < |ops|
    ensures AllPorted(imposters)
    ensures IsReplaceOp(imposters, ConfiguredPorts(view.tables), Committed(ReplaceAllImposters, BatchBody(imposters), view, reconcile)[k], k)
  {
    ReplaceOpAt(imposters, ConfiguredPorts(view.tables), k);
  }

  lemma ReplaceRouteMeans(body: Body, view: View, reconcile: bool, k: nat, t: Tables, index: nat)
    requires k < |Committed(ReplaceAllImposters, body, view, reconcile)|
    requires Mutate(t, Committed(ReplaceAllImposters, body, view, reconcile)[k], index).Ok?
    ensures Means(ReplaceAllImposters, body, view, k, t, Mutate(t, Committed(ReplaceAllImposters, body, view, reconcile)[k], index).value, index)
  {
    ReplaceCommits(body.imposters, view, reconcile, k);
    ReplaceOpMeans(body.imposters, view, k, Committed(ReplaceAllImposters, body, view, reconcile)[k], t, index);
  }

  lemma ReplaceOpMeans(imposters: seq<ImposterConfig>, view: View, k: nat, op: ControlOp, t: Tables, index: nat)
    requires AllPorted(imposters) && IsReplaceOp(imposters, ConfiguredPorts(view.tables), op, k) && Mutate(t, op, index).Ok?
    ensures ReplaceMeans(imposters, view, k, Mutate(t, op, index).value, index)
  {
    if k < |imposters| {
      PutLeavesRow(t, op, imposters[k].port.value, index);
    } else if imposters != [] {
      PruneMeans(imposters, view, k, op, t, index);
    }
  }

  lemma PruneMeans(imposters: seq<ImposterConfig>, view: View, k: nat, op: ControlOp, t: Tables, index: nat)
    requires AllPorted(imposters) && 0 < |imposters| <= k && k - |imposters| < |Prunes(ConfiguredPorts(view.tables), Kept(imposters))|
    requires op == Prunes(ConfiguredPorts(view.tables), Kept(imposters))[k - |imposters|] && Mutate(t, op, index).Ok?
    ensures ReplaceMeans(imposters, view, k, Mutate(t, op, index).value, index)
  {
    var port := PrunesByRank(view.tables, Kept(imposters), 0x1_0000, k - |imposters|);
    assert Gone(Mutate(t, op, index).value, port);
  }

  lemma ClearMeans(t: Tables, port: Port, index: nat)
    ensures Means(ClearSavedProxyResponses(port), Undecodable, View(t, None), 0, t, ClearRecorded(t, port, index), index)
  {
    ClearReportsAChangeIff(StubsOn(t, port));
    var purged, from := ClearKeepsSurvivors(StubsOn(t, port));
    assert port !in t.configs ==> StubsOn(t, port) == [];
    assert StubsOn(ClearRecorded(t, port, index), port) == Stripped(StubsOn(t, port));
  }

  predicate IsPlain(kind: Terminated) {
    kind.Create? || kind.PutFleetName? || kind.DeleteAllImposters? || kind.DeleteOneImposter? || kind.ToggleEnabled? ||
    kind.PutRouteTable? || kind.DeleteOneRoute?
  }

  lemma PlainRouteMeans(kind: Terminated, body: Body, view: View, reconcile: bool, k: nat, t: Tables, index: nat)
    requires IsPlain(kind) && k < |Committed(kind, body, view, reconcile)|
    requires Mutate(t, Committed(kind, body, view, reconcile)[k], index).Ok?
    ensures Means(kind, body, view, k, t, Mutate(t, Committed(kind, body, view, reconcile)[k], index).value, index)
  {
    if kind.PutRouteTable? { TableHoldsItsRoutes(body.table.routes); }
  }

  /** Exactly when a route commits nothing: it only reads, its body does not decode, or what it
      addresses is not there.  Otherwise it commits at least one op, and only a whole-set replace more
      than one. */
  lemma CommitsNothingIff(kind: Terminated, body: Body, view: View, reconcile: bool)
    ensures Committed(kind, body, view, reconcile) == [] <==>
            OnlyReads(kind) || (!kind.SpaceTeardown? && !(Decodes(kind, body) && Finds(kind, view)))
    ensures |Committed(kind, body, view, reconcile)| > 1 ==> kind.ReplaceAllImposters?
  {
    BuildsIff(kind, body, view);
    if kind.ReplaceAllImposters? && BuildMutation(kind, body, view).Ok? {
      assert |ReplaceAllOps(body.imposters, ConfiguredPorts(view.tables))| > 0;
    }
  }

  /** Every op of every route means what the route says, at whatever state the op is applied. */
  lemma RouteMeansWhatItSays(kind: Terminated, body: Body, view: View, reconcile: bool, k: nat, t: Tables, index: nat)
    requires ConfigsKnowTheirPort(view.tables) && k < |Committed(kind, body, view, reconcile)|
    requires Mutate(t, Committed(kind, body, view, reconcile)[k], index).Ok?
    ensures Means(kind, body, view, k, t, Mutate(t, Committed(kind, body, view, reconcile)[k], index).value, index)
  {
    CommitsNothingIff(kind, body, view, reconcile);
    if IsPatch(kind) {
      PatchRouteMeans(kind, body, view, reconcile, k, t, index);
    } else if IsEdit(kind) {
      EditRouteMeans(kind, body, view, reconcile, k, t, index);
    } else if kind.ReplaceAllImposters? {
      ReplaceRouteMeans(body, view, reconcile, k, t, index);
    } else if kind.ClearSavedProxyResponses? {
      ClearMeans(t, kind.port, index);
    } else {
      PlainRouteMeans(kind, body, view, reconcile, k, t, index);
    }
  }

  /** So in every log: whatever node built the op, from however old a view, and wherever in the log
      it applied, what the entry leaves is what its route says. */
  lemma CommittedRouteMeansWhatItSays(log: seq<Payload>, basis: nat, i: nat, kind: Terminated, body: Body, view: View, reconcile: bool, k: nat)
    requires basis <= i < |log| && view.tables == TablesAt(log, basis)
    requires k < |Committed(kind, body, view, reconcile)|
    requires TookEffect(log, i) && Committed(kind, body, view, reconcile)[k] == log[i].request.op
    ensures Means(kind, body, view, k, TablesAt(log, i), TablesAt(log, i + 1), i + 1)
  {
    PortsAreKnown(log, basis);
    TookEffectExecutes(log, i);
    RouteMeansWhatItSays(kind, body, view, reconcile, k, TablesAt(log, i), i + 1);
  }

  // ---- what validation admitted stays so ----

  /** What the fleet must be able to replicate and bind, stub ids aside. */
  ghost predicate Replicable(config: ImposterConfig, port: Port) {
    config.port == Some(port) && port != 0 && (config.protocol == "http" || config.protocol == "https") && config.flowError.None?
  }

  ghost predicate AllReplicable(t: Tables) {
    forall port :: port in t.configs ==> Replicable(t.configs[port].config, port)
  }

  lemma MutateKeepsReplicable(t: Tables, op: ControlOp, index: nat)
    requires AllReplicable(t) && Validate(op).Ok? && Mutate(t, op, index).Ok?
    ensures AllReplicable(Mutate(t, op, index).value)
  {
    var after := Mutate(t, op, index).value;
    forall port | port in after.configs ensures Replicable(after.configs[port].config, port) {
      if port in t.configs { assert Replicable(t.configs[port].config, port); }
    }
  }

  /** In every log, every stored config names its own non-zero port, a protocol the fleet speaks,
      and nothing its flow store would refuse. */
  lemma {:induction false} StoredConfigsStayReplicable(log: seq<Payload>, k: nat)
    requires k <= |log|
    ensures AllReplicable(TablesAt(log, k))
  {
    if k == 0 {
      assert StateAt(log, 0) == INITIAL;
    } else {
      StoredConfigsStayReplicable(log, k - 1);
      EntrySteps(log, k - 1);
      if TookEffect(log, k - 1) {
        TookEffectExecutes(log, k - 1);
        MutateKeepsReplicable(TablesAt(log, k - 1), log[k - 1].request.op, k);
      }
    }
  }

  /** Every stored config is one validation would admit. */
  ghost predicate AllValidated(t: Tables) {
    forall port :: port in t.configs ==> ValidateConfig(t.configs[port].config).Ok?
  }

  lemma ValidatedIffUnique(t: Tables)
    requires AllReplicable(t)
    ensures AllValidated(t) <==> AllUnique(t)
  {
    forall port | port in t.configs
      ensures ValidateConfig(t.configs[port].config).Ok? <==> UniqueIds(t.configs[port].config.stubs)
    {
      assert Replicable(t.configs[port].config, port);
    }
  }

  /** In every log, every stored config is valid at every point up to `k` if and only if no entry before
      `k` recorded a stub under a taken id. */
  lemma StoredConfigsStayValidIff(log: seq<Payload>, k: nat)
    requires k <= |log|
    ensures (forall j :: 0 <= j <= k ==> AllValidated(TablesAt(log, j))) <==> forall i :: 0 <= i < k ==> !RepeatsIdAt(log, i)
  {
    IdsStayUniqueIff(log, k);
    forall j | 0 <= j <= k ensures AllValidated(TablesAt(log, j)) <==> UniqueAt(log, j) {
      StoredConfigsStayReplicable(log, j);
      ValidatedIffUnique(TablesAt(log, j));
    }
  }
}
