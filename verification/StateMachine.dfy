/** The replicated state machine: the tables, and what applying one committed log entry does to
    them (crates/rift-cluster/src/raft/store.rs).

    The log is a sequence of payloads; the payload at position `i` has log index `i + 1`, so that
    a revision of 0 always means "never written".  A stored row is a value here, so the branches
    that answer for a row that no longer parses do not arise.  What an apply asks the local
    engine to do afterwards is outside the replicated state and is not modelled.
 */
module StateMachine {
  import opened Text
  import opened Control

  /** A row of `sm_configs`. */
  datatype Record = Record(config: ImposterConfig, enabled: bool, revision: nat)

  datatype SessionKey = SessionKey(key: string, revision: nat)

  datatype Tables = Tables(
    configs: map<Port, Record>,
    routes: map<string, Route>,
    routesRevision: Option<nat>,
    sessionKey: Option<SessionKey>,
    fleetName: Option<string>,
    markers: map<(Port, string), RecordedResponse>)

  datatype DedupEntry = DedupEntry(response: ControlResponse, expiresAt: nat)

  datatype State = State(tables: Tables, dedup: map<OpId, DedupEntry>, clock: nat, applied: nat)

  datatype Payload = Blank | Membership | Normal(request: ControlRequest)

  function Entries(requests: seq<ControlRequest>): seq<Payload> {
    seq(|requests|, i requires 0 <= i < |requests| => Normal(requests[i]))
  }

  const DEDUP_TTL_SECS: nat := 24 * 60 * 60

  const EMPTY_TABLES: Tables := Tables(map[], map[], None, None, None, map[])
  const INITIAL: State := State(EMPTY_TABLES, map[], 0, 0)

  // ---- recorded stubs and their markers ----

  const RECORDED_STUB_ID_PREFIX: string := "proxy-recorded-"

  predicate IsLowerHex(s: string) {
    forall i :: 0 <= i < |s| ==> '0' <= s[i] <= '9' || 'a' <= s[i] <= 'f'
  }

  /** Where `split_once("-r")` cuts. */
  function FindRankMark(s: string): (at: Option<nat>)
    ensures at.Some? ==> at.value + 2 <= |s|
  {
    if |s| < 2 then None
    else if s[0] == '-' && s[1] == 'r' then Some(0)
    else
      var rest := FindRankMark(s[1..]);
      if rest.None? then None else Some(rest.value + 1)
  }

  /** A recorded stub id's signature hash and rank: rank 0 for the base id, `n` for `-r{n}`. */
  function RecordedId(id: string): Option<(string, nat)> {
    var rest :- StripPrefix(id, RECORDED_STUB_ID_PREFIX);
    var mark := FindRankMark(rest);
    if mark.None? then
      if rest != "" && IsLowerHex(rest) then Some((rest, 0)) else None
    else
      var hash, n := rest[..mark.value], rest[mark.value + 2..];
      if n == "" || !AllDigits(n) || NumberOf(n) > U64_MAX then None
      else if hash != "" && IsLowerHex(hash) then Some((hash, NumberOf(n))) else None
  }

  function HashOfStub(stub: Stub): Option<string> {
    if stub.id.None? then None
    else
      var parsed := RecordedId(stub.id.value);
      if parsed.None? then None else Some(parsed.value.0)
  }

  /** The newest stub of `hash`'s family: the first of the highest rank. */
  function NewestOf(stubs: seq<Stub>, hash: string): (newest: Option<Stub>)
    ensures newest.Some? ==> HashOfStub(newest.value) == Some(hash)
  {
    if stubs == [] then None
    else
      var last := stubs[|stubs| - 1];
      var before := NewestOf(stubs[..|stubs| - 1], hash);
      if HashOfStub(last) != Some(hash) then before
      else if before.None? then Some(last)
      else if RecordedId(last.id.value).value.1 > RecordedId(before.value.id.value).value.1 then Some(last)
      else before
  }

  /** Whether replacing `before` by `after` forgets the marker of `hash`. */
  predicate Orphans(before: seq<Stub>, after: seq<Stub>, hash: string) {
    var newest := NewestOf(before, hash);
    newest.Some? && newest.value !in after
  }

  predicate Names(stubs: seq<Stub>, hash: string) {
    exists i :: 0 <= i < |stubs| && HashOfStub(stubs[i]) == Some(hash)
  }

  type Markers = map<(Port, string), RecordedResponse>

  function DropPort(markers: Markers, port: Port): Markers {
    map key | key in markers && key.0 != port :: markers[key]
  }

  function DropOrphans(markers: Markers, port: Port, before: seq<Stub>, after: seq<Stub>): Markers {
    map key | key in markers && !(key.0 == port && Orphans(before, after, key.1)) :: markers[key]
  }

  function DropStubless(markers: Markers, port: Port, stubs: seq<Stub>): Markers {
    map key | key in markers && !(key.0 == port && !Names(stubs, key.1)) :: markers[key]
  }

  predicate ProxiesTo(stub: Stub, to: string) {
    exists i :: 0 <= i < |stub.responses| && stub.responses[i] == Proxy(to)
  }

  function FindProxy(stubs: seq<Stub>, start: nat, to: string): (at: Option<nat>)
    ensures at.Some? ==> start <= at.value < |stubs|
    decreases |stubs| - start
  {
    if start >= |stubs| then None
    else if ProxiesTo(stubs[start], to) then Some(start)
    else FindProxy(stubs, start + 1, to)
  }

  function FindPredicates(stubs: seq<Stub>, start: nat, predicates: string): (at: Option<nat>)
    ensures at.Some? ==> start <= at.value < |stubs|
    decreases |stubs| - start
  {
    if start >= |stubs| then None
    else if stubs[start].predicates == predicates then Some(start)
    else FindPredicates(stubs, start + 1, predicates)
  }

  function AnchorOf(stubs: seq<Stub>, recorded: RecordedStub): (at: Option<nat>)
    ensures at.Some? ==> at.value < |stubs|
  {
    var hinted := if recorded.anchorIndex.Some? then FindProxy(stubs, recorded.anchorIndex.value, recorded.proxyTo) else None;
    if hinted.Some? then hinted else FindProxy(stubs, 0, recorded.proxyTo)
  }

  /** `place_recorded_stub`, with `stub` already carrying its id. */
  function PlaceRecorded(stubs: seq<Stub>, stub: Stub, recorded: RecordedStub): seq<Stub> {
    var anchor := AnchorOf(stubs, recorded);
    match recorded.placement
    case BeforeProxy =>
      Insert(stubs, if anchor.Some? then anchor.value else |stubs|, stub)
    case AfterProxyMerging =>
      var merged := FindPredicates(stubs, if anchor.Some? then anchor.value + 1 else 0, stub.predicates);
      if merged.None? then stubs + [stub]
      else stubs[merged.value := stubs[merged.value].(responses := stubs[merged.value].responses + stub.responses)]
  }

  function RecordingId(stubs: seq<Stub>, hash: string, index: nat): string {
    var base := RECORDED_STUB_ID_PREFIX + hash;
    if Names(stubs, hash) then base + "-r" + Decimal(index) else base
  }

  predicate IsRecorded(response: StubResponse) { response.Is? && response.recorded }

  predicate AnyRecorded(responses: seq<StubResponse>) {
    exists i :: 0 <= i < |responses| && IsRecorded(responses[i])
  }

  function Unrecorded(responses: seq<StubResponse>): seq<StubResponse> {
    if responses == [] then []
    else (if IsRecorded(responses[0]) then [] else [responses[0]]) + Unrecorded(responses[1..])
  }

  /** What a clear leaves of one stub: itself, itself without its recorded responses, or nothing. */
  function StripOne(stub: Stub): seq<Stub> {
    if !AnyRecorded(stub.responses) then (if stub.recordedFrom.None? then [stub] else [])
    else
      var responses := Unrecorded(stub.responses);
      if responses == [] then [] else [stub.(responses := responses)]
  }

  /** `strip_proxy_responses`. */
  function Stripped(stubs: seq<Stub>): seq<Stub> {
    if stubs == [] then [] else StripOne(stubs[0]) + Stripped(stubs[1..])
  }

  predicate StripsAnything(stubs: seq<Stub>) {
    (exists i :: 0 <= i < |stubs| && AnyRecorded(stubs[i].responses)) || |Stripped(stubs)| != |stubs|
  }

  // ---- preconditions and mutation ----

  function RoutesRevision(t: Tables): nat {
    if t.routesRevision.Some? then t.routesRevision.value else 0
  }

  function CheckExpectedRevision(t: Tables, op: ControlOp, expected: nat): Result<(), Refusal> {
    match TargetOf(op)
    case None => Err(RevisionConflict)
    case Some(ImposterRow(port)) =>
      if port !in t.configs || t.configs[port].revision != expected then Err(RevisionConflict) else Ok(())
    case Some(WholeRouteTable) =>
      if RoutesRevision(t) == expected then Ok(()) else Err(RevisionConflict)
  }

  function CheckExpectAbsent(t: Tables, op: ControlOp): Result<(), Refusal> {
    match TargetOf(op)
    case Some(ImposterRow(port)) => if port in t.configs then Err(PortInUse(port)) else Ok(())
    case _ => Err(RevisionConflict)
  }

  function CheckPreconditions(t: Tables, request: ControlRequest): Result<(), Refusal> {
    match (request.expectedRevision, request.expectAbsent)
    case (None, false) => Ok(())
    case (Some(expected), false) => CheckExpectedRevision(t, request.op, expected)
    case (None, true) => CheckExpectAbsent(t, request.op)
    case (Some(_), true) => Err(RevisionConflict)
  }

  function PutConfig(t: Tables, port: Port, config: ImposterConfig, restart: Option<Restart>, index: nat): Tables {
    var diffed :=
      if port in t.configs then DropOrphans(t.markers, port, t.configs[port].config.stubs, config.stubs)
      else DropPort(t.markers, port);
    t.(configs := t.configs[port := Record(config, config.enabled, index)],
       markers := if restart == Some(Imposter) then DropStubless(diffed, port, config.stubs) else diffed)
  }

  function TableOf(routes: seq<Route>): map<string, Route> {
    if routes == [] then map[] else TableOf(routes[..|routes| - 1])[routes[|routes| - 1].id := routes[|routes| - 1]]
  }

  function RecordProxy(t: Tables, port: Port, sigHash: string, resp: RecordedResponse, recorded: Option<RecordedStub>, index: nat)
    : Result<Tables, Refusal>
  {
    var merging := recorded.Some? && recorded.value.placement.AfterProxyMerging?;
    if (port, sigHash) in t.markers && !merging then Ok(t)
    else if port !in t.configs then Err(NoImposter(port))
    else if recorded.None? then Ok(t.(markers := t.markers[(port, sigHash) := resp]))
    else
      var row := t.configs[port];
      var stub :=
        if recorded.value.stub.id.Some? then recorded.value.stub
        else recorded.value.stub.(id := Some(RecordingId(row.config.stubs, sigHash, index)));
      var config := row.config.(stubs := PlaceRecorded(row.config.stubs, stub, recorded.value));
      Ok(t.(configs := t.configs[port := row.(config := config, revision := index)],
            markers := if merging then t.markers else t.markers[(port, sigHash) := resp]))
  }

  function ClearRecorded(t: Tables, port: Port, index: nat): Tables {
    var cleared := t.(markers := DropPort(t.markers, port));
    if port !in t.configs || !StripsAnything(t.configs[port].config.stubs) then cleared
    else
      var row := t.configs[port];
      var config := row.config.(stubs := Stripped(row.config.stubs));
      cleared.(configs := t.configs[port := row.(config := config, revision := index)])
  }

  /** `mutate_tables`, for an op that passed validation and its precondition. */
  function Mutate(t: Tables, op: ControlOp, index: nat): Result<Tables, Refusal> {
    match op
    case PutImposter(config, restart) =>
      if config.port.None? then Err(Invalid("config must carry an explicit port"))
      else Ok(PutConfig(t, config.port.value, config, restart, index))
    case PatchStubs(port, script) =>
      if port !in t.configs then Err(NoImposter(port))
      else
        var row := t.configs[port];
        var stubs :- Edited(row.config.stubs, script);
        Ok(t.(configs := t.configs[port := row.(config := row.config.(stubs := stubs), revision := index)],
              markers := DropOrphans(t.markers, port, row.config.stubs, stubs)))
    case DeleteImposter(port) =>
      Ok(t.(configs := t.configs - {port}, markers := DropPort(t.markers, port)))
    case DeleteAll => Ok(t.(configs := map[], markers := map[]))
    case SetEnabled(port, enabled) =>
      if port !in t.configs then Err(NoImposter(port))
      else
        var config := t.configs[port].config.(enabled := enabled);
        Ok(t.(configs := t.configs[port := Record(config, enabled, index)]))
    case PutRoutes(table) => Ok(t.(routes := TableOf(table.routes), routesRevision := Some(index)))
    case DeleteRoute(id) => Ok(t.(routes := t.routes - {id}, routesRevision := Some(index)))
    case SessionKeyPut(key) => Ok(t.(sessionKey := Some(SessionKey(key, index))))
    case FleetNamePut(name) => Ok(t.(fleetName := Some(name)))
    case ProxyRecorded(port, sigHash, resp, recorded) => RecordProxy(t, port, sigHash, resp, recorded, index)
    case ProxyRecordedClear(port) => Ok(ClearRecorded(t, port, index))
  }

  /** Validation, then the precondition, then the mutation: the first refusal wins. */
  function Execute(t: Tables, request: ControlRequest, index: nat): Result<Tables, Refusal> {
    var _ :- Validate(request.op);
    var _ :- CheckPreconditions(t, request);
    Mutate(t, request.op, index)
  }

  // ---- applying entries ----

  function Max(a: nat, b: nat): nat { if a < b then b else a }

  function SaturatingAdd(a: nat, b: nat): nat { if a + b > U64_MAX then U64_MAX else a + b }

  /** The recorded response a replay of `op` would meet at time `now`. */
  function Live(dedup: map<OpId, DedupEntry>, op: OpId, now: nat): Option<ControlResponse> {
    if op in dedup && dedup[op].expiresAt > now then Some(dedup[op].response) else None
  }

  /** An entry that runs: its outcome is recorded under its op id. */
  function Run(s: State, request: ControlRequest): (State, ControlResponse) {
    var index, clock := s.applied + 1, Max(s.clock, request.issuedAt);
    var outcome := Execute(s.tables, request, index);
    var response := ControlResponse(index, if outcome.Ok? then Applied else Failed(outcome.error));
    var tables := if outcome.Ok? then outcome.value else s.tables;
    var row := DedupEntry(response, SaturatingAdd(clock, DEDUP_TTL_SECS));
    (State(tables, s.dedup[request.opId := row], clock, index), response)
  }

  function ApplyEntry(s: State, entry: Payload): (State, ControlResponse) {
    match entry
    case Blank => (s.(applied := s.applied + 1), ControlResponse(s.applied + 1, Applied))
    case Membership => (s.(applied := s.applied + 1), ControlResponse(s.applied + 1, Applied))
    case Normal(request) =>
      var clock := Max(s.clock, request.issuedAt);
      var previous := Live(s.dedup, request.opId, clock);
      if previous.Some? then (s.(clock := clock, applied := s.applied + 1), previous.value)
      else Run(s, request)
  }

  function ApplyAll(s: State, entries: seq<Payload>): (State, seq<ControlResponse>) {
    if entries == [] then (s, [])
    else
      var (before, responses) := ApplyAll(s, entries[..|entries| - 1]);
      var (after, response) := ApplyEntry(before, entries[|entries| - 1]);
      (after, responses + [response])
  }

  /** Drop the recorded responses whose time has passed on the replicated clock. */
  function Collect(s: State): State {
    s.(dedup := map op | op in s.dedup && s.dedup[op].expiresAt > s.clock :: s.dedup[op])
  }

  /** One apply transaction: collect, then the entries in order. */
  function ApplyBatch(s: State, entries: seq<Payload>): (State, seq<ControlResponse>) {
    ApplyAll(Collect(s), entries)
  }

  /** The durable state machine of one replica. */
  class ReplicaStore {
    var state: State

    constructor ()
      ensures state == INITIAL
    {
      state := INITIAL;
    }

    /** `RaftStateMachine::apply`: the batch runs on working copies of the tables, which become
        the stored state in one commit at the end. */
    method Apply(entries: seq<Payload>) returns (responses: seq<ControlResponse>)
      modifies this
      ensures (state, responses) == ApplyBatch(old(state), entries)
    {
      var working := Collect(state);
      ghost var begun := working;
      responses := [];
      for i := 0 to |entries|
        invariant (working, responses) == ApplyAll(begun, entries[..i])
      {
        assert entries[..i + 1][..i] == entries[..i];
        match entries[i] {
          case Blank =>
            responses := responses + [ControlResponse(working.applied + 1, Applied)];
            working := working.(applied := working.applied + 1);
          case Membership =>
            responses := responses + [ControlResponse(working.applied + 1, Applied)];
            working := working.(applied := working.applied + 1);
          case Normal(request) =>
            var clock := Max(working.clock, request.issuedAt);
            var previous := Live(working.dedup, request.opId, clock);
            if previous.Some? {
              working := working.(clock := clock, applied := working.applied + 1);
              responses := responses + [previous.value];
            } else {
              var (after, response) := Run(working, request);
              working := after;
              responses := responses + [response];
            }
        }
      }
      assert entries[..|entries|] == entries;
      state := working;
    }
  }
}
