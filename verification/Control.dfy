/** The control-plane op set: what an admin mutation becomes in the replicated log, and the pure
    logic every replica runs on it before touching a table (crates/rift-cluster/src/control.rs).

    Upstream values that this layer only carries are opaque text: a stub's predicates, a recorded
    response, everything in a config that the cluster never reads.  Two verdicts belong to
    upstream code: `ImposterConfig.flowError` is what the flow-store check says of the config and
    `RouteTable.error` what the route-table check says of the table.
 */
module Control {
  import opened Text

  const U64_MAX: nat := 0xFFFF_FFFF_FFFF_FFFF

  type Port = n: nat | n < 0x1_0000
  type U64 = n: nat | n <= U64_MAX

  /** What a v5 id hashes: the text of a key, or the eight bytes of a position.  A key is visible ASCII
      and a position's bytes begin with a zero, so the two never coincide. */
  datatype Hashed = KeyText(text: string) | PositionBytes(index: nat)

  /** Op ids.  A v5 id is the pair it was derived from, so the derivation is injective. */
  datatype OpId = Uuid(id: nat) | V5(space: OpId, name: Hashed)

  datatype StubResponse =
    | Proxy(to: string)
    | Is(recorded: bool, content: string)

  datatype Stub = Stub(
    id: Option<string>,
    space: Option<string>,
    predicates: string,
    responses: seq<StubResponse>,
    recordedFrom: Option<string>,
    rest: string)

  datatype ImposterConfig = ImposterConfig(
    port: Option<Port>,
    protocol: string,
    enabled: bool,
    stubs: seq<Stub>,
    flowError: Option<string>,
    rest: string)

  datatype Route = Route(id: string, content: string)
  datatype RouteTable = RouteTable(routes: seq<Route>, error: Option<string>)

  datatype Restart = StubAt(index: nat) | AllStubs | Imposter | UnknownKind

  datatype StubEdit =
    | Add(stub: Stub, index: Option<nat>)
    | ReplaceById(id: string, stub: Stub)
    | DeleteById(id: string)
    | DeleteBySpace(space: string)
    | Move(source: nat, target: nat)

  datatype Placement = BeforeProxy | AfterProxyMerging
  datatype RecordedStub = RecordedStub(stub: Stub, placement: Placement, proxyTo: string, anchorIndex: Option<nat>)
  datatype RecordedResponse = RecordedResponse(bodyLength: nat, content: string)

  datatype ControlOp =
    | PutImposter(config: ImposterConfig, restart: Option<Restart>)
    | PatchStubs(port: Port, script: seq<StubEdit>)
    | DeleteImposter(port: Port)
    | DeleteAll
    | SetEnabled(port: Port, enabled: bool)
    | PutRoutes(table: RouteTable)
    | DeleteRoute(id: string)
    | SessionKeyPut(key: string)
    | FleetNamePut(name: string)
    | ProxyRecorded(port: Port, sigHash: string, resp: RecordedResponse, recorded: Option<RecordedStub>)
    | ProxyRecordedClear(port: Port)

  /** The envelope every log entry carries.  `size` is the length of its serialized form. */
  datatype ControlRequest = ControlRequest(
    opId: OpId,
    issuedAt: U64,
    expectedRevision: Option<nat>,
    expectAbsent: bool,
    op: ControlOp,
    size: nat)

  const MAX_ENTRY_BYTES: nat := 8 * 1024 * 1024
  const MAX_LOG_PAYLOAD_BYTES: nat := 10 * 1024 * 1024
  const MAX_FLEET_NAME_CHARS: nat := 128
  const SESSION_KEY_BYTES: nat := 32

  predicate AdmitsEntrySize(request: ControlRequest) {
    request.size <= MAX_ENTRY_BYTES
  }

  /** Why an op was refused, as the classes the front tells apart. */
  datatype Refusal =
    | Invalid(reason: string)
    | RevisionConflict
    | PortInUse(port: Port)
    | NoImposter(port: Port)
    | DuplicateStubId(id: string)
    | NoStubWithId(id: string)
    | MoveOutOfBounds(at: nat)

  datatype Outcome = Applied | Failed(reason: Refusal)
  datatype ControlResponse = ControlResponse(revision: nat, outcome: Outcome)

  // ---- validation: a property of the op alone ----

  predicate IsHexDigit(c: char) { '0' <= c <= '9' || 'a' <= c <= 'f' || 'A' <= c <= 'F' }

  /** `hex_decode(s).is_some()`. */
  predicate IsHex(s: string) {
    |s| % 2 == 0 && forall i :: 0 <= i < |s| ==> IsHexDigit(s[i])
  }

  predicate IsControlChar(c: char) {
    c as int <= 0x1F || 0x7F <= c as int <= 0x9F
  }

  predicate HasDuplicateId(stubs: seq<Stub>) {
    exists i, j :: 0 <= i < j < |stubs| && stubs[i].id.Some? && stubs[i].id == stubs[j].id
  }

  function ValidateConfig(config: ImposterConfig): Result<(), Refusal> {
    if config.port.None? || config.port.value == 0 then Err(Invalid("config must carry an explicit port"))
    else if config.protocol != "http" && config.protocol != "https" then Err(Invalid("unsupported protocol"))
    else if HasDuplicateId(config.stubs) then Err(Invalid("duplicate stub id"))
    else if config.flowError.Some? then Err(Invalid(config.flowError.value))
    else Ok(())
  }

  function Validate(op: ControlOp): Result<(), Refusal> {
    match op
    case PutImposter(config, _) => ValidateConfig(config)
    case PatchStubs(_, _) => Ok(())
    case DeleteImposter(_) => Ok(())
    case DeleteAll => Ok(())
    case SetEnabled(_, _) => Ok(())
    case DeleteRoute(_) => Ok(())
    case PutRoutes(table) => if table.error.Some? then Err(Invalid(table.error.value)) else Ok(())
    case SessionKeyPut(key) =>
      if !IsHex(key) then Err(Invalid("session key must be hex-encoded"))
      else if |key| / 2 != SESSION_KEY_BYTES then Err(Invalid("session key must be exactly 32 bytes"))
      else Ok(())
    case FleetNamePut(name) =>
      if Trim(name) == "" then Err(Invalid("fleet name must not be empty or whitespace-only"))
      else if |name| > MAX_FLEET_NAME_CHARS then Err(Invalid("fleet name is over the character cap"))
      else if exists i :: 0 <= i < |name| && IsControlChar(name[i]) then
        Err(Invalid("fleet name must not contain control characters"))
      else Ok(())
    case ProxyRecorded(port, sigHash, resp, recorded) =>
      if port == 0 then Err(Invalid("port must be non-zero"))
      else if sigHash == "" || !IsHex(sigHash) then Err(Invalid("sigHash must be a non-empty hex string"))
      else if resp.bodyLength > MAX_LOG_PAYLOAD_BYTES then Err(Invalid("recorded response body exceeds the bound"))
      else if recorded.Some? && recorded.value.proxyTo == "" then Err(Invalid("proxyTo must not be empty"))
      else Ok(())
    case ProxyRecordedClear(port) =>
      if port == 0 then Err(Invalid("port must be non-zero")) else Ok(())
  }

  // ---- what a precondition can hold against ----

  datatype PreconditionTarget = ImposterRow(port: Port) | WholeRouteTable

  function TargetOf(op: ControlOp): Option<PreconditionTarget> {
    match op
    case PutImposter(config, _) => if config.port.Some? then Some(ImposterRow(config.port.value)) else None
    case PatchStubs(port, _) => Some(ImposterRow(port))
    case DeleteImposter(port) => Some(ImposterRow(port))
    case SetEnabled(port, _) => Some(ImposterRow(port))
    case PutRoutes(_) => Some(WholeRouteTable)
    case DeleteRoute(_) => Some(WholeRouteTable)
    case DeleteAll => None
    case SessionKeyPut(_) => None
    case FleetNamePut(_) => None
    case ProxyRecorded(_, _, _, _) => None
    case ProxyRecordedClear(_) => None
  }

  // ---- stub edit scripts ----

  /** The position of the first stub with this explicit id. */
  function PositionOfId(stubs: seq<Stub>, id: string): (at: Option<nat>)
    ensures at.Some? ==> at.value < |stubs| && stubs[at.value].id == Some(id)
    ensures at.Some? ==> forall i :: 0 <= i < at.value ==> stubs[i].id != Some(id)
    ensures at.None? ==> forall i :: 0 <= i < |stubs| ==> stubs[i].id != Some(id)
  {
    if stubs == [] then None
    else if stubs[0].id == Some(id) then Some(0)
    else
      var rest := PositionOfId(stubs[1..], id);
      assert forall i :: 0 < i < |stubs| ==> stubs[i] == stubs[1..][i - 1];
      if rest.None? then None else Some(rest.value + 1)
  }

  function WithoutSpace(stubs: seq<Stub>, space: string): seq<Stub> {
    if stubs == [] then []
    else (if stubs[0].space != Some(space) then [stubs[0]] else []) + WithoutSpace(stubs[1..], space)
  }

  function Insert<T>(s: seq<T>, at: nat, x: T): seq<T>
    requires at <= |s|
  {
    s[..at] + [x] + s[at..]
  }

  function Remove<T>(s: seq<T>, at: nat): seq<T>
    requires at < |s|
  {
    s[..at] + s[at + 1..]
  }

  function EditStep(stubs: seq<Stub>, step: StubEdit): Result<seq<Stub>, Refusal> {
    match step
    case Add(stub, index) =>
      if stub.id.Some? && PositionOfId(stubs, stub.id.value).Some? then Err(DuplicateStubId(stub.id.value))
      else
        var at := if index.Some? && index.value < |stubs| then index.value else |stubs|;
        Ok(Insert(stubs, at, stub))
    case ReplaceById(id, stub) =>
      var at := PositionOfId(stubs, id);
      if at.None? then Err(NoStubWithId(id)) else Ok(stubs[at.value := stub.(id := Some(id))])
    case DeleteById(id) =>
      var at := PositionOfId(stubs, id);
      if at.None? then Err(NoStubWithId(id)) else Ok(Remove(stubs, at.value))
    case DeleteBySpace(space) => Ok(WithoutSpace(stubs, space))
    case Move(source, target) =>
      if source >= |stubs| then Err(MoveOutOfBounds(source))
      else if target >= |stubs| then Err(MoveOutOfBounds(target))
      else Ok(Insert(Remove(stubs, source), target, stubs[source]))
  }

  /** The stub list a script leaves, or the first refusal. */
  function Edited(stubs: seq<Stub>, script: seq<StubEdit>): Result<seq<Stub>, Refusal>
    decreases |script|
  {
    if script == [] then Ok(stubs)
    else
      var next :- EditStep(stubs, script[0]);
      Edited(next, script[1..])
  }

  /** `apply_edit`: the steps run on a scratch copy, written back only when all of them succeed. */
  method ApplyEdit(stubs: seq<Stub>, script: seq<StubEdit>) returns (result: seq<Stub>, refusal: Option<Refusal>)
    ensures Edited(stubs, script) == if refusal.None? then Ok(result) else Err(refusal.value)
    ensures refusal.Some? ==> result == stubs
  {
    var next := stubs;
    for i := 0 to |script|
      invariant Edited(stubs, script) == Edited(next, script[i..])
    {
      assert script[i..][1..] == script[i + 1..];
      match EditStep(next, script[i]) {
        case Err(reason) => return stubs, Some(reason);
        case Ok(after) => next := after;
      }
    }
    return next, None;
  }

  /** No two stubs share an explicit id: what `Validate` demands of a whole config. */
  ghost predicate UniqueIds(stubs: seq<Stub>) {
    forall i, j :: 0 <= i < j < |stubs| && stubs[i].id.Some? ==> stubs[i].id != stubs[j].id
  }

  lemma {:induction false} WithoutSpaceKeepsIds(stubs: seq<Stub>, space: string)
    ensures forall i :: 0 <= i < |WithoutSpace(stubs, space)| ==> WithoutSpace(stubs, space)[i] in stubs
    ensures UniqueIds(stubs) ==> UniqueIds(WithoutSpace(stubs, space))
  {
    if stubs != [] {
      WithoutSpaceKeepsIds(stubs[1..], space);
      if UniqueIds(stubs) {
        assert UniqueIds(stubs[1..]) by {
          assert forall i :: 0 <= i < |stubs[1..]| ==> stubs[1..][i] == stubs[i + 1];
        }
        assert forall s :: s in WithoutSpace(stubs[1..], space) && stubs[0].id.Some? ==> s.id != stubs[0].id;
      }
    }
  }

  lemma InsertKeepsIdsUnique(stubs: seq<Stub>, at: nat, stub: Stub)
    requires UniqueIds(stubs) && at <= |stubs|
    requires stub.id.Some? ==> forall i :: 0 <= i < |stubs| ==> stubs[i].id != stub.id
    ensures UniqueIds(Insert(stubs, at, stub))
  {
    var after := Insert(stubs, at, stub);
    assert forall i :: 0 <= i < at ==> after[i] == stubs[i];
    assert forall i :: at < i < |after| ==> after[i] == stubs[i - 1];
  }

  lemma RemoveKeepsIdsUnique(stubs: seq<Stub>, at: nat)
    requires UniqueIds(stubs) && at < |stubs|
    ensures UniqueIds(Remove(stubs, at))
    ensures stubs[at].id.Some? ==> forall i :: 0 <= i < |stubs| - 1 ==> Remove(stubs, at)[i].id != stubs[at].id
  {
    var after := Remove(stubs, at);
    assert forall i :: 0 <= i < at ==> after[i] == stubs[i];
    assert forall i :: at <= i < |after| ==> after[i] == stubs[i + 1];
  }

  lemma EditStepKeepsIdsUnique(stubs: seq<Stub>, step: StubEdit)
    requires UniqueIds(stubs) && EditStep(stubs, step).Ok?
    ensures UniqueIds(EditStep(stubs, step).value)
  {
    match step
    case Add(stub, index) =>
      InsertKeepsIdsUnique(stubs, if index.Some? && index.value < |stubs| then index.value else |stubs|, stub);
    case ReplaceById(id, _) =>
      var at := PositionOfId(stubs, id).value;
      assert forall i :: 0 <= i < |stubs| && i != at ==> stubs[i].id != Some(id);
    case DeleteById(id) =>
      RemoveKeepsIdsUnique(stubs, PositionOfId(stubs, id).value);
    case DeleteBySpace(space) =>
      WithoutSpaceKeepsIds(stubs, space);
    case Move(source, target) =>
      RemoveKeepsIdsUnique(stubs, source);
      InsertKeepsIdsUnique(Remove(stubs, source), target, stubs[source]);
  }

  /** An edit script leaves a list that `Validate` would still admit for its ids. */
  lemma {:induction false} EditsKeepIdsUnique(stubs: seq<Stub>, script: seq<StubEdit>)
    requires UniqueIds(stubs) && Edited(stubs, script).Ok?
    ensures UniqueIds(Edited(stubs, script).value)
    decreases |script|
  {
    if script != [] {
      EditStepKeepsIdsUnique(stubs, script[0]);
      EditsKeepIdsUnique(EditStep(stubs, script[0]).value, script[1..]);
    }
  }
}
