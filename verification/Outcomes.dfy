/** When an op applies and why it is refused, what a stub edit does, and what becomes of the recorded
    markers: each stated without the functions that compute it (crates/rift-cluster/src/control.rs,
    crates/rift-cluster/src/raft/store.rs).
 */
module Outcomes {
  import opened Text
  import opened Control
  import opened StateMachine
  import opened Dedup
  import opened Revisions
  import opened Recording
  import opened StubIds
  import opened RouteEffects
  import opened Placement

  // ---- admissible ops ----

  ghost predicate AllHex(s: string) {
    forall i :: 0 <= i < |s| ==> s[i] in "0123456789abcdefABCDEF"
  }

  /** A name of at most 128 characters, one of them not white space and none a control character. */
  ghost predicate IsFleetName(name: string) {
    && |name| <= 128
    && (exists i :: 0 <= i < |name| && !IsWhitespace(name[i]))
    && (forall i :: 0 <= i < |name| ==> 0x20 <= name[i] as int < 0x7F || 0xA0 <= name[i] as int)
  }

  /** The ops a replica will consider, whatever its tables hold. */
  ghost predicate Admissible(op: ControlOp) {
    match op
    case PutImposter(config, _) =>
      && config.port.Some? && config.port.value > 0
      && config.protocol in {"http", "https"}
      && UniqueIds(config.stubs) && config.flowError.None?
    case PutRoutes(table) => table.error.None?
    case SessionKeyPut(key) => |key| == 64 && AllHex(key)
    case FleetNamePut(name) => IsFleetName(name)
    case ProxyRecorded(port, sigHash, resp, recorded) =>
      && port > 0 && sigHash != "" && |sigHash| % 2 == 0 && AllHex(sigHash)
      && resp.bodyLength <= 10_485_760
      && (recorded.Some? ==> recorded.value.proxyTo != "")
    case ProxyRecordedClear(port) => port > 0
    case _ => true
  }

  lemma HexIff(s: string)
    ensures IsHex(s) <==> |s| % 2 == 0 && AllHex(s)
  {
    assert forall c: char :: IsHexDigit(c) <==> c in "0123456789abcdefABCDEF";
  }

  lemma BlankIff(s: string)
    ensures Trim(s) == "" <==> forall i :: 0 <= i < |s| ==> IsWhitespace(s[i])
  {
    var left, right := TrimTakesTheEnds(s);
    if Trim(s) != "" { assert s[|left|] == Trim(s)[0]; }
  }

  lemma DuplicateIff(stubs: seq<Stub>)
    ensures HasDuplicateId(stubs) <==> !UniqueIds(stubs)
  {}

  /** Exactly which ops pass validation; every other is refused as invalid. */
  lemma ValidatesIff(op: ControlOp)
    ensures Validate(op).Ok? <==> Admissible(op)
    ensures Validate(op).Err? ==> Validate(op).error.Invalid?
    ensures op.PutRoutes? && op.table.error.Some? ==> Validate(op) == Err(Invalid(op.table.error.value))
  {
    match op
    case PutImposter(config, _) => DuplicateIff(config.stubs);
    case SessionKeyPut(key) => HexIff(key);
    case ProxyRecorded(_, sigHash, _, _) => HexIff(sigHash);
    case FleetNamePut(name) => BlankIff(name);
    case _ =>
  }

  // ---- preconditions ----

  /** The op writes the row of this port, or the route table. */
  ghost predicate WritesRow(op: ControlOp, port: Port) {
    || (op.PutImposter? && op.config.port == Some(port))
    || (op.PatchStubs? && op.port == port)
    || (op.DeleteImposter? && op.port == port)
    || (op.SetEnabled? && op.port == port)
  }

  ghost predicate WritesRoutes(op: ControlOp) { op.PutRoutes? || op.DeleteRoute? }

  /** What the op writes stands at this revision; a route table never written stands at 0. */
  ghost predicate StandsAt(t: Tables, op: ControlOp, revision: nat) {
    || (exists port: Port :: WritesRow(op, port) && port in t.configs && t.configs[port].revision == revision)
    || (WritesRoutes(op) && t.routesRevision == (if revision == 0 && t.routesRevision.None? then None else Some(revision)))
  }

  ghost predicate WritesFreePort(t: Tables, op: ControlOp) {
    exists port: Port :: WritesRow(op, port) && port !in t.configs
  }

  /** An op may carry one condition: a revision, or that the port is free.  Both at once never hold. */
  ghost predicate ConditionHolds(t: Tables, request: ControlRequest) {
    && (request.expectedRevision.Some? ==> !request.expectAbsent && StandsAt(t, request.op, request.expectedRevision.value))
    && (request.expectAbsent ==> WritesFreePort(t, request.op))
  }

  lemma TargetIs(op: ControlOp, port: Port)
    ensures TargetOf(op) == Some(ImposterRow(port)) <==> WritesRow(op, port)
    ensures TargetOf(op) == Some(WholeRouteTable) <==> WritesRoutes(op)
  {}

  lemma ConditionHoldsIff(t: Tables, request: ControlRequest)
    ensures CheckPreconditions(t, request).Ok? <==> ConditionHolds(t, request)
    ensures CheckPreconditions(t, request).Err? ==>
              CheckPreconditions(t, request).error == RevisionConflict ||
              exists port: Port :: WritesRow(request.op, port) && port in t.configs && CheckPreconditions(t, request).error == PortInUse(port)
    ensures forall port: Port :: WritesRow(request.op, port) && port in t.configs && request.expectAbsent && request.expectedRevision.None? ==>
              CheckPreconditions(t, request) == Err(PortInUse(port))
  {
    forall port: Port ensures TargetOf(request.op) == Some(ImposterRow(port)) <==> WritesRow(request.op, port) { TargetIs(request.op, port); }
    TargetIs(request.op, 0);
  }

  // ---- outcomes ----

  /** The op finds what it edits. */
  ghost predicate Possible(t: Tables, op: ControlOp) {
    match op
    case PatchStubs(port, script) => port in t.configs && Edited(t.configs[port].config.stubs, script).Ok?
    case SetEnabled(port, _) => port in t.configs
    case ProxyRecorded(port, _, _, _) => port in t.configs || AlreadyRecorded(t, op)
    case _ => true
  }

  lemma PossibleIff(t: Tables, op: ControlOp, index: nat)
    requires Admissible(op)
    ensures Mutate(t, op, index).Ok? <==> Possible(t, op)
    ensures Mutate(t, op, index).Err? ==> op.PatchStubs? || op.SetEnabled? || op.ProxyRecorded?
    ensures Mutate(t, op, index).Err? && op.port !in t.configs ==> Mutate(t, op, index).error == NoImposter(op.port)
    ensures Mutate(t, op, index).Err? && op.port in t.configs ==>
              op.PatchStubs? && Edited(t.configs[op.port].config.stubs, op.script) == Err(Mutate(t, op, index).error)
  {
    if op.ProxyRecorded? { RecordingMeansWhatItSays(t, op, index); }
  }

  /** Why an op was refused, in the order the causes count: it is not admissible, its condition does
      not hold, or it does not find what it edits. */
  ghost predicate RefusedFor(t: Tables, request: ControlRequest, reason: Refusal) {
    if !Admissible(request.op) then reason.Invalid?
    else if !ConditionHolds(t, request) then
      if request.expectAbsent && request.expectedRevision.None? && exists port: Port :: WritesRow(request.op, port)
      then exists port: Port :: WritesRow(request.op, port) && reason == PortInUse(port)
      else reason == RevisionConflict
    else
      && (request.op.PatchStubs? || request.op.SetEnabled? || request.op.ProxyRecorded?)
      && if request.op.port !in t.configs then reason == NoImposter(request.op.port)
         else request.op.PatchStubs? && Edited(t.configs[request.op.port].config.stubs, request.op.script) == Err(reason)
  }

  /** Exactly when an op applies, and why it is refused when it does not. */
  lemma AppliesIff(t: Tables, request: ControlRequest, index: nat)
    ensures Execute(t, request, index).Ok? <==> Admissible(request.op) && ConditionHolds(t, request) && Possible(t, request.op)
    ensures Execute(t, request, index).Err? ==> RefusedFor(t, request, Execute(t, request, index).error)
  {
    ValidatesIff(request.op);
    ConditionHoldsIff(t, request);
    if Admissible(request.op) { PossibleIff(t, request.op, index); }
  }

  /** Which op writes which table: the signing key and the fleet name only their own puts, the route
      table and its revision only the two route ops, and rows and markers only the others. */
  lemma OpWritesItsTable(t: Tables, op: ControlOp, index: nat)
    requires Mutate(t, op, index).Ok?
    ensures var after := Mutate(t, op, index).value;
            && after.sessionKey == (if op.SessionKeyPut? then Some(SessionKey(op.key, index)) else t.sessionKey)
            && after.fleetName == (if op.FleetNamePut? then Some(op.name) else t.fleetName)
            && after.routesRevision == (if WritesRoutes(op) then Some(index) else t.routesRevision)
            && (!WritesRoutes(op) ==> after.routes == t.routes)
            && (op.DeleteRoute? ==> forall id :: (id in after.routes <==> id in t.routes && id != op.id)
                                                 && (id in after.routes ==> after.routes[id] == t.routes[id]))
            && (op.SessionKeyPut? || op.FleetNamePut? || WritesRoutes(op) ==> after.configs == t.configs && after.markers == t.markers)
  {}

  /** So in every log, for every entry that ran. */
  lemma OutcomeIs(log: seq<Payload>, i: nat)
    requires i < |log| && Ran(log, i)
    ensures var t, request, outcome := TablesAt(log, i), log[i].request, ResponseAt(log, i).outcome;
            && (outcome == Applied <==> Admissible(request.op) && ConditionHolds(t, request) && Possible(t, request.op))
            && (outcome.Failed? ==> RefusedFor(t, request, outcome.reason) && TablesAt(log, i + 1) == t)
            && ResponseAt(log, i).revision == i + 1
  {
    StateStep(log, i);
    AppliedCounts(log, i);
    AppliesIff(TablesAt(log, i), log[i].request, i + 1);
  }

  // ---- stub edits ----

  ghost predicate StepRuns(stubs: seq<Stub>, step: StubEdit) {
    match step
    case Add(stub, _) => stub.id.Some? ==> HasNoId(stubs, stub.id.value)
    case ReplaceById(id, _) => !HasNoId(stubs, id)
    case DeleteById(id) => !HasNoId(stubs, id)
    case DeleteBySpace(_) => true
    case Move(source, target) => source < |stubs| && target < |stubs|
  }

  ghost function StepRefusal(stubs: seq<Stub>, step: StubEdit): Refusal
    requires !StepRuns(stubs, step)
  {
    match step
    case Add(stub, _) => DuplicateStubId(stub.id.value)
    case ReplaceById(id, _) => NoStubWithId(id)
    case DeleteById(id) => NoStubWithId(id)
    case Move(source, target) => MoveOutOfBounds(if source < |stubs| then target else source)
  }

  /** What a step leaves of the list: of several stubs with the id, the first is meant. */
  ghost predicate StepDoes(before: seq<Stub>, step: StubEdit, after: seq<Stub>) {
    match step
    case Add(stub, index) => Gained(before, after, if index.Some? && index.value < |before| then index.value else |before|, stub)
    case ReplaceById(id, stub) =>
      exists at: nat :: ReplacedAt(before, after, id, stub, at) && HasNoId(before[..at], id)
    case DeleteById(id) =>
      exists at: nat :: LostWithId(before, after, id, at) && HasNoId(before[..at], id)
    case DeleteBySpace(space) => exists from :: Picked(before, after, OutsideSpace(before, space), from)
    case Move(source, target) =>
      && source < |before| && target < |after|
      && exists between :: Lost(before, between, source) && Gained(between, after, target, before[source])
  }

  lemma StepRunsIff(stubs: seq<Stub>, step: StubEdit)
    ensures EditStep(stubs, step).Ok? <==> StepRuns(stubs, step)
    ensures EditStep(stubs, step).Err? ==> EditStep(stubs, step).error == StepRefusal(stubs, step)
  {}

  lemma StepLeaves(stubs: seq<Stub>, step: StubEdit)
    requires EditStep(stubs, step).Ok?
    ensures StepDoes(stubs, step, EditStep(stubs, step).value)
  {
    var after := EditStep(stubs, step).value;
    match step
    case Add(stub, index) => AddGains(stubs, stub, index);
    case ReplaceById(id, stub) =>
      var at := PositionOfId(stubs, id).value;
      assert ReplacedAt(stubs, after, id, stub, at) && HasNoId(stubs[..at], id);
    case DeleteById(id) =>
      var at := PositionOfId(stubs, id).value;
      RemoveLoses(stubs, at);
      assert LostWithId(stubs, after, id, at) && HasNoId(stubs[..at], id);
    case DeleteBySpace(space) => var from := SpaceIsLost(stubs, space);
    case Move(source, target) =>
      RemoveLoses(stubs, source);
      assert Lost(stubs, Remove(stubs, source), source) && Gained(Remove(stubs, source), after, target, stubs[source]);
  }

  /** The lists a script passes through: one per step that ran, each left by its step. */
  ghost predicate Trace(lists: seq<seq<Stub>>, stubs: seq<Stub>, script: seq<StubEdit>) {
    && 0 < |lists| <= |script| + 1 && lists[0] == stubs
    && forall i :: 0 <= i < |lists| - 1 ==> StepRuns(lists[i], script[i]) && StepDoes(lists[i], script[i], lists[i + 1])
  }

  /** A script is applied whole or refused at its first step that cannot run, with that step's
      reason; applied, it leaves what its steps leave one after another. */
  lemma {:induction false} ScriptIsItsSteps(stubs: seq<Stub>, script: seq<StubEdit>) returns (lists: seq<seq<Stub>>)
    ensures Trace(lists, stubs, script)
    ensures Edited(stubs, script).Ok? <==> |lists| == |script| + 1
    ensures Edited(stubs, script).Ok? ==> Edited(stubs, script).value == lists[|script|]
    ensures Edited(stubs, script).Err? ==>
              var last := lists[|lists| - 1];
              !StepRuns(last, script[|lists| - 1]) && Edited(stubs, script).error == StepRefusal(last, script[|lists| - 1])
    decreases |script|
  {
    lists := [stubs];
    if script != [] {
      StepRunsIff(stubs, script[0]);
      if EditStep(stubs, script[0]).Ok? {
        StepLeaves(stubs, script[0]);
        var next := EditStep(stubs, script[0]).value;
        var rest := ScriptIsItsSteps(next, script[1..]);
        lists := lists + rest;
        TraceExtends(stubs, script, next, rest);
      }
    }
  }

  lemma TraceExtends(stubs: seq<Stub>, script: seq<StubEdit>, next: seq<Stub>, rest: seq<seq<Stub>>)
    requires script != [] && StepRuns(stubs, script[0]) && StepDoes(stubs, script[0], next) && Trace(rest, next, script[1..])
    ensures Trace([stubs] + rest, stubs, script)
  {
    var lists := [stubs] + rest;
    forall i | 0 <= i < |lists| - 1 ensures StepRuns(lists[i], script[i]) && StepDoes(lists[i], script[i], lists[i + 1]) {
      if i > 0 { assert lists[i] == rest[i - 1] && script[i] == script[1..][i - 1]; }
    }
  }

  // ---- markers ----

  /** A stub of the list recorded for the signature, and newest: of the highest rank, and before any
      other of that rank. */
  ghost predicate IsNewest(stubs: seq<Stub>, hash: string, at: nat) {
    && at < |stubs| && HashOfStub(stubs[at]) == Some(hash)
    && forall i :: 0 <= i < |stubs| && HashOfStub(stubs[i]) == Some(hash) ==>
         RankOf(stubs[i]) < RankOf(stubs[at]) || (RankOf(stubs[i]) == RankOf(stubs[at]) && at <= i)
  }

  lemma NewestIsUnique(stubs: seq<Stub>, hash: string, i: nat, j: nat)
    requires IsNewest(stubs, hash, i) && IsNewest(stubs, hash, j)
    ensures i == j
  {}

  lemma NewestStays(front: seq<Stub>, last: Stub, hash: string, at: nat)
    requires IsNewest(front, hash, at)
    requires HashOfStub(last) == Some(hash) ==> RankOf(last) <= RankOf(front[at])
    ensures IsNewest(front + [last], hash, at)
  {
    var stubs := front + [last];
    forall i | 0 <= i < |stubs| && HashOfStub(stubs[i]) == Some(hash)
      ensures RankOf(stubs[i]) < RankOf(stubs[at]) || (RankOf(stubs[i]) == RankOf(stubs[at]) && at <= i)
    {
      if i < |front| { assert stubs[i] == front[i]; }
    }
  }

  lemma NewestIsLast(front: seq<Stub>, last: Stub, hash: string)
    requires HashOfStub(last) == Some(hash)
    requires forall i :: 0 <= i < |front| && HashOfStub(front[i]) == Some(hash) ==> RankOf(front[i]) < RankOf(last)
    ensures IsNewest(front + [last], hash, |front|)
  {
    var stubs := front + [last];
    forall i | 0 <= i < |stubs| && HashOfStub(stubs[i]) == Some(hash)
      ensures RankOf(stubs[i]) < RankOf(last) || i == |front|
    {
      if i < |front| { assert stubs[i] == front[i]; }
    }
  }

  lemma {:induction false} NewestIs(stubs: seq<Stub>, hash: string) returns (at: nat)
    requires NewestOf(stubs, hash).Some?
    ensures IsNewest(stubs, hash, at) && stubs[at] == NewestOf(stubs, hash).value
  {
    var front, last := stubs[..|stubs| - 1], stubs[|stubs| - 1];
    assert front + [last] == stubs;
    NewestIsOfHighestRank(front, hash);
    var before := NewestOf(front, hash);
    if HashOfStub(last) == Some(hash) && (before.None? || RankOf(last) > RankOf(before.value)) {
      at := |front|;
      NewestIsLast(front, last, hash);
    } else {
      at := NewestIs(front, hash);
      NewestStays(front, last, hash, at);
    }
  }

  /** Whether a new stub list keeps the marker of a signature: it still holds the newest stub recorded
      for it, if there was one. */
  ghost predicate KeepsNewest(before: seq<Stub>, after: seq<Stub>, hash: string) {
    forall at: nat :: IsNewest(before, hash, at) ==> before[at] in after
  }

  lemma OrphansIff(before: seq<Stub>, after: seq<Stub>, hash: string)
    ensures Orphans(before, after, hash) <==> !KeepsNewest(before, after, hash)
  {
    NewestIsOfHighestRank(before, hash);
    if NewestOf(before, hash).Some? {
      var at := NewestIs(before, hash);
      forall i: nat | IsNewest(before, hash, i) ensures i == at { NewestIsUnique(before, hash, i, at); }
    }
  }

  /** Whether an op keeps a marker. */
  ghost predicate KeepsMarker(before: Tables, op: ControlOp, after: Tables, port: Port, hash: string) {
    match op
    case PutImposter(config, restart) =>
      config.port == Some(port) ==>
        && port in before.configs && KeepsNewest(StubsOn(before, port), config.stubs, hash)
        && (restart == Some(Imposter) ==> Names(config.stubs, hash))
    case PatchStubs(edited, _) => edited == port ==> KeepsNewest(StubsOn(before, port), StubsOn(after, port), hash)
    case DeleteImposter(deleted) => deleted != port
    case DeleteAll => false
    case ProxyRecordedClear(cleared) => cleared != port
    case _ => true
  }

  /** What an op makes of a marker: it is kept exactly when `KeepsMarker` says, always with the
      response first recorded, and a new one appears only with a once-only recording of its
      signature. */
  lemma MarkerAfter(t: Tables, op: ControlOp, index: nat, port: Port, hash: string)
    requires Mutate(t, op, index).Ok?
    ensures var after := Mutate(t, op, index).value;
            && ((port, hash) in t.markers ==> ((port, hash) in after.markers <==> KeepsMarker(t, op, after, port, hash)))
            && ((port, hash) in t.markers && (port, hash) in after.markers ==> after.markers[(port, hash)] == t.markers[(port, hash)])
            && ((port, hash) !in t.markers && (port, hash) in after.markers ==>
                  op.ProxyRecorded? && op.port == port && op.sigHash == hash && !Merging(op) && after.markers[(port, hash)] == op.resp)
  {
    var after := Mutate(t, op, index).value;
    match op
    case PutImposter(config, _) => if config.port == Some(port) { OrphansIff(StubsOn(t, port), config.stubs, hash); }
    case PatchStubs(edited, _) => if edited == port { OrphansIff(StubsOn(t, port), StubsOn(after, port), hash); }
    case _ =>
  }

  /** The entry leaves the marker alone, or keeps it. */
  ghost predicate SparesMarker(log: seq<Payload>, j: nat, port: Port, hash: string)
    requires j < |log|
  {
    TookEffect(log, j) ==> KeepsMarker(TablesAt(log, j), log[j].request.op, TablesAt(log, j + 1), port, hash)
  }

  /** So at every entry of every log: the marker is there after it exactly when the entry spares it,
      and then with the same response. */
  lemma MarkerStep(log: seq<Payload>, j: nat, port: Port, hash: string)
    requires j < |log| && (port, hash) in TablesAt(log, j).markers
    ensures (port, hash) in TablesAt(log, j + 1).markers <==> SparesMarker(log, j, port, hash)
    ensures (port, hash) in TablesAt(log, j + 1).markers ==>
              TablesAt(log, j + 1).markers[(port, hash)] == TablesAt(log, j).markers[(port, hash)]
  {
    EntrySteps(log, j);
    if TookEffect(log, j) {
      TookEffectExecutes(log, j);
      MarkerAfter(TablesAt(log, j), log[j].request.op, j + 1, port, hash);
    }
  }

  /** And over any stretch of it: a marker keeps the response it was made with for as long as every
      entry spares it. */
  lemma {:induction false} MarkerNeverChanges(log: seq<Payload>, i: nat, k: nat, port: Port, hash: string)
    requires i <= k <= |log| && (port, hash) in TablesAt(log, i).markers
    requires forall j :: i <= j < k ==> SparesMarker(log, j, port, hash)
    ensures (port, hash) in TablesAt(log, k).markers
    ensures TablesAt(log, k).markers[(port, hash)] == TablesAt(log, i).markers[(port, hash)]
    decreases k
  {
    if i < k {
      MarkerNeverChanges(log, i, k - 1, port, hash);
      MarkerStep(log, k - 1, port, hash);
    }
  }

  // ---- recorded ids ----

  ghost predicate AllLowerHex(s: string) {
    forall i :: 0 <= i < |s| ==> s[i] in "0123456789abcdef"
  }

  lemma LowerHexIff(s: string)
    ensures IsLowerHex(s) <==> AllLowerHex(s)
  {
    assert forall c: char :: '0' <= c <= '9' || 'a' <= c <= 'f' <==> c in "0123456789abcdef";
  }

  /** The two spellings of a recorded stub id. */
  ghost predicate SpellsRecordedId(id: string, hash: string, rank: nat) {
    && hash != "" && AllLowerHex(hash)
    && ((rank == 0 && id == "proxy-recorded-" + hash) || exists digits :: SpellsRank(id, hash, digits, rank))
  }

  ghost predicate SpellsRank(id: string, hash: string, digits: string, rank: nat) {
    && id == "proxy-recorded-" + hash + "-r" + digits
    && digits != "" && AllDigits(digits) && NumberOf(digits) == rank && rank <= 0xFFFF_FFFF_FFFF_FFFF
  }

  lemma {:induction false} RankMarkIs(s: string)
    requires FindRankMark(s).Some?
    ensures var at := FindRankMark(s).value; s == s[..at] + "-r" + s[at + 2..]
  {
    if !(s[0] == '-' && s[1] == 'r') { RankMarkIs(s[1..]); }
  }

  lemma {:induction false} RankMarkAt(hash: string, digits: string)
    requires IsLowerHex(hash)
    ensures FindRankMark(hash + "-r" + digits) == Some(|hash|)
  {
    if hash != "" {
      RankMarkAt(hash[1..], digits);
      assert (hash + "-r" + digits)[1..] == hash[1..] + "-r" + digits;
    }
  }

  lemma SpelledIdParses(id: string, hash: string, digits: string, rank: nat)
    requires hash != "" && IsLowerHex(hash) && SpellsRank(id, hash, digits, rank)
    ensures RecordedId(id) == Some((hash, rank))
  {
    var rest := hash + "-r" + digits;
    RankMarkAt(hash, digits);
    assert id == RECORDED_STUB_ID_PREFIX + rest && id[|RECORDED_STUB_ID_PREFIX|..] == rest;
    assert rest[..|hash|] == hash && rest[|hash| + 2..] == digits;
  }

  lemma FourParts(a: string, b: string, c: string, d: string)
    ensures a + (b + c + d) == a + b + c + d
  {}

  lemma PrefixedIs(id: string, prefix: string)
    requires StripPrefix(id, prefix).Some?
    ensures id == prefix + StripPrefix(id, prefix).value
  {}

  lemma ParsedIdIsSpelled(id: string, hash: string, rank: nat)
    requires RecordedId(id) == Some((hash, rank))
    ensures SpellsRecordedId(id, hash, rank)
  {
    var rest := StripPrefix(id, RECORDED_STUB_ID_PREFIX).value;
    PrefixedIs(id, RECORDED_STUB_ID_PREFIX);
    LowerHexIff(hash);
    var mark := FindRankMark(rest);
    if mark.Some? {
      RankMarkIs(rest);
      var digits := rest[mark.value + 2..];
      FourParts(RECORDED_STUB_ID_PREFIX, hash, "-r", digits);
      assert SpellsRank(id, hash, digits, rank);
    }
  }

  /** Which ids name a recording, of which signature and which rank. */
  lemma RecordedIdIff(id: string, hash: string, rank: nat)
    ensures RecordedId(id) == Some((hash, rank)) <==> SpellsRecordedId(id, hash, rank)
  {
    if RecordedId(id) == Some((hash, rank)) { ParsedIdIsSpelled(id, hash, rank); }
    if SpellsRecordedId(id, hash, rank) {
      LowerHexIff(hash);
      if rank == 0 && id == "proxy-recorded-" + hash {
        BaseIdNamesItsHash(hash);
      } else {
        var digits :| SpellsRank(id, hash, digits, rank);
        SpelledIdParses(id, hash, digits, rank);
      }
    }
  }

  // ---- the clock ----

  /** The replicated clock is the latest issue time the log has carried, and an entry's response
      answers for its id for a day past it, as far as a u64 reaches. */
  lemma {:induction false} ClockIsTheLatest(log: seq<Payload>, k: nat)
    requires k <= |log|
    ensures forall i :: 0 <= i < k && log[i].Normal? ==> log[i].request.issuedAt <= StateAt(log, k).clock
    ensures StateAt(log, k).clock == 0 || exists i :: 0 <= i < k && log[i].Normal? && log[i].request.issuedAt == StateAt(log, k).clock
  {
    if k == 0 {
      assert StateAt(log, 0) == INITIAL;
    } else {
      ClockIsTheLatest(log, k - 1);
      StateStep(log, k - 1);
    }
  }

  lemma WindowIsADay(log: seq<Payload>, i: nat)
    requires i < |log| && log[i].Normal?
    ensures StateAt(log, i + 1).clock == ClockAt(log, i)
    ensures ExpiryOf(log, i) == if ClockAt(log, i) + 86_400 <= 0xFFFF_FFFF_FFFF_FFFF then ClockAt(log, i) + 86_400 else 0xFFFF_FFFF_FFFF_FFFF
  {
    StateStep(log, i);
  }
}
