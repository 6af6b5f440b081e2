/** Unique stub ids in the replicated configs.

    Validation refuses a whole config with a repeated stub id and an edit script refuses to add one,
    but a recorded stub is placed without that check (crates/rift-cluster/src/raft/store.rs,
    crates/rift-cluster/src/control.rs).  When do ids stay unique?
 */
module StubIds {
  import opened Text
  import opened Control
  import opened StateMachine
  import opened Dedup
  import opened Revisions
  import opened Recording

  ghost predicate HasId(stubs: seq<Stub>, id: string) {
    exists i :: 0 <= i < |stubs| && stubs[i].id == Some(id)
  }

  ghost predicate AllUnique(t: Tables) {
    forall port :: port in t.configs ==> UniqueIds(t.configs[port].config.stubs)
  }

  // ---- what a recording places ----

  /** The stub a recording places, under the id it will carry. */
  function StubPlaced(stubs: seq<Stub>, sigHash: string, recorded: RecordedStub, index: nat): Stub {
    if recorded.stub.id.Some? then recorded.stub else recorded.stub.(id := Some(RecordingId(stubs, sigHash, index)))
  }

  /** Placing adds a stub, rather than merging into one that is there. */
  predicate Adds(stubs: seq<Stub>, recorded: RecordedStub) {
    var anchor := AnchorOf(stubs, recorded);
    recorded.placement.BeforeProxy? ||
    FindPredicates(stubs, if anchor.Some? then anchor.value + 1 else 0, recorded.stub.predicates).None?
  }

  /** The op records a stub under an id another stub of the imposter already carries. */
  ghost predicate RepeatsId(t: Tables, op: ControlOp, index: nat) {
    && op.ProxyRecorded? && op.recorded.Some? && op.port in t.configs
    && (op.recorded.value.placement.AfterProxyMerging? || (op.port, op.sigHash) !in t.markers)
    && var stubs := t.configs[op.port].config.stubs;
       Adds(stubs, op.recorded.value) && HasId(stubs, StubPlaced(stubs, op.sigHash, op.recorded.value, index).id.value)
  }

  lemma InsertIsUniqueIff(stubs: seq<Stub>, at: nat, stub: Stub)
    requires UniqueIds(stubs) && at <= |stubs| && stub.id.Some?
    ensures UniqueIds(Insert(stubs, at, stub)) <==> !HasId(stubs, stub.id.value)
  {
    if HasId(stubs, stub.id.value) {
      var i :| 0 <= i < |stubs| && stubs[i].id == stub.id;
      var after := Insert(stubs, at, stub);
      assert after[at] == stub && after[if i < at then i else i + 1] == stubs[i];
    } else {
      InsertKeepsIdsUnique(stubs, at, stub);
    }
  }

  lemma PlacedIsUniqueIff(stubs: seq<Stub>, stub: Stub, recorded: RecordedStub)
    requires UniqueIds(stubs) && stub.id.Some? && stub == recorded.stub.(id := stub.id)
    ensures UniqueIds(PlaceRecorded(stubs, stub, recorded)) <==> !(Adds(stubs, recorded) && HasId(stubs, stub.id.value))
  {
    var anchor := AnchorOf(stubs, recorded);
    match recorded.placement
    case BeforeProxy =>
      InsertIsUniqueIff(stubs, if anchor.Some? then anchor.value else |stubs|, stub);
    case AfterProxyMerging =>
      InsertIsUniqueIff(stubs, |stubs|, stub);
      assert Insert(stubs, |stubs|, stub) == stubs + [stub];
  }

  // ---- one op ----

  /** Every op but a recording keeps the ids of every imposter unique. */
  lemma OtherOpsKeepUnique(t: Tables, op: ControlOp, index: nat)
    requires AllUnique(t) && Validate(op).Ok? && Mutate(t, op, index).Ok? && !op.ProxyRecorded? && !op.ProxyRecordedClear?
    ensures AllUnique(Mutate(t, op, index).value)
  {
    if op.PatchStubs? { EditsKeepIdsUnique(t.configs[op.port].config.stubs, op.script); }
  }

  lemma {:induction false} StrippedKeepsIds(stubs: seq<Stub>)
    ensures forall s :: s in Stripped(stubs) && s.id.Some? ==> HasId(stubs, s.id.value)
    ensures UniqueIds(stubs) ==> UniqueIds(Stripped(stubs))
  {
    if stubs != [] {
      var rest := stubs[1..];
      StrippedKeepsIds(rest);
      assert forall i :: 0 <= i < |rest| ==> rest[i] == stubs[i + 1];
      forall s | s in Stripped(stubs) && s.id.Some? ensures HasId(stubs, s.id.value) {
        if s in Stripped(rest) {
          var i :| 0 <= i < |rest| && rest[i].id == s.id;
          assert stubs[i + 1].id == s.id;
        } else {
          assert stubs[0].id == s.id;
        }
      }
      if UniqueIds(stubs) {
        assert UniqueIds(rest);
        assert forall s :: s in Stripped(rest) && s.id.Some? ==> s.id != stubs[0].id;
      }
    }
  }

  lemma ClearKeepsUnique(t: Tables, port: Port, index: nat)
    requires AllUnique(t)
    ensures AllUnique(ClearRecorded(t, port, index))
  {
    if port in t.configs { StrippedKeepsIds(t.configs[port].config.stubs); }
  }

  lemma RecordingIsUniqueIff(t: Tables, op: ControlOp, index: nat)
    requires AllUnique(t) && op.ProxyRecorded? && Mutate(t, op, index).Ok?
    ensures AllUnique(Mutate(t, op, index).value) <==> !RepeatsId(t, op, index)
  {
    var after := Mutate(t, op, index).value;
    if op.recorded.Some? && op.port in t.configs && (op.recorded.value.placement.AfterProxyMerging? || (op.port, op.sigHash) !in t.markers) {
      var stubs := t.configs[op.port].config.stubs;
      var stub := StubPlaced(stubs, op.sigHash, op.recorded.value, index);
      PlacedIsUniqueIff(stubs, stub, op.recorded.value);
      assert after.configs[op.port].config.stubs == PlaceRecorded(stubs, stub, op.recorded.value);
    } else {
      assert after.configs == t.configs;
    }
  }

  /** An applied op keeps ids unique if and only if it does not record a stub under a taken id. */
  lemma OpKeepsUniqueIff(t: Tables, op: ControlOp, index: nat)
    requires AllUnique(t) && Validate(op).Ok? && Mutate(t, op, index).Ok?
    ensures AllUnique(Mutate(t, op, index).value) <==> !RepeatsId(t, op, index)
  {
    if op.ProxyRecorded? {
      RecordingIsUniqueIff(t, op, index);
    } else if op.ProxyRecordedClear? {
      ClearKeepsUnique(t, op.port, index);
    } else {
      OtherOpsKeepUnique(t, op, index);
    }
  }

  // ---- every log ----

  /** Entry `i` applied a recording under a taken id. */
  ghost predicate RepeatsIdAt(log: seq<Payload>, i: nat)
    requires i < |log|
  {
    TookEffect(log, i) && RepeatsId(TablesAt(log, i), log[i].request.op, i + 1)
  }

  lemma EntryKeepsUniqueIff(log: seq<Payload>, i: nat)
    requires i < |log| && AllUnique(TablesAt(log, i))
    ensures AllUnique(TablesAt(log, i + 1)) <==> !RepeatsIdAt(log, i)
  {
    EntrySteps(log, i);
    if TookEffect(log, i) {
      TookEffectExecutes(log, i);
      OpKeepsUniqueIff(TablesAt(log, i), log[i].request.op, i + 1);
    }
  }

  ghost predicate UniqueAt(log: seq<Payload>, k: nat)
    requires k <= |log|
  {
    AllUnique(TablesAt(log, k))
  }

  lemma NextIsUniqueIff(log: seq<Payload>, i: nat)
    requires i < |log| && UniqueAt(log, i)
    ensures UniqueAt(log, i + 1) <==> !RepeatsIdAt(log, i)
  {
    EntryKeepsUniqueIff(log, i);
  }

  lemma {:induction false} UniqueUnlessRepeated(log: seq<Payload>, k: nat)
    requires k <= |log| && forall i :: 0 <= i < k ==> !RepeatsIdAt(log, i)
    ensures UniqueAt(log, k)
  {
    if k == 0 {
      assert StateAt(log, 0) == INITIAL;
    } else {
      UniqueUnlessRepeated(log, k - 1);
      NextIsUniqueIff(log, k - 1);
    }
  }

  /** In every log, stub ids are unique at every point up to `k` if and only if no entry before `k`
      recorded a stub under a taken id. */
  lemma IdsStayUniqueIff(log: seq<Payload>, k: nat)
    requires k <= |log|
    ensures (forall j :: 0 <= j <= k ==> UniqueAt(log, j)) <==> forall i :: 0 <= i < k ==> !RepeatsIdAt(log, i)
  {
    if forall j :: 0 <= j <= k ==> UniqueAt(log, j) {
      forall i | 0 <= i < k ensures !RepeatsIdAt(log, i) { NextIsUniqueIff(log, i); }
    }
    if forall i :: 0 <= i < k ==> !RepeatsIdAt(log, i) {
      forall j | 0 <= j <= k ensures UniqueAt(log, j) { UniqueUnlessRepeated(log, j); }
    }
  }

  // ---- derived ids ----

  lemma {:induction false} HexHasNoRankMark(s: string)
    requires IsLowerHex(s)
    ensures FindRankMark(s) == None
  {
    if |s| >= 2 { HexHasNoRankMark(s[1..]); }
  }

  lemma BaseIdNamesItsHash(hash: string)
    requires hash != "" && IsLowerHex(hash)
    ensures RecordedId(RECORDED_STUB_ID_PREFIX + hash) == Some((hash, 0))
  {
    HexHasNoRankMark(hash);
    assert (RECORDED_STUB_ID_PREFIX + hash)[|RECORDED_STUB_ID_PREFIX|..] == hash;
  }

  lemma NamedHashIsLowerHex(stubs: seq<Stub>, hash: string)
    requires Names(stubs, hash)
    ensures IsLowerHex(hash)
  {}

  lemma BaseIdIsNamed(stubs: seq<Stub>, hash: string)
    requires hash != "" && IsLowerHex(hash) && HasId(stubs, RECORDED_STUB_ID_PREFIX + hash)
    ensures Names(stubs, hash)
  {
    BaseIdNamesItsHash(hash);
    var i :| 0 <= i < |stubs| && stubs[i].id == Some(RECORDED_STUB_ID_PREFIX + hash);
    assert HashOfStub(stubs[i]) == Some(hash);
  }

  /** A stub recorded without an id of its own is given a taken one exactly when: for a lower-case
      signature, the imposter holds the signature and a stub already named with this very log index;
      for any other signature, a stub carries its base id. */
  lemma DerivedIdIsTakenIff(stubs: seq<Stub>, hash: string, index: nat)
    requires hash != ""
    ensures var base := RECORDED_STUB_ID_PREFIX + hash;
            HasId(stubs, RecordingId(stubs, hash, index)) <==>
            if IsLowerHex(hash) then Names(stubs, hash) && HasId(stubs, base + "-r" + Decimal(index)) else HasId(stubs, base)
  {
    if Names(stubs, hash) { NamedHashIsLowerHex(stubs, hash); }
    if IsLowerHex(hash) && HasId(stubs, RECORDED_STUB_ID_PREFIX + hash) { BaseIdIsNamed(stubs, hash); }
  }

  // ---- a repeated id ----

  /** A put of an imposter, and a recording on it ahead of its proxy. */
  ghost predicate PutAndRecording(put: ControlRequest, recording: ControlRequest, port: Port) {
    && Bare(put) && Bare(recording) && put.opId != recording.opId
    && put.op.PutImposter? && put.op.config.port == Some(port)
    && recording.op.ProxyRecorded? && recording.op.port == port
    && recording.op.recorded.Some? && recording.op.recorded.value.placement.BeforeProxy?
  }

  lemma BothTakeEffect(put: ControlRequest, recording: ControlRequest, port: Port, log: seq<Payload>)
    requires PutAndRecording(put, recording, port) && log == [Normal(put), Normal(recording)]
    ensures TookEffect(log, 0) && TookEffect(log, 1) && AllUnique(TablesAt(log, 1))
    ensures TablesAt(log, 1).markers == map[] && port in TablesAt(log, 1).configs
    ensures TablesAt(log, 1).configs[port].config.stubs == put.op.config.stubs
  {
    assert StateAt(log, 0) == INITIAL;
    BareTakesEffect(log, 0);
    TookEffectExecutes(log, 0);
    assert TablesAt(log, 1).markers == map[];
    BareTakesEffect(log, 1);
    EntryKeepsUniqueIff(log, 0);
  }

  /** Two valid writes reach a repeated id whenever the id the recording is given is taken. */
  lemma TakenIdIsRepeated(put: ControlRequest, recording: ControlRequest, port: Port) returns (log: seq<Payload>)
    requires PutAndRecording(put, recording, port)
    requires HasId(put.op.config.stubs, StubPlaced(put.op.config.stubs, recording.op.sigHash, recording.op.recorded.value, 2).id.value)
    ensures log == [Normal(put), Normal(recording)] && TookEffect(log, 0) && TookEffect(log, 1)
    ensures AllUnique(TablesAt(log, 1)) && !AllUnique(TablesAt(log, 2))
  {
    log := [Normal(put), Normal(recording)];
    BothTakeEffect(put, recording, port, log);
    EntryKeepsUniqueIff(log, 1);
  }

  /** So does a recording that brings an id some stub bears. */
  lemma RecordingCanRepeatAnId(put: ControlRequest, recording: ControlRequest, port: Port, id: string) returns (log: seq<Payload>)
    requires PutAndRecording(put, recording, port) && HasId(put.op.config.stubs, id)
    requires recording.op.recorded.value.stub.id == Some(id)
    ensures log == [Normal(put), Normal(recording)] && TookEffect(log, 0) && TookEffect(log, 1)
    ensures AllUnique(TablesAt(log, 1)) && !AllUnique(TablesAt(log, 2))
  {
    log := TakenIdIsRepeated(put, recording, port);
  }

  /** And a client reaches it through a derived id: a put of stubs that already bear the signature and
      the log index the recording will have, then a recording of that signature that brings no id. */
  lemma DerivedIdCanRepeat(put: ControlRequest, recording: ControlRequest, port: Port) returns (log: seq<Payload>)
    requires PutAndRecording(put, recording, port) && IsLowerHex(recording.op.sigHash)
    requires HasId(put.op.config.stubs, RECORDED_STUB_ID_PREFIX + recording.op.sigHash)
    requires HasId(put.op.config.stubs, RECORDED_STUB_ID_PREFIX + recording.op.sigHash + "-r" + Decimal(2))
    requires recording.op.recorded.value.stub.id.None?
    ensures log == [Normal(put), Normal(recording)] && TookEffect(log, 0) && TookEffect(log, 1)
    ensures AllUnique(TablesAt(log, 1)) && !AllUnique(TablesAt(log, 2))
  {
    BaseIdIsNamed(put.op.config.stubs, recording.op.sigHash);
    DerivedIdIsTakenIff(put.op.config.stubs, recording.op.sigHash, 2);
    log := TakenIdIsRepeated(put, recording, port);
  }
}
