/** Recorded proxy responses in the replicated tables: the markers that make a recording happen
    once, and the clear that forgets them (crates/rift-cluster/src/raft/store.rs,
    crates/rift-cluster/src/control.rs).
 */
module Recording {
  import opened Text
  import opened Control
  import opened StateMachine
  import opened Dedup
  import opened Revisions

  // ---- what a clear strips ----

  lemma {:induction false} UnrecordedShape(responses: seq<StubResponse>)
    ensures !AnyRecorded(Unrecorded(responses))
    ensures !AnyRecorded(responses) ==> Unrecorded(responses) == responses
  {
    if responses != [] {
      UnrecordedShape(responses[1..]);
      var rest := Unrecorded(responses[1..]);
      if !AnyRecorded(responses) {
        assert !IsRecorded(responses[0]);
        assert forall i :: 0 <= i < |responses[1..]| ==> responses[1..][i] == responses[i + 1];
        assert !AnyRecorded(responses[1..]);
      }
    }
  }

  /** What is left holds no recorded response, and is never longer. */
  lemma {:induction false} StrippedHoldsNoRecording(stubs: seq<Stub>)
    ensures forall i :: 0 <= i < |Stripped(stubs)| ==> !AnyRecorded(Stripped(stubs)[i].responses)
    ensures |Stripped(stubs)| <= |stubs|
  {
    if stubs != [] {
      StrippedHoldsNoRecording(stubs[1..]);
      UnrecordedShape(stubs[0].responses);
    }
  }

  predicate NothingToStrip(stubs: seq<Stub>) {
    forall i :: 0 <= i < |stubs| ==> !AnyRecorded(stubs[i].responses) && stubs[i].recordedFrom.None?
  }

  lemma {:induction false} StripKeepsIff(stubs: seq<Stub>)
    ensures Stripped(stubs) == stubs <==> NothingToStrip(stubs)
    ensures |Stripped(stubs)| == |stubs| && (forall i :: 0 <= i < |stubs| ==> !AnyRecorded(stubs[i].responses)) ==> NothingToStrip(stubs)
  {
    if stubs != [] {
      StripKeepsIff(stubs[1..]);
      StrippedHoldsNoRecording(stubs);
      StrippedHoldsNoRecording(stubs[1..]);
      assert forall i :: 0 <= i < |stubs[1..]| ==> stubs[1..][i] == stubs[i + 1];
      assert stubs == [stubs[0]] + stubs[1..];
    }
  }

  /** A clear stamps the row with a new revision exactly when it changes a stub. */
  lemma ClearReportsAChangeIff(stubs: seq<Stub>)
    ensures StripsAnything(stubs) <==> Stripped(stubs) != stubs
  {
    StripKeepsIff(stubs);
    StrippedHoldsNoRecording(stubs);
  }

  /** A stub recorded from a proxy that holds recorded and other responses side by side. */
  predicate Mixed(stub: Stub) {
    stub.recordedFrom.Some? && AnyRecorded(stub.responses) && Unrecorded(stub.responses) != []
  }

  lemma {:induction false} StrippedRecordedFrom(stubs: seq<Stub>)
    ensures (exists i :: 0 <= i < |Stripped(stubs)| && Stripped(stubs)[i].recordedFrom.Some?) <==> exists i :: 0 <= i < |stubs| && Mixed(stubs[i])
  {
    if stubs != [] {
      var first, rest := stubs[0], stubs[1..];
      StrippedRecordedFrom(rest);
      assert stubs == [first] + rest;
      var kept := StripOne(first);
      if exists i :: 0 <= i < |rest| && Mixed(rest[i]) {
        var i :| 0 <= i < |rest| && Mixed(rest[i]);
        assert stubs[i + 1] == rest[i];
        var j :| 0 <= j < |Stripped(rest)| && Stripped(rest)[j].recordedFrom.Some?;
        assert Stripped(stubs)[|kept| + j] == Stripped(rest)[j];
      } else if Mixed(first) {
        assert Stripped(stubs)[0].recordedFrom.Some?;
      } else {
        forall i | 0 <= i < |Stripped(stubs)| ensures Stripped(stubs)[i].recordedFrom.None? {
          if i >= |kept| { assert Stripped(stubs)[i] == Stripped(rest)[i - |kept|]; }
        }
      }
    }
  }

  /** Clearing twice is not clearing once: a second clear removes more exactly when some stub is
      mixed, because what the first leaves of it no longer looks recorded but still names its
      proxy. */
  lemma ClearIsIdempotentIff(stubs: seq<Stub>)
    ensures Stripped(Stripped(stubs)) == Stripped(stubs) <==> forall i :: 0 <= i < |stubs| ==> !Mixed(stubs[i])
  {
    StrippedHoldsNoRecording(stubs);
    StripKeepsIff(Stripped(stubs));
    StrippedRecordedFrom(stubs);
  }

  /** Entry `i` applied a clear of the port. */
  ghost predicate Clears(log: seq<Payload>, i: nat, port: Port)
    requires i < |log|
  {
    TookEffect(log, i) && log[i].request.op == ProxyRecordedClear(port)
  }

  lemma ClearLeaves(log: seq<Payload>, i: nat, port: Port)
    requires i < |log| && Clears(log, i, port) && port in TablesAt(log, i).configs
    ensures port in TablesAt(log, i + 1).configs
    ensures var before := TablesAt(log, i).configs[port];
            TablesAt(log, i + 1).configs[port] ==
            if Stripped(before.config.stubs) == before.config.stubs then before
            else before.(config := before.config.(stubs := Stripped(before.config.stubs)), revision := i + 1)
  {
    TookEffectExecutes(log, i);
    ClearReportsAChangeIff(TablesAt(log, i).configs[port].config.stubs);
  }

  /** In every log: of two clears of a port with nothing written to it between them, the second still
      changes the row, and stamps it, exactly when a stub was mixed before the first. */
  lemma SecondClearChangesIff(log: seq<Payload>, i: nat, j: nat, port: Port)
    requires i < j < |log| && Clears(log, i, port) && Clears(log, j, port) && port in TablesAt(log, i).configs
    requires port in TablesAt(log, i + 1).configs && port in TablesAt(log, j).configs
    requires TablesAt(log, j).configs[port] == TablesAt(log, i + 1).configs[port]
    ensures port in TablesAt(log, j + 1).configs
    ensures TablesAt(log, j + 1).configs[port] != TablesAt(log, j).configs[port] <==>
            exists m :: 0 <= m < |TablesAt(log, i).configs[port].config.stubs| && Mixed(TablesAt(log, i).configs[port].config.stubs[m])
  {
    ClearLeaves(log, i, port);
    ClearLeaves(log, j, port);
    ClearIsIdempotentIff(TablesAt(log, i).configs[port].config.stubs);
  }

  /** Valid, and with no precondition. */
  ghost predicate Bare(request: ControlRequest) {
    Validate(request.op).Ok? && request.expectedRevision.None? && !request.expectAbsent
  }

  /** A bare op the tables cannot refuse takes effect under an id of its own. */
  lemma BareTakesEffect(log: seq<Payload>, k: nat)
    requires k < |log| && log[k].Normal? && Bare(log[k].request)
    requires forall m :: 0 <= m < k ==> !UsesId(log[m], log[k].request.opId)
    requires Mutate(TablesAt(log, k), log[k].request.op, k + 1).Ok?
    ensures TookEffect(log, k)
  {
    FirstUseRuns(log, k);
    StateStep(log, k);
    AppliedCounts(log, k);
  }

  lemma PutLeavesItsStubs(log: seq<Payload>, k: nat, port: Port)
    requires k < |log| && TookEffect(log, k) && log[k].request.op.PutImposter? && log[k].request.op.config.port == Some(port)
    ensures port in TablesAt(log, k + 1).configs && TablesAt(log, k + 1).configs[port].config.stubs == log[k].request.op.config.stubs
  {
    TookEffectExecutes(log, k);
  }

  lemma ClearTakesEffect(log: seq<Payload>, k: nat, port: Port)
    requires k < |log| && log[k].Normal? && Bare(log[k].request) && log[k].request.op == ProxyRecordedClear(port)
    requires forall m :: 0 <= m < k ==> !UsesId(log[m], log[k].request.opId)
    ensures Clears(log, k, port)
  {
    BareTakesEffect(log, k);
  }

  /** A mixed stub put and then cleared twice is changed by the second clear. */
  lemma TwoClearsOfAPut(log: seq<Payload>, port: Port, m: nat)
    requires |log| == 3 && TookEffect(log, 0) && Clears(log, 1, port) && Clears(log, 2, port)
    requires log[0].request.op.PutImposter? && log[0].request.op.config.port == Some(port)
    requires m < |log[0].request.op.config.stubs| && Mixed(log[0].request.op.config.stubs[m])
    ensures port in TablesAt(log, 2).configs && port in TablesAt(log, 3).configs
    ensures TablesAt(log, 3).configs[port] != TablesAt(log, 2).configs[port]
  {
    PutLeavesItsStubs(log, 0, port);
    assert Mixed(TablesAt(log, 1).configs[port].config.stubs[m]);
    ClearLeaves(log, 1, port);
    SecondClearChangesIff(log, 1, 2, port);
  }

  /** A mixed stub is within a client's reach: put it, clear twice, and the second clear changes the
      row. */
  lemma ClearingTwiceCanChangeTwice(put: ControlRequest, first: ControlRequest, second: ControlRequest, port: Port, m: nat)
    returns (log: seq<Payload>)
    requires Bare(put) && Bare(first) && Bare(second)
    requires put.opId != first.opId && put.opId != second.opId && first.opId != second.opId
    requires put.op.PutImposter? && put.op.config.port == Some(port) && m < |put.op.config.stubs| && Mixed(put.op.config.stubs[m])
    requires first.op == ProxyRecordedClear(port) && second.op == ProxyRecordedClear(port)
    ensures log == [Normal(put), Normal(first), Normal(second)] && Clears(log, 1, port) && Clears(log, 2, port)
    ensures port in TablesAt(log, 2).configs && port in TablesAt(log, 3).configs
    ensures TablesAt(log, 3).configs[port] != TablesAt(log, 2).configs[port]
  {
    log := [Normal(put), Normal(first), Normal(second)];
    BareTakesEffect(log, 0);
    ClearTakesEffect(log, 1, port);
    ClearTakesEffect(log, 2, port);
    TwoClearsOfAPut(log, port, m);
  }

  // ---- markers ----

  /** A marker stands only for a configured port. */
  ghost predicate MarkersAreHoused(t: Tables) {
    forall key :: key in t.markers ==> key.0 in t.configs
  }

  lemma MutateKeepsMarkersHoused(t: Tables, op: ControlOp, index: nat)
    requires MarkersAreHoused(t) && Mutate(t, op, index).Ok?
    ensures MarkersAreHoused(Mutate(t, op, index).value)
  {}

  /** In every log, no marker outlives its imposter: a port created again starts with none. */
  lemma {:induction false} NoMarkerOutlivesItsImposter(log: seq<Payload>, k: nat)
    requires k <= |log|
    ensures MarkersAreHoused(TablesAt(log, k))
  {
    if k == 0 {
      assert StateAt(log, 0) == INITIAL;
    } else {
      NoMarkerOutlivesItsImposter(log, k - 1);
      EntrySteps(log, k - 1);
      if TookEffect(log, k - 1) {
        TookEffectExecutes(log, k - 1);
        MutateKeepsMarkersHoused(TablesAt(log, k - 1), log[k - 1].request.op, k);
      }
    }
  }

  /** Entry `i` applied a recording that was to happen once. */
  ghost predicate RecordsOnce(log: seq<Payload>, i: nat, port: Port, hash: string)
    requires i < |log|
  {
    && TookEffect(log, i) && log[i].request.op.ProxyRecorded?
    && log[i].request.op.port == port && log[i].request.op.sigHash == hash
    && !(log[i].request.op.recorded.Some? && log[i].request.op.recorded.value.placement.AfterProxyMerging?)
  }

  lemma RecordingMarks(log: seq<Payload>, i: nat, port: Port, hash: string)
    requires i < |log| && RecordsOnce(log, i, port, hash)
    ensures (port, hash) in TablesAt(log, i + 1).markers
    ensures (port, hash) in TablesAt(log, i).markers ==> TablesAt(log, i + 1) == TablesAt(log, i)
  {
    TookEffectExecutes(log, i);
  }

  /** Recorded once: of two recordings of one signature that both changed the tables, the marker of
      the first was forgotten in between. */
  lemma RecordingsAreSeparatedByForgetting(log: seq<Payload>, i: nat, j: nat, port: Port, hash: string) returns (k: nat)
    requires i < j < |log| && RecordsOnce(log, i, port, hash) && RecordsOnce(log, j, port, hash)
    requires TablesAt(log, j + 1) != TablesAt(log, j)
    ensures i < k < j && (port, hash) in TablesAt(log, k).markers && (port, hash) !in TablesAt(log, k + 1).markers
  {
    RecordingMarks(log, i, port, hash);
    RecordingMarks(log, j, port, hash);
    k := LastMarked(log, i + 1, j, port, hash);
  }

  lemma {:induction false} LastMarked(log: seq<Payload>, start: nat, end: nat, port: Port, hash: string) returns (k: nat)
    requires start <= end <= |log|
    requires (port, hash) in TablesAt(log, start).markers && (port, hash) !in TablesAt(log, end).markers
    ensures start <= k < end && (port, hash) in TablesAt(log, k).markers && (port, hash) !in TablesAt(log, k + 1).markers
    decreases end
  {
    if (port, hash) in TablesAt(log, end - 1).markers {
      k := end - 1;
    } else {
      k := LastMarked(log, start, end - 1, port, hash);
    }
  }

  // ---- which markers an edit forgets ----

  ghost function RankOf(stub: Stub): nat
    requires HashOfStub(stub).Some?
  {
    RecordedId(stub.id.value).value.1
  }

  /** The newest stub of a signature is one of the list's, of the highest rank there is; there is
      one exactly when some stub carries the signature. */
  lemma {:induction false} NewestIsOfHighestRank(stubs: seq<Stub>, hash: string)
    ensures NewestOf(stubs, hash).Some? <==> Names(stubs, hash)
    ensures NewestOf(stubs, hash).Some? ==> NewestOf(stubs, hash).value in stubs
    ensures NewestOf(stubs, hash).Some? ==>
              forall i :: 0 <= i < |stubs| && HashOfStub(stubs[i]) == Some(hash) ==> RankOf(stubs[i]) <= RankOf(NewestOf(stubs, hash).value)
  {
    if stubs != [] {
      var front, last := stubs[..|stubs| - 1], stubs[|stubs| - 1];
      NewestIsOfHighestRank(front, hash);
      assert stubs == front + [last];
      assert Names(stubs, hash) <==> Names(front, hash) || HashOfStub(last) == Some(hash) by {
        if Names(front, hash) {
          var i :| 0 <= i < |front| && HashOfStub(front[i]) == Some(hash);
          assert stubs[i] == front[i];
        }
        assert HashOfStub(last) == Some(hash) ==> HashOfStub(stubs[|front|]) == Some(hash);
      }
    }
  }

  /** A put over a configured port forgets a marker of the port exactly when the newest stub recorded
      for it goes with the edit, or the imposter restarts with no stub of that signature left. */
  lemma MarkerSurvivesPutIff(t: Tables, port: Port, config: ImposterConfig, restart: Option<Restart>, index: nat, hash: string)
    requires port in t.configs && (port, hash) in t.markers
    ensures var before := t.configs[port].config.stubs;
            (port, hash) in PutConfig(t, port, config, restart, index).markers <==>
            && (Names(before, hash) ==> NewestOf(before, hash).Some? && NewestOf(before, hash).value in config.stubs)
            && (restart == Some(Imposter) ==> Names(config.stubs, hash))
  {
    NewestIsOfHighestRank(t.configs[port].config.stubs, hash);
  }

  /** A move forgets nothing: no marker of the port depends on the order of its stubs. */
  lemma MoveForgetsNothing(stubs: seq<Stub>, source: nat, target: nat, hash: string)
    requires EditStep(stubs, Move(source, target)).Ok?
    ensures !Orphans(stubs, EditStep(stubs, Move(source, target)).value, hash)
  {
    var after := EditStep(stubs, Move(source, target)).value;
    NewestIsOfHighestRank(stubs, hash);
    var without := Remove(stubs, source);
    forall i | 0 <= i < |stubs| ensures stubs[i] in after {
      if i != source {
        var k := if i < source then i else i - 1;
        assert without[k] == stubs[i];
        assert after[if k < target then k else k + 1] == without[k];
      } else {
        assert after[target] == stubs[source];
      }
    }
  }

  // ---- what an op leaves alone ----

  ghost predicate SameRow(before: Tables, after: Tables, port: Port) {
    && (port in after.configs <==> port in before.configs)
    && (port in before.configs ==> after.configs[port] == before.configs[port])
    && (forall hash :: (port, hash) in after.markers <==> (port, hash) in before.markers)
    && (forall hash :: (port, hash) in before.markers ==> after.markers[(port, hash)] == before.markers[(port, hash)])
  }

  /** An op on one imposter leaves every other imposter, its markers and the fleet-wide records as
      they are. */
  lemma OpLeavesOthersAlone(t: Tables, op: ControlOp, index: nat, other: Port)
    requires Mutate(t, op, index).Ok?
    requires op.DeleteAll? || op.PutRoutes? || op.DeleteRoute? || op.SessionKeyPut? || op.FleetNamePut? ||
             (op.PutImposter? && op.config.port.Some? && op.config.port.value != other) || (!op.PutImposter? && op.port != other)
    ensures var after := Mutate(t, op, index).value;
            && (!op.DeleteAll? ==> SameRow(t, after, other))
            && (!op.PutRoutes? && !op.DeleteRoute? ==> after.routes == t.routes && after.routesRevision == t.routesRevision)
            && (!op.SessionKeyPut? ==> after.sessionKey == t.sessionKey)
            && (!op.FleetNamePut? ==> after.fleetName == t.fleetName)
  {}
}
