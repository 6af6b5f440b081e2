/** Where a recorded response goes: which stub list gains what, and where
    (crates/rift-cluster/src/raft/store.rs).

    Said of the stub lists before and after, not of how the place is found.
 */
module Placement {
  import opened Text
  import opened Control
  import opened StateMachine
  import opened Dedup
  import opened Revisions
  import opened RouteEffects

  // ---- the place ----

  predicate ForwardsTo(stub: Stub, to: string) { Proxy(to) in stub.responses }

  /** The first stub from `start` on that forwards to the proxy. */
  ghost predicate IsFirstProxy(stubs: seq<Stub>, start: nat, to: string, at: nat) {
    start <= at < |stubs| && ForwardsTo(stubs[at], to) && forall i :: start <= i < at ==> !ForwardsTo(stubs[i], to)
  }

  ghost predicate NoProxyFrom(stubs: seq<Stub>, start: nat, to: string) {
    forall i :: start <= i < |stubs| ==> !ForwardsTo(stubs[i], to)
  }

  /** The proxy the recording belongs to: the first from the hint on, or the first of all when there is
      no hint or none from there on. */
  ghost predicate IsAnchor(stubs: seq<Stub>, recorded: RecordedStub, at: nat) {
    || (recorded.anchorIndex.Some? && IsFirstProxy(stubs, recorded.anchorIndex.value, recorded.proxyTo, at))
    || ((recorded.anchorIndex.None? || NoProxyFrom(stubs, recorded.anchorIndex.value, recorded.proxyTo)) &&
        IsFirstProxy(stubs, 0, recorded.proxyTo, at))
  }

  /** Ahead of its proxy, or at the end when its proxy is gone. */
  ghost predicate IsAhead(stubs: seq<Stub>, recorded: RecordedStub, at: nat) {
    IsAnchor(stubs, recorded, at) || (NoProxyFrom(stubs, 0, recorded.proxyTo) && at == |stubs|)
  }

  /** Just past its proxy, or the beginning when its proxy is gone. */
  ghost predicate IsPast(stubs: seq<Stub>, recorded: RecordedStub, at: nat) {
    (at > 0 && IsAnchor(stubs, recorded, at - 1)) || (NoProxyFrom(stubs, 0, recorded.proxyTo) && at == 0)
  }

  /** The first stub from `start` on that answers the same requests. */
  ghost predicate IsFirstLike(stubs: seq<Stub>, start: nat, predicates: string, at: nat) {
    start <= at < |stubs| && stubs[at].predicates == predicates && forall i :: start <= i < at ==> stubs[i].predicates != predicates
  }

  ghost predicate NoneLike(stubs: seq<Stub>, start: nat, predicates: string) {
    forall i :: start <= i < |stubs| ==> stubs[i].predicates != predicates
  }

  /** The list gained the stub ahead of its proxy, and nothing else. */
  ghost predicate PlacedAhead(before: seq<Stub>, after: seq<Stub>, stub: Stub, recorded: RecordedStub) {
    exists at: nat :: IsAhead(before, recorded, at) && Gained(before, after, at, stub)
  }

  /** The first like stub past the proxy gained the responses at its end; without one, the list gained
      the stub at its end. */
  ghost predicate MergedPast(before: seq<Stub>, after: seq<Stub>, stub: Stub, recorded: RecordedStub, start: nat) {
    && IsPast(before, recorded, start)
    && (NoneLike(before, start, stub.predicates) ==> Gained(before, after, |before|, stub))
    && (forall at: nat :: IsFirstLike(before, start, stub.predicates, at) ==>
          after == before[at := before[at].(responses := before[at].responses + stub.responses)])
    && (NoneLike(before, start, stub.predicates) || exists at: nat :: IsFirstLike(before, start, stub.predicates, at))
  }

  // ---- finding it ----

  lemma ForwardsIff(stub: Stub, to: string)
    ensures ProxiesTo(stub, to) <==> ForwardsTo(stub, to)
  {}

  lemma {:induction false} FindProxyIs(stubs: seq<Stub>, start: nat, to: string)
    ensures FindProxy(stubs, start, to).Some? ==> IsFirstProxy(stubs, start, to, FindProxy(stubs, start, to).value)
    ensures FindProxy(stubs, start, to).None? ==> NoProxyFrom(stubs, start, to)
    decreases |stubs| - start
  {
    if start < |stubs| {
      ForwardsIff(stubs[start], to);
      FindProxyIs(stubs, start + 1, to);
    }
  }

  lemma {:induction false} FindPredicatesIs(stubs: seq<Stub>, start: nat, predicates: string)
    ensures FindPredicates(stubs, start, predicates).Some? ==> IsFirstLike(stubs, start, predicates, FindPredicates(stubs, start, predicates).value)
    ensures FindPredicates(stubs, start, predicates).None? ==> NoneLike(stubs, start, predicates)
    decreases |stubs| - start
  {
    if start < |stubs| { FindPredicatesIs(stubs, start + 1, predicates); }
  }

  lemma AnchorIs(stubs: seq<Stub>, recorded: RecordedStub)
    ensures AnchorOf(stubs, recorded).Some? ==> IsAnchor(stubs, recorded, AnchorOf(stubs, recorded).value)
    ensures AnchorOf(stubs, recorded).None? ==> NoProxyFrom(stubs, 0, recorded.proxyTo)
  {
    if recorded.anchorIndex.Some? { FindProxyIs(stubs, recorded.anchorIndex.value, recorded.proxyTo); }
    FindProxyIs(stubs, 0, recorded.proxyTo);
  }

  lemma PlacesAhead(stubs: seq<Stub>, stub: Stub, recorded: RecordedStub)
    requires recorded.placement.BeforeProxy?
    ensures PlacedAhead(stubs, PlaceRecorded(stubs, stub, recorded), stub, recorded)
  {
    AnchorIs(stubs, recorded);
    var anchor := AnchorOf(stubs, recorded);
    var at := if anchor.Some? then anchor.value else |stubs|;
    assert IsAhead(stubs, recorded, at) && Gained(stubs, Insert(stubs, at, stub), at, stub);
  }

  lemma MergesPast(stubs: seq<Stub>, stub: Stub, recorded: RecordedStub) returns (start: nat)
    requires recorded.placement.AfterProxyMerging?
    ensures MergedPast(stubs, PlaceRecorded(stubs, stub, recorded), stub, recorded, start)
  {
    AnchorIs(stubs, recorded);
    var anchor := AnchorOf(stubs, recorded);
    start := if anchor.Some? then anchor.value + 1 else 0;
    FindPredicatesIs(stubs, start, stub.predicates);
    var merged := FindPredicates(stubs, start, stub.predicates);
    if merged.Some? {
      forall at: nat | IsFirstLike(stubs, start, stub.predicates, at) ensures at == merged.value {}
    }
  }

  // ---- what an applied recording leaves ----

  /** The recorded stub under its id: its own, or the signature's base id, or, where a stub of the
      signature is held, that with the log index. */
  ghost predicate IsUnderItsId(stub: Stub, stubs: seq<Stub>, sigHash: string, recorded: RecordedStub, index: nat) {
    && stub == recorded.stub.(id := stub.id)
    && stub.id == if recorded.stub.id.Some? then recorded.stub.id
                  else if Names(stubs, sigHash) then Some("proxy-recorded-" + sigHash + "-r" + Decimal(index))
                  else Some("proxy-recorded-" + sigHash)
  }

  ghost predicate Merging(op: ControlOp) {
    op.ProxyRecorded? && op.recorded.Some? && op.recorded.value.placement.AfterProxyMerging?
  }

  /** A once-only recording of a signature already marked. */
  ghost predicate AlreadyRecorded(t: Tables, op: ControlOp) {
    op.ProxyRecorded? && (op.port, op.sigHash) in t.markers && !Merging(op)
  }

  /** Only the row on the port and the signature's marker differ. */
  ghost predicate OnlyRecordingChanged(before: Tables, after: Tables, op: ControlOp, index: nat)
    requires op.ProxyRecorded?
  {
    && OnlyStubsChanged(before, after, op.port, index)
    && after.configs == before.configs[op.port := after.configs[op.port]]
    && after == before.(configs := after.configs, markers := if Merging(op) then before.markers else before.markers[(op.port, op.sigHash) := op.resp])
  }

  /** What a recording leaves. */
  ghost predicate RecordingMeans(before: Tables, after: Tables, op: ControlOp, index: nat)
    requires op.ProxyRecorded?
  {
    if AlreadyRecorded(before, op) then after == before
    else if op.recorded.None? then after == before.(markers := before.markers[(op.port, op.sigHash) := op.resp])
    else
      && OnlyRecordingChanged(before, after, op, index)
      && exists stub :: IsUnderItsId(stub, StubsOn(before, op.port), op.sigHash, op.recorded.value, index) &&
                        if Merging(op) then exists start: nat :: MergedPast(StubsOn(before, op.port), StubsOn(after, op.port), stub, op.recorded.value, start)
                        else PlacedAhead(StubsOn(before, op.port), StubsOn(after, op.port), stub, op.recorded.value)
  }

  lemma RecordingLeavesStubs(t: Tables, op: ControlOp, index: nat) returns (stub: Stub)
    requires op.ProxyRecorded? && op.recorded.Some? && !AlreadyRecorded(t, op) && op.port in t.configs
    ensures Mutate(t, op, index).Ok? && OnlyRecordingChanged(t, Mutate(t, op, index).value, op, index)
    ensures IsUnderItsId(stub, StubsOn(t, op.port), op.sigHash, op.recorded.value, index)
    ensures StubsOn(Mutate(t, op, index).value, op.port) == PlaceRecorded(StubsOn(t, op.port), stub, op.recorded.value)
  {
    var stubs, recorded := StubsOn(t, op.port), op.recorded.value;
    stub := if recorded.stub.id.Some? then recorded.stub else recorded.stub.(id := Some(RecordingId(stubs, op.sigHash, index)));
    assert "proxy-recorded-" + op.sigHash + "-r" + Decimal(index) == (RECORDED_STUB_ID_PREFIX + op.sigHash) + "-r" + Decimal(index);
  }

  /** A recording is refused exactly when it is not already recorded and there is no imposter to hold
      it; otherwise it leaves what it means. */
  lemma RecordingMeansWhatItSays(t: Tables, op: ControlOp, index: nat)
    requires op.ProxyRecorded?
    ensures Mutate(t, op, index).Err? <==> !AlreadyRecorded(t, op) && op.port !in t.configs
    ensures Mutate(t, op, index).Err? ==> Mutate(t, op, index).error == NoImposter(op.port)
    ensures Mutate(t, op, index).Ok? ==> RecordingMeans(t, Mutate(t, op, index).value, op, index)
  {
    if !AlreadyRecorded(t, op) && op.port in t.configs && op.recorded.Some? {
      var stub := RecordingLeavesStubs(t, op, index);
      if Merging(op) {
        var start := MergesPast(StubsOn(t, op.port), stub, op.recorded.value);
      } else {
        PlacesAhead(StubsOn(t, op.port), stub, op.recorded.value);
      }
    }
  }

  /** So in every log. */
  lemma CommittedRecordingMeansWhatItSays(log: seq<Payload>, i: nat)
    requires i < |log| && TookEffect(log, i) && log[i].request.op.ProxyRecorded?
    ensures RecordingMeans(TablesAt(log, i), TablesAt(log, i + 1), log[i].request.op, i + 1)
  {
    TookEffectExecutes(log, i);
    RecordingMeansWhatItSays(TablesAt(log, i), log[i].request.op, i + 1);
  }
}
