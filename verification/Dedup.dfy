/** What the dedup table promises over a whole log.

    Two questions about crates/rift-cluster/src/raft/store.rs: does it matter how a replica's log
    was cut into apply batches (the table is swept once per batch), and exactly when does a
    second entry with a known op id run again?
 */
module Dedup {
  import opened Text
  import opened Control
  import opened StateMachine

  // ---- states along a log ----

  /** The state after the first `k` entries, applied with no sweep in between. */
  ghost function StateAt(log: seq<Payload>, k: nat): State
    requires k <= |log|
  {
    ApplyAll(INITIAL, log[..k]).0
  }

  ghost function ResponseAt(log: seq<Payload>, i: nat): ControlResponse
    requires i < |log|
  {
    ApplyEntry(StateAt(log, i), log[i]).1
  }

  lemma StateStep(log: seq<Payload>, k: nat)
    requires k < |log|
    ensures StateAt(log, k + 1) == ApplyEntry(StateAt(log, k), log[k]).0
  {
    assert log[..k + 1][..k] == log[..k];
  }

  /** A state depends only on the entries before it. */
  lemma StateOfPrefix(log: seq<Payload>, more: seq<Payload>, k: nat)
    requires k <= |log|
    ensures StateAt(log + more, k) == StateAt(log, k)
  {
    assert (log + more)[..k] == log[..k];
  }

  lemma {:induction false} AppliedCounts(log: seq<Payload>, k: nat)
    requires k <= |log|
    ensures StateAt(log, k).applied == k
  {
    if k > 0 {
      AppliedCounts(log, k - 1);
      StateStep(log, k - 1);
    }
  }

  lemma {:induction false} ClockIsMonotone(log: seq<Payload>, j: nat, k: nat)
    requires j <= k <= |log|
    ensures StateAt(log, j).clock <= StateAt(log, k).clock
    decreases k
  {
    if j < k {
      ClockIsMonotone(log, j, k - 1);
      StateStep(log, k - 1);
    }
  }

  lemma {:induction false} ApplyAllAppends(s: State, first: seq<Payload>, second: seq<Payload>)
    ensures ApplyAll(s, first + second).0 == ApplyAll(ApplyAll(s, first).0, second).0
    ensures ApplyAll(s, first + second).1 == ApplyAll(s, first).1 + ApplyAll(ApplyAll(s, first).0, second).1
    decreases |second|
  {
    if second == [] {
      assert first + second == first;
    } else {
      var n := |second| - 1;
      ApplyAllAppends(s, first, second[..n]);
      assert (first + second)[..|first + second| - 1] == first + second[..n];
    }
  }

  // ---- batches ----

  function ApplyBatches(s: State, batches: seq<seq<Payload>>): (State, seq<ControlResponse>) {
    if batches == [] then (s, [])
    else
      var (before, responses) := ApplyBatches(s, batches[..|batches| - 1]);
      var (after, more) := ApplyBatch(before, batches[|batches| - 1]);
      (after, responses + more)
  }

  function Flatten(batches: seq<seq<Payload>>): seq<Payload> {
    if batches == [] then [] else Flatten(batches[..|batches| - 1]) + batches[|batches| - 1]
  }

  /** `s` is `full` with nothing but expired dedup rows missing. */
  ghost predicate SweptFrom(s: State, full: State) {
    && s.tables == full.tables && s.clock == full.clock && s.applied == full.applied
    && (forall op :: op in s.dedup ==> op in full.dedup && s.dedup[op] == full.dedup[op])
    && (forall op :: op in full.dedup && full.dedup[op].expiresAt > full.clock ==> op in s.dedup)
  }

  lemma ApplyEntryKeepsSwept(s: State, full: State, entry: Payload)
    requires SweptFrom(s, full)
    ensures SweptFrom(ApplyEntry(s, entry).0, ApplyEntry(full, entry).0)
    ensures ApplyEntry(s, entry).1 == ApplyEntry(full, entry).1
  {
    if entry.Normal? {
      var clock := Max(s.clock, entry.request.issuedAt);
      assert Live(s.dedup, entry.request.opId, clock) == Live(full.dedup, entry.request.opId, clock);
    }
  }

  lemma {:induction false} ApplyAllKeepsSwept(s: State, full: State, entries: seq<Payload>)
    requires SweptFrom(s, full)
    ensures SweptFrom(ApplyAll(s, entries).0, ApplyAll(full, entries).0)
    ensures ApplyAll(s, entries).1 == ApplyAll(full, entries).1
  {
    if entries != [] {
      var n := |entries| - 1;
      ApplyAllKeepsSwept(s, full, entries[..n]);
      ApplyEntryKeepsSwept(ApplyAll(s, entries[..n]).0, ApplyAll(full, entries[..n]).0, entries[n]);
    }
  }

  /** However a log is cut into apply batches, a replica computes the same tables, the same clock
      and the same response to every entry; only expired dedup rows can be missing. */
  lemma {:induction false} BatchingDoesNotMatter(batches: seq<seq<Payload>>)
    ensures SweptFrom(ApplyBatches(INITIAL, batches).0, ApplyAll(INITIAL, Flatten(batches)).0)
    ensures ApplyBatches(INITIAL, batches).1 == ApplyAll(INITIAL, Flatten(batches)).1
  {
    if batches != [] {
      var front, last := batches[..|batches| - 1], batches[|batches| - 1];
      BatchingDoesNotMatter(front);
      var s, full := ApplyBatches(INITIAL, front).0, ApplyAll(INITIAL, Flatten(front)).0;
      assert SweptFrom(Collect(s), full);
      ApplyAllKeepsSwept(Collect(s), full, last);
      ApplyAllAppends(INITIAL, Flatten(front), last);
    }
  }

  /** Two replicas that batched one log differently agree on everything they serve. */
  lemma ReplicasAgree(ours: seq<seq<Payload>>, theirs: seq<seq<Payload>>)
    requires Flatten(ours) == Flatten(theirs)
    ensures ApplyBatches(INITIAL, ours).0.tables == ApplyBatches(INITIAL, theirs).0.tables
    ensures ApplyBatches(INITIAL, ours).1 == ApplyBatches(INITIAL, theirs).1
    ensures forall op, now :: now >= ApplyBatches(INITIAL, ours).0.clock ==>
              Live(ApplyBatches(INITIAL, ours).0.dedup, op, now) == Live(ApplyBatches(INITIAL, theirs).0.dedup, op, now)
  {
    BatchingDoesNotMatter(ours);
    BatchingDoesNotMatter(theirs);
  }

  /** `read_op`: the recorded response, expired or not. */
  function ReadOp(s: State, op: OpId): Option<ControlResponse> {
    if op in s.dedup then Some(s.dedup[op].response) else None
  }

  lemma BatchesSnoc(s: State, batches: seq<seq<Payload>>, entry: Payload)
    ensures ApplyBatches(s, batches + [[entry]]).0 == ApplyEntry(Collect(ApplyBatches(s, batches).0), entry).0
    ensures Flatten(batches + [[entry]]) == Flatten(batches) + [entry]
  {
    assert (batches + [[entry]])[..|batches|] == batches;
    AppliedSnoc(Collect(ApplyBatches(s, batches).0), [], entry);
    assert [] + [entry] == [entry];
  }

  lemma AppliedSnoc(s: State, entries: seq<Payload>, entry: Payload)
    ensures ApplyAll(s, entries + [entry]).0 == ApplyEntry(ApplyAll(s, entries).0, entry).0
  {
    assert (entries + [entry])[..|entries|] == entries;
  }

  /** An op, and a day later another. */
  const FIRST_OP: Payload := Normal(ControlRequest(Uuid(1), 0, None, false, DeleteAll, 0))
  const LATER_OP: Payload := Normal(ControlRequest(Uuid(2), DEDUP_TTL_SECS, None, false, DeleteAll, 0))

  lemma OneBatchKeepsTheRow()
    ensures ReadOp(ApplyBatches(INITIAL, [[FIRST_OP, LATER_OP, Blank]]).0, Uuid(1)).Some?
    ensures Flatten([[FIRST_OP, LATER_OP, Blank]]) == [FIRST_OP, LATER_OP, Blank]
  {
    var begun := Collect(INITIAL);
    assert [[FIRST_OP, LATER_OP, Blank]][..0] == [];
    assert [] + [FIRST_OP] == [FIRST_OP] && [FIRST_OP] + [LATER_OP] == [FIRST_OP, LATER_OP];
    assert [FIRST_OP, LATER_OP] + [Blank] == [FIRST_OP, LATER_OP, Blank];
    AppliedSnoc(begun, [], FIRST_OP);
    assert Uuid(1) in ApplyAll(begun, [FIRST_OP]).0.dedup;
    AppliedSnoc(begun, [FIRST_OP], LATER_OP);
    assert Uuid(1) in ApplyAll(begun, [FIRST_OP, LATER_OP]).0.dedup;
    AppliedSnoc(begun, [FIRST_OP, LATER_OP], Blank);
  }

  /** An entry of another op leaves this op's row alone; a sweep can only drop it. */
  lemma OtherEntryKeepsRow(s: State, entry: Payload, op: OpId)
    requires entry.Normal? && entry.request.opId != op
    ensures var after := ApplyEntry(Collect(s), entry).0;
            && (op in after.dedup ==> op in s.dedup && after.dedup[op] == s.dedup[op])
            && after.clock == Max(s.clock, entry.request.issuedAt)
  {}

  lemma SweepDropsExpired(s: State, op: OpId)
    requires op in s.dedup ==> s.dedup[op].expiresAt <= s.clock
    ensures op !in ApplyEntry(Collect(s), Blank).0.dedup
  {}

  lemma ThreeBatchesSweepTheRow(first: Payload, later: Payload)
    requires first.Normal? && first.request.issuedAt == 0
    requires later.Normal? && later.request.issuedAt == DEDUP_TTL_SECS && later.request.opId != first.request.opId
    ensures ReadOp(ApplyBatches(INITIAL, [[first], [later], [Blank]]).0, first.request.opId).None?
    ensures Flatten([[first], [later], [Blank]]) == [first, later, Blank]
  {
    var op := first.request.opId;
    var none: seq<seq<Payload>> := [];
    assert none + [[first]] == [[first]] && [[first]] + [[later]] == [[first], [later]];
    assert [[first], [later]] + [[Blank]] == [[first], [later], [Blank]];
    BatchesSnoc(INITIAL, none, first);
    var s1 := ApplyBatches(INITIAL, [[first]]).0;
    assert op in s1.dedup && s1.dedup[op].expiresAt == DEDUP_TTL_SECS;
    BatchesSnoc(INITIAL, [[first]], later);
    OtherEntryKeepsRow(s1, later, op);
    BatchesSnoc(INITIAL, [[first], [later]], Blank);
    SweepDropsExpired(ApplyBatches(INITIAL, [[first], [later]]).0, op);
  }

  /** They can disagree: three entries, the second a day after the first, in one batch and in
      three. */
  lemma StatusCanDisagreeAfterExpiry() returns (ours: seq<seq<Payload>>, theirs: seq<seq<Payload>>, op: OpId)
    ensures Flatten(ours) == Flatten(theirs)
    ensures ReadOp(ApplyBatches(INITIAL, ours).0, op).Some?
    ensures ReadOp(ApplyBatches(INITIAL, theirs).0, op).None?
  {
    ours, theirs, op := [[FIRST_OP, LATER_OP, Blank]], [[FIRST_OP], [LATER_OP], [Blank]], Uuid(1);
    OneBatchKeepsTheRow();
    ThreeBatchesSweepTheRow(FIRST_OP, LATER_OP);
  }

  // ---- at most once ----

  /** The replicated clock an entry is judged at. */
  ghost function ClockAt(log: seq<Payload>, i: nat): nat
    requires i < |log| && log[i].Normal?
  {
    Max(StateAt(log, i).clock, log[i].request.issuedAt)
  }

  /** The time until which entry `i`'s response answers for its op id. */
  ghost function ExpiryOf(log: seq<Payload>, i: nat): nat
    requires i < |log| && log[i].Normal?
  {
    SaturatingAdd(ClockAt(log, i), DEDUP_TTL_SECS)
  }

  /** Entry `i` ran, rather than being answered from the record of an earlier one. */
  ghost predicate Ran(log: seq<Payload>, i: nat)
    requires i < |log|
  {
    log[i].Normal? && Live(StateAt(log, i).dedup, log[i].request.opId, ClockAt(log, i)).None?
  }

  ghost predicate RanAs(log: seq<Payload>, i: nat, op: OpId)
    requires i < |log|
  {
    Ran(log, i) && log[i].request.opId == op
  }

  lemma RanStep(log: seq<Payload>, i: nat)
    requires i < |log| && Ran(log, i)
    ensures StateAt(log, i + 1).dedup ==
            StateAt(log, i).dedup[log[i].request.opId := DedupEntry(ResponseAt(log, i), ExpiryOf(log, i))]
    ensures ResponseAt(log, i).revision == i + 1
  {
    StateStep(log, i);
    AppliedCounts(log, i);
  }

  lemma NotRanStep(log: seq<Payload>, i: nat)
    requires i < |log| && !Ran(log, i)
    ensures StateAt(log, i + 1).dedup == StateAt(log, i).dedup
    ensures StateAt(log, i + 1).tables == StateAt(log, i).tables
  {
    StateStep(log, i);
  }

  /** The last of the first `k` entries that ran under `op`. */
  ghost function LastRun(log: seq<Payload>, k: nat, op: OpId): (last: Option<nat>)
    requires k <= |log|
    ensures last.Some? ==> last.value < k && RanAs(log, last.value, op)
    ensures forall j :: (if last.Some? then last.value else -1) < j < k ==> !RanAs(log, j, op)
  {
    if k == 0 then None
    else if RanAs(log, k - 1, op) then Some(k - 1)
    else LastRun(log, k - 1, op)
  }

  /** The dedup row of an op is the record of the last entry that ran under its id. */
  lemma {:induction false} RowIsLastRun(log: seq<Payload>, k: nat, op: OpId)
    requires k <= |log|
    ensures op in StateAt(log, k).dedup <==> LastRun(log, k, op).Some?
    ensures op in StateAt(log, k).dedup ==>
              var i := LastRun(log, k, op).value;
              StateAt(log, k).dedup[op] == DedupEntry(ResponseAt(log, i), ExpiryOf(log, i))
  {
    if k > 0 {
      RowIsLastRun(log, k - 1, op);
      if Ran(log, k - 1) { RanStep(log, k - 1); } else { NotRanStep(log, k - 1); }
    }
  }

  lemma LaterRunExpiresLater(log: seq<Payload>, i: nat, j: nat)
    requires i <= j < |log| && log[i].Normal? && log[j].Normal?
    ensures ClockAt(log, i) <= ClockAt(log, j)
    ensures ExpiryOf(log, i) <= ExpiryOf(log, j)
  {
    if i < j {
      StateStep(log, i);
      ClockIsMonotone(log, i + 1, j);
    }
  }

  /** Exactly when an entry is answered from the record: some earlier entry ran under its op id
      and the replicated clock has not reached that entry's expiry.  Outside that it runs. */
  lemma AnsweredIffWithinWindow(log: seq<Payload>, j: nat)
    requires j < |log| && log[j].Normal?
    ensures !Ran(log, j) <==>
            exists i :: 0 <= i < j && RanAs(log, i, log[j].request.opId) && ClockAt(log, j) < ExpiryOf(log, i)
  {
    var op := log[j].request.opId;
    RowIsLastRun(log, j, op);
    var last := LastRun(log, j, op);
    if last.Some? {
      assert !Ran(log, j) <==> ClockAt(log, j) < ExpiryOf(log, last.value);
      forall i | 0 <= i < j && RanAs(log, i, op) ensures ExpiryOf(log, i) <= ExpiryOf(log, last.value) {
        LaterRunExpiresLater(log, i, last.value);
      }
    }
  }

  /** At most once: inside the window opened by an entry that ran, every other entry with its op
      id gets that entry's response and changes no table. */
  lemma AtMostOnceInWindow(log: seq<Payload>, i: nat, j: nat)
    requires i < j < |log| && Ran(log, i)
    requires log[j].Normal? && log[j].request.opId == log[i].request.opId
    requires ClockAt(log, j) < ExpiryOf(log, i)
    ensures !Ran(log, j)
    ensures ResponseAt(log, j) == ResponseAt(log, i)
    ensures StateAt(log, j + 1).tables == StateAt(log, j).tables
  {
    var op := log[i].request.opId;
    assert RanAs(log, i, op);
    AnsweredIffWithinWindow(log, j);
    forall m | i < m < j ensures !RanAs(log, m, op) {
      if RanAs(log, m, op) {
        LaterRunExpiresLater(log, m, j);
        AnsweredIffWithinWindow(log, m);
      }
    }
    RowIsLastRun(log, j, op);
    assert LastRun(log, j, op) == Some(i);
    NotRanStep(log, j);
  }

  /** A broken clock ends dedup for the fleet: once an entry carries the largest issue time, no
      later entry is ever answered from a record. */
  lemma SaturatedClockEndsDedup(log: seq<Payload>, i: nat, j: nat)
    requires i < j < |log| && log[i].Normal? && log[j].Normal?
    requires log[i].request.issuedAt == U64_MAX
    ensures Ran(log, j)
  {
    StateStep(log, i);
    ClockIsMonotone(log, i + 1, j);
    AnsweredIffWithinWindow(log, j);
  }

  // ---- ids in a log ----

  ghost predicate UsesId(entry: Payload, id: OpId) { entry.Normal? && entry.request.opId == id }

  /** Some entry carries the id: the op is terminal. */
  ghost predicate Recorded(log: seq<Payload>, id: OpId) {
    exists i :: 0 <= i < |log| && UsesId(log[i], id)
  }

  lemma RecordedStays(log: seq<Payload>, more: seq<Payload>, id: OpId)
    requires Recorded(log, id)
    ensures Recorded(log + more, id)
  {
    var i :| 0 <= i < |log| && UsesId(log[i], id);
    assert (log + more)[i] == log[i];
  }

  lemma FirstUseRuns(log: seq<Payload>, k: nat)
    requires k < |log| && log[k].Normal?
    requires forall m :: 0 <= m < k ==> !UsesId(log[m], log[k].request.opId)
    ensures Ran(log, k)
  {
    AnsweredIffWithinWindow(log, k);
    forall m | 0 <= m < k ensures !RanAs(log, m, log[k].request.opId) {
      assert !UsesId(log[m], log[k].request.opId);
    }
  }

  /** The first entry under an id runs, so a terminal op has an outcome of its own. */
  lemma RecordedRan(log: seq<Payload>, id: OpId) returns (first: nat)
    requires Recorded(log, id)
    ensures first < |log| && RanAs(log, first, id)
    ensures forall i :: 0 <= i < first ==> !UsesId(log[i], id)
  {
    first := FirstUse(log, 0, id);
    FirstUseRuns(log, first);
  }

  lemma {:induction false} FirstUse(log: seq<Payload>, start: nat, id: OpId) returns (first: nat)
    requires Recorded(log, id) && start <= |log| && forall i :: 0 <= i < start ==> !UsesId(log[i], id)
    ensures first < |log| && UsesId(log[first], id) && forall i :: 0 <= i < first ==> !UsesId(log[i], id)
    decreases |log| - start
  {
    var some :| 0 <= some < |log| && UsesId(log[some], id);
    if UsesId(log[start], id) { first := start; } else { first := FirstUse(log, start + 1, id); }
  }

  // ---- the op-status read ----

  /** Where the last batch begins. */
  function LastStart(batches: seq<seq<Payload>>): nat {
    if batches == [] then 0 else |Flatten(batches[..|batches| - 1])|
  }

  /** What a replica that swept just before entry `n`, and not since, reports of an op: one that ran
      after the sweep, or whose record the sweep still found live. */
  ghost predicate Reported(log: seq<Payload>, n: nat, op: OpId)
    requires n <= |log|
  {
    exists i :: 0 <= i < |log| && RanAs(log, i, op) && (n <= i || StateAt(log, n).clock < ExpiryOf(log, i))
  }

  /** The state from `n` on, started from a sweep there. */
  ghost function SweptAt(log: seq<Payload>, n: nat, k: nat): State
    requires n <= k <= |log|
  {
    ApplyAll(Collect(StateAt(log, n)), log[n..k]).0
  }

  lemma SweptStep(log: seq<Payload>, n: nat, k: nat)
    requires n <= k < |log|
    ensures SweptAt(log, n, k + 1) == ApplyEntry(SweptAt(log, n, k), log[k]).0
  {
    assert log[n..k + 1][..k - n] == log[n..k];
  }

  lemma {:induction false} SweptAtIsSwept(log: seq<Payload>, n: nat, k: nat)
    requires n <= k <= |log|
    ensures SweptFrom(SweptAt(log, n, k), StateAt(log, k))
    decreases k
  {
    if n < k {
      SweptAtIsSwept(log, n, k - 1);
      SweptStep(log, n, k - 1);
      StateStep(log, k - 1);
      ApplyEntryKeepsSwept(SweptAt(log, n, k - 1), StateAt(log, k - 1), log[k - 1]);
    } else {
      assert log[n..n] == [];
    }
  }

  ghost predicate RanIn(log: seq<Payload>, n: nat, k: nat, op: OpId)
    requires k <= |log|
  {
    exists i :: n <= i < k && RanAs(log, i, op)
  }

  /** The rows such a replica holds: those the sweep left, and those of entries that ran since. */
  lemma {:induction false} SweptRows(log: seq<Payload>, n: nat, k: nat, op: OpId)
    requires n <= k <= |log|
    ensures op in SweptAt(log, n, k).dedup <==>
            op in Collect(StateAt(log, n)).dedup || RanIn(log, n, k, op)
    decreases k
  {
    if n < k {
      SweptRows(log, n, k - 1, op);
      SweptAtIsSwept(log, n, k - 1);
      SweptRunsAlike(log, n, k - 1);
      assert RanIn(log, n, k, op) <==> RanIn(log, n, k - 1, op) || RanAs(log, k - 1, op);
    } else {
      assert log[n..n] == [];
    }
  }

  lemma SweptRunsAlike(log: seq<Payload>, n: nat, k: nat)
    requires n <= k < |log| && SweptFrom(SweptAt(log, n, k), StateAt(log, k))
    ensures SweptAt(log, n, k + 1).dedup.Keys ==
            SweptAt(log, n, k).dedup.Keys + if Ran(log, k) then {log[k].request.opId} else {}
  {
    SweptStep(log, n, k);
    if log[k].Normal? {
      var s, full, clock := SweptAt(log, n, k), StateAt(log, k), ClockAt(log, k);
      assert Live(s.dedup, log[k].request.opId, clock) == Live(full.dedup, log[k].request.opId, clock);
    }
  }

  /** The sweep leaves a row exactly when some entry before it ran under the op and is not expired. */
  lemma SweepLeavesIff(log: seq<Payload>, n: nat, op: OpId)
    requires n <= |log|
    ensures op in Collect(StateAt(log, n)).dedup <==>
            exists i :: 0 <= i < n && RanAs(log, i, op) && StateAt(log, n).clock < ExpiryOf(log, i)
  {
    RowIsLastRun(log, n, op);
    var last := LastRun(log, n, op);
    if last.Some? {
      forall i | 0 <= i < n && RanAs(log, i, op) ensures ExpiryOf(log, i) <= ExpiryOf(log, last.value) {
        LaterRunExpiresLater(log, i, last.value);
      }
    }
  }

  /** The state a batching leaves is the log applied from a sweep at its last batch, as far as rows
      go. */
  lemma BatchesSweepAtLast(batches: seq<seq<Payload>>, op: OpId)
    requires batches != []
    ensures var log, n := Flatten(batches), LastStart(batches);
            op in ApplyBatches(INITIAL, batches).0.dedup <==> op in SweptAt(log, n, |log|).dedup
  {
    var front, last := batches[..|batches| - 1], batches[|batches| - 1];
    var log, n := Flatten(batches), |Flatten(front)|;
    BatchingDoesNotMatter(front);
    var s, full := ApplyBatches(INITIAL, front).0, StateAt(log, n);
    assert log[..n] == Flatten(front) && log[n..|log|] == last;
    assert Collect(s).dedup == Collect(full).dedup;
  }

  lemma StatusIsReported(batches: seq<seq<Payload>>, op: OpId)
    ensures LastStart(batches) <= |Flatten(batches)|
    ensures ReadOp(ApplyBatches(INITIAL, batches).0, op).Some? <==> Reported(Flatten(batches), LastStart(batches), op)
  {
    var log, n := Flatten(batches), LastStart(batches);
    if batches != [] {
      BatchesSweepAtLast(batches, op);
      SweptRows(log, n, |log|, op);
      SweepLeavesIff(log, n, op);
    }
  }

  /** What is reported is the response of the last entry that ran under the id. */
  lemma StatusIsLastRun(batches: seq<seq<Payload>>, op: OpId)
    requires ReadOp(ApplyBatches(INITIAL, batches).0, op).Some?
    ensures var log := Flatten(batches);
            && LastRun(log, |log|, op).Some?
            && ReadOp(ApplyBatches(INITIAL, batches).0, op) == Some(ResponseAt(log, LastRun(log, |log|, op).value))
  {
    var log := Flatten(batches);
    BatchingDoesNotMatter(batches);
    RowIsLastRun(log, |log|, op);
    assert log[..|log|] == log;
  }

  /** The op-status read is the one place batching shows.  Two replicas of one log report alike on an
      op if and only if both would report it or neither would, by where each began its last batch. */
  lemma StatusAgreesIff(ours: seq<seq<Payload>>, theirs: seq<seq<Payload>>, op: OpId)
    requires Flatten(ours) == Flatten(theirs)
    ensures LastStart(ours) <= |Flatten(ours)| && LastStart(theirs) <= |Flatten(ours)|
    ensures ReadOp(ApplyBatches(INITIAL, ours).0, op) == ReadOp(ApplyBatches(INITIAL, theirs).0, op) <==>
            (Reported(Flatten(ours), LastStart(ours), op) <==> Reported(Flatten(ours), LastStart(theirs), op))
  {
    StatusIsReported(ours, op);
    StatusIsReported(theirs, op);
    BatchingDoesNotMatter(ours);
    BatchingDoesNotMatter(theirs);
  }

  /** In particular they agree until the op's record has expired. */
  lemma StatusAgreesUntilExpiry(ours: seq<seq<Payload>>, theirs: seq<seq<Payload>>, op: OpId)
    requires Flatten(ours) == Flatten(theirs)
    ensures var a, b := ApplyBatches(INITIAL, ours).0, ApplyBatches(INITIAL, theirs).0;
            ReadOp(a, op) != ReadOp(b, op) ==>
              && (ReadOp(a, op).None? || ReadOp(b, op).None?)
              && Live(a.dedup, op, a.clock).None? && Live(b.dedup, op, b.clock).None?
  {
    BatchingDoesNotMatter(ours);
    BatchingDoesNotMatter(theirs);
  }
}
