/** Retries of `PUT /imposters`: under a fresh key, while whatever the first attempt left parked is
    replayed around them, and under the same key, answered from what the first attempt recorded
    (crates/rift-cluster-server/src/admin_front.rs).
 */
module Retries {
  import opened Text
  import opened Control
  import opened StateMachine
  import opened Dedup
  import opened Revisions
  import opened Routing
  import opened Mutation
  import opened ReplaceAll
  import opened Replays

  // ---- any mixture of entries that serve one body ----

  /** The request puts one of the body's configs, or deletes a port the body leaves out. */
  ghost predicate Serves(request: ControlRequest, imposters: seq<ImposterConfig>)
    requires AllPorted(imposters)
  {
    Plain(request) && if request.op.PutImposter? then request.op.config in imposters else request.op.port !in Kept(imposters)
  }

  ghost predicate AllServe(requests: seq<ControlRequest>, imposters: seq<ImposterConfig>)
    requires AllPorted(imposters)
  {
    forall i :: 0 <= i < |requests| ==> Serves(requests[i], imposters)
  }

  /** Some entry from `n` on carries an op on the port. */
  ghost predicate Touched(log: seq<Payload>, n: nat, k: nat, port: Port)
    requires k <= |log|
  {
    exists m :: n <= m < k && Targets(log, m, port)
  }

  lemma {:induction false} AskedIs(imposters: seq<ImposterConfig>, i: nat)
    requires AllPorted(imposters) && OneConfigPerPort(imposters) && i < |imposters|
    ensures imposters[i].port.value in Asked(imposters) && Asked(imposters)[imposters[i].port.value] == imposters[i]
  {
    if i < |imposters| - 1 { AskedIs(imposters[..|imposters| - 1], i); }
  }

  /** What the body asks of a port. */
  ghost function AskedOn(imposters: seq<ImposterConfig>, port: Port): Option<ImposterConfig>
    requires AllPorted(imposters)
  {
    if port in Asked(imposters) then Some(Asked(imposters)[port]) else None
  }

  lemma ServesLeaves(request: ControlRequest, imposters: seq<ImposterConfig>)
    requires AllPorted(imposters) && OneConfigPerPort(imposters) && Serves(request, imposters)
    ensures Leaves(request.op) == AskedOn(imposters, Target(request.op))
  {
    AskedKeys(imposters);
    if request.op.PutImposter? {
      var i :| 0 <= i < |imposters| && imposters[i] == request.op.config;
      AskedIs(imposters, i);
    }
  }

  lemma ServingIsConsistent(requests: seq<ControlRequest>, imposters: seq<ImposterConfig>)
    requires AllPorted(imposters) && OneConfigPerPort(imposters) && Coherent(requests) && AllServe(requests, imposters)
    ensures Consistent(requests)
  {
    forall i | 0 <= i < |requests| ensures Leaves(requests[i].op) == AskedOn(imposters, Target(requests[i].op)) {
      ServesLeaves(requests[i], imposters);
    }
  }

  /** What the log holds on a port in the end: what the body asks there if any entry names it, and
      what was there before otherwise. */
  lemma PortServed(log: seq<Payload>, n: nat, requests: seq<ControlRequest>, imposters: seq<ImposterConfig>, port: Port)
    requires AllPorted(imposters) && OneConfigPerPort(imposters) && Coherent(requests) && AllServe(requests, imposters)
    requires n <= |log| && Unused(log, n, requests) && OnlyReplays(log, n, requests)
    ensures ConfigAt(log, |log|, port) ==
            if Touched(log, n, |log|, port) then AskedOn(imposters, port) else ConfigAt(log, n, port)
  {
    ServingIsConsistent(requests, imposters);
    if Touched(log, n, |log|, port) {
      var m :| n <= m < |log| && Targets(log, m, port);
      var i :| 0 <= i < |requests| && requests[i] == log[m].request;
      ServesLeaves(requests[i], imposters);
      Settled(log, n, m, |log|, requests);
    } else {
      Untouched(log, n, |log|, requests, port);
    }
  }

  /** Every configured port is in the body or has an entry that deletes it. */
  ghost predicate AllTouched(log: seq<Payload>, n: nat, imposters: seq<ImposterConfig>)
    requires AllPorted(imposters) && n <= |log|
  {
    forall port: Port :: ConfigAt(log, n, port).Some? ==> port in Asked(imposters) || Touched(log, n, |log|, port)
  }

  /** However many attempts at one body the entries come from, in whatever order and repetition: once
      every port of the body has been put, the log ends at what the body asks for if and only if
      every other configured port has a prune in it. */
  lemma BodyIsServedIff(log: seq<Payload>, n: nat, requests: seq<ControlRequest>, imposters: seq<ImposterConfig>)
    requires AllPorted(imposters) && OneConfigPerPort(imposters) && Coherent(requests) && AllServe(requests, imposters)
    requires n <= |log| && Unused(log, n, requests) && OnlyReplays(log, n, requests)
    requires forall port :: port in Asked(imposters) ==> Touched(log, n, |log|, port)
    ensures Contents(TablesAt(log, |log|)) == Asked(imposters) <==> AllTouched(log, n, imposters)
  {
    forall port: Port
      ensures ConfigAt(log, |log|, port) == if Touched(log, n, |log|, port) then AskedOn(imposters, port) else ConfigAt(log, n, port)
    {
      PortServed(log, n, requests, imposters, port);
    }
    EndsAtIff(log, |log|, imposters);
    if forall port: Port :: ConfigAt(log, |log|, port) == AskedOn(imposters, port) {
      forall port: Port | ConfigAt(log, n, port).Some? ensures port in Asked(imposters) || Touched(log, n, |log|, port) {
        assert ConfigAt(log, |log|, port) == AskedOn(imposters, port);
      }
    }
  }

  lemma EndsAtIff(log: seq<Payload>, k: nat, imposters: seq<ImposterConfig>)
    requires AllPorted(imposters) && k <= |log|
    ensures Contents(TablesAt(log, k)) == Asked(imposters) <==>
            forall port: Port :: ConfigAt(log, k, port) == AskedOn(imposters, port)
  {
    var ended, asked := Contents(TablesAt(log, k)), Asked(imposters);
    assert forall port: Port :: ConfigAt(log, k, port) == if port in ended then Some(ended[port]) else None;
    if forall port: Port :: ConfigAt(log, k, port) == AskedOn(imposters, port) {
      forall port: Port ensures port in ended <==> port in asked
                        ensures port in ended && port in asked ==> ended[port] == asked[port]
      {
        assert ConfigAt(log, k, port) == AskedOn(imposters, port);
      }
    }
  }

  // ---- the two attempts ----

  /** What a batch replace submits serves its body, puts each of its ports, and prunes each known
      port it leaves out. */
  lemma SubmittedServes(requests: seq<ControlRequest>, imposters: seq<ImposterConfig>, existing: seq<Port>, reconcile: bool)
    requires AllPorted(imposters) && imposters != [] && OneWrite(requests)
    requires OpsOf(requests) == Submitted(imposters, existing, reconcile)
    ensures AllServe(requests, imposters)
  {
    PrunesAreDeletes(existing, Kept(imposters));
    PortsListed(imposters);
    forall i | 0 <= i < |requests| ensures Serves(requests[i], imposters) {
      assert requests[i].op == OpsOf(requests)[i];
      if i < |imposters| { assert imposters[i] in imposters; }
    }
  }

  /** The ports a set of requests deletes or puts. */
  ghost predicate Names(requests: seq<ControlRequest>, port: Port)
    requires OneWrite(requests)
  {
    exists i :: 0 <= i < |requests| && Target(requests[i].op) == port
  }

  lemma OccurringIsTouched(log: seq<Payload>, n: nat, requests: seq<ControlRequest>, port: Port)
    requires n <= |log| && OneWrite(requests) && AllOccur(log, n, requests) && Names(requests, port)
    ensures Touched(log, n, |log|, port)
  {
    var i :| 0 <= i < |requests| && Target(requests[i].op) == port;
    var at :| 0 <= at < |log[n..]| && log[n..][at] == Normal(requests[i]);
    assert Targets(log, n + at, port);
  }

  lemma SubmittedOp(imposters: seq<ImposterConfig>, existing: seq<Port>, reconcile: bool, i: nat)
    requires AllPorted(imposters) && imposters != [] && i < |Submitted(imposters, existing, reconcile)|
    ensures |Submitted(imposters, existing, reconcile)| == |imposters| + |Prunes(existing, Kept(imposters))|
    ensures i < |imposters| ==>
              Submitted(imposters, existing, reconcile)[i].PutImposter? && Submitted(imposters, existing, reconcile)[i].config == imposters[i]
    ensures i >= |imposters| ==> Submitted(imposters, existing, reconcile)[i] == Prunes(existing, Kept(imposters))[i - |imposters|]
  {
    PrunesAreDeletes(existing, Kept(imposters));
  }

  lemma SubmittedTarget(requests: seq<ControlRequest>, imposters: seq<ImposterConfig>, existing: seq<Port>, reconcile: bool, i: nat)
    requires AllPorted(imposters) && imposters != [] && OneWrite(requests)
    requires OpsOf(requests) == Submitted(imposters, existing, reconcile) && i < |requests|
    ensures Target(requests[i].op) in Kept(imposters) || Target(requests[i].op) in existing
  {
    assert requests[i].op == OpsOf(requests)[i];
    SubmittedOp(imposters, existing, reconcile, i);
    PrunesAreDeletes(existing, Kept(imposters));
    PortsListed(imposters);
  }

  /** Exactly the body's ports and the known ports outside it. */
  lemma SubmittedNames(requests: seq<ControlRequest>, imposters: seq<ImposterConfig>, existing: seq<Port>, reconcile: bool, port: Port)
    requires AllPorted(imposters) && imposters != [] && OneWrite(requests)
    requires OpsOf(requests) == Submitted(imposters, existing, reconcile)
    ensures Names(requests, port) <==> port in Asked(imposters) || port in existing
  {
    AskedKeys(imposters);
    if port in Kept(imposters) {
      BodyIsNamed(requests, imposters, existing, reconcile, port);
    } else if port in existing {
      KnownIsNamed(requests, imposters, existing, reconcile, port);
    } else if Names(requests, port) {
      var i :| 0 <= i < |requests| && Target(requests[i].op) == port;
      SubmittedTarget(requests, imposters, existing, reconcile, i);
    }
  }

  lemma BodyIsNamed(requests: seq<ControlRequest>, imposters: seq<ImposterConfig>, existing: seq<Port>, reconcile: bool, port: Port)
    requires AllPorted(imposters) && imposters != [] && OneWrite(requests)
    requires OpsOf(requests) == Submitted(imposters, existing, reconcile) && port in Kept(imposters)
    ensures Names(requests, port)
  {
    var i := PositionOfPort(imposters, port);
    AtPosition(requests, imposters, existing, reconcile, i);
  }

  lemma KnownIsNamed(requests: seq<ControlRequest>, imposters: seq<ImposterConfig>, existing: seq<Port>, reconcile: bool, port: Port)
    requires AllPorted(imposters) && imposters != [] && OneWrite(requests)
    requires OpsOf(requests) == Submitted(imposters, existing, reconcile) && port in existing && port !in Kept(imposters)
    ensures Names(requests, port)
  {
    var j := PositionOfPrune(existing, Kept(imposters), port);
    AtPosition(requests, imposters, existing, reconcile, |imposters| + j);
    assert Target(requests[|imposters| + j].op) == port;
  }

  lemma AtPosition(requests: seq<ControlRequest>, imposters: seq<ImposterConfig>, existing: seq<Port>, reconcile: bool, i: nat)
    requires AllPorted(imposters) && imposters != [] && OneWrite(requests)
    requires OpsOf(requests) == Submitted(imposters, existing, reconcile) && i < |imposters| + |Prunes(existing, Kept(imposters))|
    ensures i < |requests|
    ensures i < |imposters| ==> Target(requests[i].op) == imposters[i].port.value && Leaves(requests[i].op) == Some(imposters[i])
    ensures i >= |imposters| ==> requests[i].op == Prunes(existing, Kept(imposters))[i - |imposters|]
  {
    SubmittedOp(imposters, existing, reconcile, 0);
    assert |OpsOf(requests)| == |requests|;
    SubmittedOp(imposters, existing, reconcile, i);
    assert OpsOf(requests)[i] == requests[i].op;
  }

  lemma PositionOfPrune(existing: seq<Port>, keep: set<Port>, port: Port) returns (j: nat)
    requires port in existing && port !in keep
    ensures j < |Prunes(existing, keep)| && Prunes(existing, keep)[j] == ControlOp.DeleteImposter(port)
  {
    PrunesAreDeletes(existing, keep);
    j :| 0 <= j < |Prunes(existing, keep)| && Prunes(existing, keep)[j] == ControlOp.DeleteImposter(port);
  }

  lemma {:induction false} PositionOfPort(imposters: seq<ImposterConfig>, port: Port) returns (i: nat)
    requires AllPorted(imposters) && port in Kept(imposters)
    ensures i < |imposters| && imposters[i].port.value == port
  {
    var n := |imposters| - 1;
    assert imposters[..n + 1] == imposters;
    OneMoreConfig(imposters, n);
    if imposters[n].port.value == port { i := n; } else { i := PositionOfPort(imposters[..n], port); }
  }

  /** The ops of a batch replace agree on each port exactly when its body does. */
  lemma SubmittedIsConsistentIff(requests: seq<ControlRequest>, imposters: seq<ImposterConfig>, existing: seq<Port>, reconcile: bool)
    requires AllPorted(imposters) && imposters != [] && OneWrite(requests)
    requires OpsOf(requests) == Submitted(imposters, existing, reconcile)
    ensures Consistent(requests) <==> OneConfigPerPort(imposters)
  {
    SubmittedServes(requests, imposters, existing, reconcile);
    if OneConfigPerPort(imposters) {
      ServingIsConsistent(requests, imposters);
    } else {
      var i, j :| 0 <= i < |imposters| && 0 <= j < |imposters| && imposters[i].port == imposters[j].port && imposters[i] != imposters[j];
      AtPosition(requests, imposters, existing, reconcile, i);
      AtPosition(requests, imposters, existing, reconcile, j);
    }
  }

  /** Two attempts at one body: under keys that do not meet, or under one key with the same ops. */
  ghost predicate Attempts(first: seq<ControlRequest>, retry: seq<ControlRequest>, imposters: seq<ImposterConfig>,
                           known: seq<Port>, knownAgain: seq<Port>)
  {
    && AllPorted(imposters) && imposters != [] && OneConfigPerPort(imposters)
    && OneWrite(first) && OneWrite(retry) && Coherent(first + retry)
    && (exists reconcile: bool :: OpsOf(first) == Submitted(imposters, known, reconcile))
    && (exists reconcile: bool :: OpsOf(retry) == Submitted(imposters, knownAgain, reconcile))
  }

  lemma AttemptsServe(first: seq<ControlRequest>, retry: seq<ControlRequest>, imposters: seq<ImposterConfig>, known: seq<Port>, knownAgain: seq<Port>)
    requires Attempts(first, retry, imposters, known, knownAgain)
    ensures AllServe(first + retry, imposters)
    ensures forall port :: Names(first, port) <==> port in Asked(imposters) || port in known
    ensures forall port :: Names(retry, port) <==> port in Asked(imposters) || port in knownAgain
  {
    var a: bool :| OpsOf(first) == Submitted(imposters, known, a);
    var b: bool :| OpsOf(retry) == Submitted(imposters, knownAgain, b);
    SubmittedServes(first, imposters, known, a);
    SubmittedServes(retry, imposters, knownAgain, b);
    forall port ensures Names(first, port) <==> port in Asked(imposters) || port in known { SubmittedNames(first, imposters, known, a, port); }
    forall port ensures Names(retry, port) <==> port in Asked(imposters) || port in knownAgain { SubmittedNames(retry, imposters, knownAgain, b, port); }
  }

  /** The entries of both attempts in any order and repetition end at what the body asks for if and
      only if every configured port is in the body or known to one of the two builders. */
  lemma BothAttemptsAreExactIff(log: seq<Payload>, n: nat, first: seq<ControlRequest>, retry: seq<ControlRequest>, imposters: seq<ImposterConfig>,
                                known: seq<Port>, knownAgain: seq<Port>)
    requires n <= |log| && Attempts(first, retry, imposters, known, knownAgain)
    requires Unused(log, n, first + retry) && OnlyReplays(log, n, first + retry) && AllOccur(log, n, first) && AllOccur(log, n, retry)
    ensures Contents(TablesAt(log, |log|)) == Asked(imposters) <==>
            forall port: Port :: ConfigAt(log, n, port).Some? ==> port in Asked(imposters) || port in known || port in knownAgain
  {
    AttemptsServe(first, retry, imposters, known, knownAgain);
    forall port: Port ensures Touched(log, n, |log|, port) <==> port in Asked(imposters) || port in known || port in knownAgain {
      if Names(first, port) { OccurringIsTouched(log, n, first, port); }
      if Names(retry, port) { OccurringIsTouched(log, n, retry, port); }
      if Touched(log, n, |log|, port) { TouchedIsNamed(log, n, |log|, first, retry, port); }
    }
    BodyIsServedIff(log, n, first + retry, imposters);
  }

  lemma TouchedIsNamed(log: seq<Payload>, n: nat, k: nat, first: seq<ControlRequest>, retry: seq<ControlRequest>, port: Port)
    requires n <= k <= |log| && OneWrite(first) && OneWrite(retry)
    requires OnlyReplays(log, n, first + retry) && Touched(log, n, k, port)
    ensures Names(first, port) || Names(retry, port)
  {
    var m :| n <= m < k && Targets(log, m, port);
    var i :| 0 <= i < |first + retry| && (first + retry)[i] == log[m].request;
    if i < |first| { assert first[i] == log[m].request; } else { assert retry[i - |first|] == log[m].request; }
  }

  /** A retry heals, whatever the first attempt left parked and whenever that is replayed: built by a
      node that has applied the log up to any point `k` of the run, with any part of the first attempt
      before it, between its ops, after it, repeated or never, it ends at exactly what the body asks
      for. */
  lemma FreshRetryHeals(log: seq<Payload>, n: nat, k: nat, first: seq<ControlRequest>, retry: seq<ControlRequest>, imposters: seq<ImposterConfig>,
                        known: seq<Port>, view: View)
    requires n <= k <= |log| && view.tables == TablesAt(log, k)
    requires Attempts(first, retry, imposters, known, ConfiguredPorts(view.tables))
    requires Unused(log, n, first + retry) && OnlyReplays(log, n, first + retry) && AllOccur(log, n, retry)
    ensures Contents(TablesAt(log, |log|)) == Asked(imposters)
  {
    AttemptsServe(first, retry, imposters, known, ConfiguredPorts(view.tables));
    PortsBelowAre(view.tables, 0x1_0000);
    forall port | port in Asked(imposters) ensures Touched(log, n, |log|, port) {
      OccurringIsTouched(log, n, retry, port);
    }
    forall port: Port | ConfigAt(log, n, port).Some? ensures port in Asked(imposters) || Touched(log, n, |log|, port) {
      if port in ConfiguredPorts(view.tables) {
        OccurringIsTouched(log, n, retry, port);
      } else if !Touched(log, n, k, port) {
        Untouched(log, n, k, first + retry, port);
      } else {
        var m :| n <= m < k && Targets(log, m, port);
      }
    }
    BodyIsServedIff(log, n, first + retry, imposters);
  }

  // ---- what the front mints under two keys ----

  /** A base id as the front takes it: a UUID, or the hash of a key under the front's own namespace. */
  predicate IsBase(base: OpId) {
    base.Uuid? || (base.V5? && base.space == IDEMPOTENCY_NAMESPACE && base.name.KeyText?)
  }

  lemma FrontTakesABase(key: Option<string>, parsed: Option<nat>, drawn: nat)
    ensures IsBase(BaseOpId(key, parsed, Uuid(drawn)))
  {}

  /** Two writes under different keys never share an op id. */
  lemma DifferentKeysDoNotMeet(a: OpId, b: OpId, i: nat, total: nat, j: nat, again: nat)
    requires IsBase(a) && IsBase(b) && a != b
    ensures OpIdFor(a, i, total) != OpIdFor(b, j, again)
  {
    NoV5IsItsOwnSpace(a, PositionBytes(i));
    NoV5IsItsOwnSpace(b, PositionBytes(j));
  }

  /** What the front mints for one body under two keys, from two views, are two attempts at it. */
  lemma FrontMintsAttempts(first: seq<ControlRequest>, retry: seq<ControlRequest>, imposters: seq<ImposterConfig>, view: View, viewAgain: View,
                           reconcile: bool, reconcileAgain: bool, a: OpId, b: OpId, stamps: seq<Stamp>, stampsAgain: seq<Stamp>)
    requires AllPorted(imposters) && imposters != [] && OneConfigPerPort(imposters) && IsBase(a) && IsBase(b) && a != b
    requires IsMinted(first, imposters, view, reconcile, a, stamps)
    requires IsMinted(retry, imposters, viewAgain, reconcileAgain, b, stampsAgain)
    ensures Attempts(first, retry, imposters, ConfiguredPorts(view.tables), ConfiguredPorts(viewAgain.tables))
  {
    FrontMintsOneWrite(view, imposters, reconcile, a, stamps);
    FrontMintsOneWrite(viewAgain, imposters, reconcileAgain, b, stampsAgain);
    forall i: nat, j: nat | i < |first| && j < |retry| ensures first[i].opId != retry[j].opId {
      DifferentKeysDoNotMeet(a, b, i, |first|, j, |retry|);
    }
    TogetherCoherent(first, retry);
  }

  /** And so are two of the same ops under one key, whatever their stamps. */
  lemma FrontMintsAgain(first: seq<ControlRequest>, retry: seq<ControlRequest>, imposters: seq<ImposterConfig>, view: View, viewAgain: View,
                        reconcile: bool, base: OpId, stamps: seq<Stamp>, stampsAgain: seq<Stamp>)
    requires AllPorted(imposters) && imposters != [] && OneConfigPerPort(imposters)
    requires ConfiguredPorts(view.tables) == ConfiguredPorts(viewAgain.tables)
    requires IsMinted(first, imposters, view, reconcile, base, stamps) && IsMinted(retry, imposters, viewAgain, reconcile, base, stampsAgain)
    ensures Attempts(first, retry, imposters, ConfiguredPorts(view.tables), ConfiguredPorts(viewAgain.tables))
  {
    FrontMintsOneWrite(view, imposters, reconcile, base, stamps);
    FrontMintsOneWrite(viewAgain, imposters, reconcile, base, stampsAgain);
    forall i: nat, j: nat | i < |first| && j < |retry| && first[i].opId == retry[j].opId ensures first[i].op == retry[j].op {
      OpIdLaws(base, i, j, |first|, i + 1);
      assert first[i].op == OpsOf(first)[i] && retry[j].op == OpsOf(retry)[j];
    }
    TogetherCoherent(first, retry);
  }

  /** The requests are what the front mints for the body from the view. */
  ghost predicate IsMinted(requests: seq<ControlRequest>, imposters: seq<ImposterConfig>, view: View, reconcile: bool, base: OpId, stamps: seq<Stamp>)
    requires AllPorted(imposters)
  {
    var ops := Submitted(imposters, ConfiguredPorts(view.tables), reconcile);
    AllValid(ops) && |stamps| == |ops| && requests == Requests(ops, base, Unconditional, stamps)
  }

  lemma TogetherCoherent(first: seq<ControlRequest>, retry: seq<ControlRequest>)
    requires OneWrite(first) && OneWrite(retry)
    requires forall i, j :: 0 <= i < |first| && 0 <= j < |retry| && first[i].opId == retry[j].opId ==> first[i].op == retry[j].op
    ensures Coherent(first + retry)
  {
    var both := first + retry;
    assert forall i :: 0 <= i < |both| ==> both[i] == if i < |first| then first[i] else retry[i - |first|];
  }

  // ---- a changed body ----

  /** The last of entries `n` to `k` that ran on the port. */
  ghost function LastRunOn(log: seq<Payload>, n: nat, k: nat, port: Port): (last: Option<nat>)
    requires n <= k <= |log|
    ensures last.Some? ==> n <= last.value < k && Ran(log, last.value) && Targets(log, last.value, port)
  {
    if n == k then None
    else if Ran(log, k - 1) && Targets(log, k - 1, port) then Some(k - 1)
    else LastRunOn(log, n, k - 1, port)
  }

  /** Between writes of different bodies the last entry to run on a port wins, whichever write it is
      of: nothing ties a replayed op to the order in which the clients were answered. */
  lemma {:induction false} LastRunWins(log: seq<Payload>, n: nat, k: nat, port: Port)
    requires n <= k <= |log| && forall m :: n <= m < k && log[m].Normal? ==> Plain(log[m].request)
    ensures var last := LastRunOn(log, n, k, port);
            ConfigAt(log, k, port) == if last.Some? then Leaves(log[last.value].request.op) else ConfigAt(log, n, port)
    decreases k
  {
    if n < k {
      LastRunWins(log, n, k - 1, port);
      if Ran(log, k - 1) { RunLeaves(log, k - 1, port); } else { NotRanStep(log, k - 1); }
    }
  }

  // ---- retries under the same key ----

  /** Entry `j` finds its id recorded, and not expired, by an entry before `n`. */
  ghost predicate LiveAt(log: seq<Payload>, n: nat, j: nat)
    requires n <= j < |log|
  {
    log[j].Normal? && exists i :: 0 <= i < n && RanAs(log, i, log[j].request.opId) && ClockAt(log, j) < ExpiryOf(log, i)
  }

  /** A retry under the same key is matched by position: while the first attempt's record is live,
      op `i` of the retry gets op `i`'s old response and changes nothing, whatever it asks for.  When
      exactly one of the attempts is a single op the ids differ, and the op runs. */
  lemma KeyedRetryAnswersByPosition(log: seq<Payload>, first: nat, again: nat, base: OpId, i: nat, total: nat, totalAgain: nat)
    requires first < again < |log| && Ran(log, first) && log[again].Normal?
    requires i < total && i < totalAgain
    requires log[first].request.opId == OpIdFor(base, i, total)
    requires log[again].request.opId == OpIdFor(base, i, totalAgain)
    requires ClockAt(log, again) < ExpiryOf(log, first)
    ensures (total == 1) == (totalAgain == 1) ==> ResponseAt(log, again) == ResponseAt(log, first)
    ensures (total == 1) == (totalAgain == 1) ==> TablesAt(log, again + 1) == TablesAt(log, again)
    ensures (total == 1) != (totalAgain == 1) ==> log[again].request.opId != log[first].request.opId
    ensures (total == 1) != (totalAgain == 1) && (forall m :: 0 <= m < again && m != first ==> !UsesId(log[m], log[again].request.opId)) ==>
              Ran(log, again)
  {
    OpIdLaws(base, i, i, total, totalAgain);
    if (total == 1) == (totalAgain == 1) {
      AtMostOnceInWindow(log, first, again);
    } else if forall m :: 0 <= m < again && m != first ==> !UsesId(log[m], log[again].request.opId) {
      FirstUseRuns(log, again);
    }
  }

  /** An op of a retry in order runs exactly when its id is not live: never used, or expired. */
  lemma RunsIffNotLive(log: seq<Payload>, n: nat, requests: seq<ControlRequest>, k: nat)
    requires OneWrite(requests) && InOrder(log, n, requests) && n <= k < n + |requests|
    ensures Ran(log, k) <==> !LiveAt(log, n, k)
  {
    AnsweredIffWithinWindow(log, k);
    forall m | n <= m < k ensures !RanAs(log, m, log[k].request.opId) {
      assert log[m] == Normal(requests[m - n]);
    }
  }

  /** Which ops of a retry in order find their ids live. */
  ghost function LiveOps(log: seq<Payload>, n: nat, requests: seq<ControlRequest>): (live: seq<bool>)
    requires InOrder(log, n, requests)
    ensures |live| == |requests|
  {
    seq(|requests|, i requires 0 <= i < |requests| => LiveAt(log, n, n + i))
  }

  /** The first `k` ops without those that are skipped. */
  function Unskipped(ops: seq<ControlOp>, skipped: seq<bool>, k: nat): (rest: seq<ControlOp>)
    requires |skipped| == |ops| && k <= |ops|
    ensures AllPutOrDelete(ops) ==> AllPutOrDelete(rest)
  {
    if k == 0 then []
    else Unskipped(ops, skipped, k - 1) + if skipped[k - 1] then [] else [ops[k - 1]]
  }

  /** Configs that each op changes or, skipped, leaves as they are. */
  ghost predicate Stepwise(along: seq<Configs>, ops: seq<ControlOp>, skipped: seq<bool>)
    requires AllPutOrDelete(ops)
  {
    && |skipped| == |ops| && |along| == |ops| + 1
    && forall i :: 0 <= i < |ops| ==> along[i + 1] == if skipped[i] then along[i] else Effect(along[i], ops[i])
  }

  lemma {:induction false} StepwiseLeaves(along: seq<Configs>, ops: seq<ControlOp>, skipped: seq<bool>, k: nat)
    requires AllPutOrDelete(ops) && Stepwise(along, ops, skipped) && k <= |ops|
    ensures along[k] == Effects(along[0], Unskipped(ops, skipped, k))
  {
    if k > 0 {
      var i, before := k - 1, Unskipped(ops, skipped, k - 1);
      StepwiseLeaves(along, ops, skipped, i);
      assert along[i + 1] == if skipped[i] then along[i] else Effect(along[i], ops[i]);
      if skipped[i] { assert before + [] == before; } else { EffectsSnoc(along[0], before, ops[i]); }
    }
  }

  lemma EffectsSnoc(configs: Configs, ops: seq<ControlOp>, op: ControlOp)
    requires AllPutOrDelete(ops) && PutOrDelete(op)
    ensures AllPutOrDelete(ops + [op]) && Effects(configs, ops + [op]) == Effect(Effects(configs, ops), op)
  {
    assert (ops + [op])[..|ops|] == ops;
  }

  /** The configs at each of the entries from `n` on. */
  ghost function Along(log: seq<Payload>, n: nat, count: nat): (along: seq<Configs>)
    requires n + count <= |log|
    ensures |along| == count + 1
  {
    seq(count + 1, i requires 0 <= i <= count => Contents(TablesAt(log, n + i)))
  }

  lemma RetryIsStepwise(log: seq<Payload>, n: nat, requests: seq<ControlRequest>, ops: seq<ControlOp>, live: seq<bool>)
    requires OneWrite(requests) && InOrder(log, n, requests) && ops == OpsOf(requests) && live == LiveOps(log, n, requests)
    ensures AllPutOrDelete(ops) && Stepwise(Along(log, n, |requests|), ops, live)
  {
    var along := Along(log, n, |requests|);
    forall i | 0 <= i < |ops| ensures along[i + 1] == if live[i] then along[i] else Effect(along[i], ops[i]) {
      RetryStep(log, n, requests, n + i);
    }
  }

  /** Of a retry in order, the ops whose ids are live change nothing and the rest have exactly their
      effects: what it leaves, in closed form, whatever it asks for and whichever ids are live. */
  lemma KeyedRetryLeaves(log: seq<Payload>, n: nat, requests: seq<ControlRequest>, k: nat)
    requires OneWrite(requests) && InOrder(log, n, requests) && k <= |requests|
    ensures AllPutOrDelete(OpsOf(requests))
    ensures Contents(TablesAt(log, n + k)) ==
            Effects(Contents(TablesAt(log, n)), Unskipped(OpsOf(requests), LiveOps(log, n, requests), k))
  {
    var along, ops, live := Along(log, n, |requests|), OpsOf(requests), LiveOps(log, n, requests);
    RetryIsStepwise(log, n, requests, ops, live);
    StepwiseLeaves(along, ops, live, k);
    assert along[0] == Contents(TablesAt(log, n)) && along[k] == Contents(TablesAt(log, n + k));
  }

  lemma RetryStep(log: seq<Payload>, n: nat, requests: seq<ControlRequest>, at: nat)
    requires OneWrite(requests) && InOrder(log, n, requests) && n <= at < n + |requests|
    ensures Contents(TablesAt(log, at + 1)) ==
            if LiveAt(log, n, at) then Contents(TablesAt(log, at)) else Effect(Contents(TablesAt(log, at)), requests[at - n].op)
  {
    RunsIffNotLive(log, n, requests, at);
    if Ran(log, at) { EntryContents(log, at); } else { NotRanStep(log, at); }
  }

  /** What a retry leaves on a port: what the last of its ops there that is not live leaves, and what
      was there before if there is none. */
  ghost function LeftOn(log: seq<Payload>, n: nat, requests: seq<ControlRequest>, k: nat, port: Port): Option<ImposterConfig>
    requires OneWrite(requests) && InOrder(log, n, requests) && k <= |requests|
  {
    if k == 0 then ConfigAt(log, n, port)
    else if Target(requests[k - 1].op) == port && !LiveAt(log, n, n + k - 1) then Leaves(requests[k - 1].op)
    else LeftOn(log, n, requests, k - 1, port)
  }

  lemma {:induction false} RetryLeavesOn(log: seq<Payload>, n: nat, requests: seq<ControlRequest>, k: nat, port: Port)
    requires OneWrite(requests) && InOrder(log, n, requests) && k <= |requests|
    ensures ConfigAt(log, n + k, port) == LeftOn(log, n, requests, k, port)
  {
    if k > 0 {
      RetryLeavesOn(log, n, requests, k - 1, port);
      RetryStepOn(log, n, requests, n + k - 1, port);
    }
  }

  lemma RetryStepOn(log: seq<Payload>, n: nat, requests: seq<ControlRequest>, at: nat, port: Port)
    requires OneWrite(requests) && InOrder(log, n, requests) && n <= at < n + |requests|
    ensures ConfigAt(log, at + 1, port) ==
            if Target(requests[at - n].op) == port && !LiveAt(log, n, at) then Leaves(requests[at - n].op) else ConfigAt(log, at, port)
  {
    RunsIffNotLive(log, n, requests, at);
    if Ran(log, at) { RunLeaves(log, at, port); } else { NotRanStep(log, at); }
  }

  /** When a keyed retry ends at its body, exactly, whatever ports the body repeats: on every port, the
      last op of the retry there that is not live leaves what the body asks, or none is left and what
      was there is what it asks. */
  lemma KeyedRetryEndsAtIff(log: seq<Payload>, n: nat, requests: seq<ControlRequest>, imposters: seq<ImposterConfig>)
    requires AllPorted(imposters) && OneWrite(requests) && InOrder(log, n, requests)
    ensures Contents(TablesAt(log, n + |requests|)) == Asked(imposters) <==>
            forall port: Port :: LeftOn(log, n, requests, |requests|, port) == AskedOn(imposters, port)
  {
    EndsAtIff(log, n + |requests|, imposters);
    forall port: Port ensures ConfigAt(log, n + |requests|, port) == LeftOn(log, n, requests, |requests|, port) {
      RetryLeavesOn(log, n, requests, |requests|, port);
    }
  }

  /** Some op of the retry on the port is not live. */
  ghost predicate RunsOn(log: seq<Payload>, n: nat, requests: seq<ControlRequest>, k: nat, port: Port)
    requires OneWrite(requests) && InOrder(log, n, requests) && k <= |requests|
  {
    exists i :: 0 <= i < k && Target(requests[i].op) == port && !LiveAt(log, n, n + i)
  }

  lemma {:induction false} LeftOnAgreed(log: seq<Payload>, n: nat, requests: seq<ControlRequest>, k: nat, port: Port, asked: Option<ImposterConfig>)
    requires OneWrite(requests) && InOrder(log, n, requests) && k <= |requests|
    requires forall i :: 0 <= i < |requests| && Target(requests[i].op) == port ==> Leaves(requests[i].op) == asked
    ensures LeftOn(log, n, requests, k, port) == if RunsOn(log, n, requests, k, port) then asked else ConfigAt(log, n, port)
  {
    if k > 0 {
      LeftOnAgreed(log, n, requests, k - 1, port, asked);
      RunsOnNext(log, n, requests, k - 1, port);
    }
  }

  lemma RunsOnNext(log: seq<Payload>, n: nat, requests: seq<ControlRequest>, i: nat, port: Port)
    requires OneWrite(requests) && InOrder(log, n, requests) && i < |requests|
    ensures RunsOn(log, n, requests, i + 1, port) <==>
            RunsOn(log, n, requests, i, port) || (Target(requests[i].op) == port && !LiveAt(log, n, n + i))
  {}

  /** A keyed retry of a batch replace ends at its body if and only if every port already stands as the
      body asks, or has an op of the retry that is not live. */
  lemma KeyedReplaceIsExactIff(log: seq<Payload>, n: nat, requests: seq<ControlRequest>, imposters: seq<ImposterConfig>, existing: seq<Port>, reconcile: bool)
    requires AllPorted(imposters) && imposters != [] && OneConfigPerPort(imposters)
    requires OneWrite(requests) && OpsOf(requests) == Submitted(imposters, existing, reconcile) && InOrder(log, n, requests)
    ensures Contents(TablesAt(log, n + |requests|)) == Asked(imposters) <==>
            forall port: Port :: ConfigAt(log, n, port) == AskedOn(imposters, port) || RunsOn(log, n, requests, |requests|, port)
  {
    SubmittedServes(requests, imposters, existing, reconcile);
    KeyedRetryEndsAtIff(log, n, requests, imposters);
    forall port: Port
      ensures LeftOn(log, n, requests, |requests|, port) == AskedOn(imposters, port) <==>
              ConfigAt(log, n, port) == AskedOn(imposters, port) || RunsOn(log, n, requests, |requests|, port)
    {
      forall i | 0 <= i < |requests| ensures Leaves(requests[i].op) == AskedOn(imposters, Target(requests[i].op)) {
        ServesLeaves(requests[i], imposters);
      }
      LeftOnAgreed(log, n, requests, |requests|, port, AskedOn(imposters, port));
    }
  }

  /** When exactly one of the two attempts is a single op, none of their ids meet, and the retry runs
      in full as if under a key of its own. */
  lemma KeyedRetryRunsAfresh(log: seq<Payload>, n: nat, base: OpId, total: nat, requests: seq<ControlRequest>)
    requires OneWrite(requests) && InOrder(log, n, requests) && (total == 1) != (|requests| == 1)
    requires forall i :: 0 <= i < |requests| ==> requests[i].opId == OpIdFor(base, i, |requests|)
    requires forall m, i :: 0 <= m < n && 0 <= i < |requests| && UsesId(log[m], requests[i].opId) ==>
               exists j :: 0 <= j < total && log[m].request.opId == OpIdFor(base, j, total)
    ensures forall k :: n <= k < n + |requests| ==> Ran(log, k)
    ensures AllPutOrDelete(OpsOf(requests))
    ensures Contents(TablesAt(log, n + |requests|)) == Effects(Contents(TablesAt(log, n)), OpsOf(requests))
  {
    forall i: nat, j: nat | i < |requests| && j < total ensures OpIdFor(base, i, |requests|) != OpIdFor(base, j, total) {
      OneSingleNeverMeets(base, i, |requests|, j, total);
    }
    assert Unused(log, n, requests);
    forall k | n <= k < n + |requests| ensures Ran(log, k) { InOrderEntryRuns(log, n, requests, k); }
    RunInOrder(log, n, requests, |requests|);
    assert OpsOf(requests)[..|requests|] == OpsOf(requests);
  }

  lemma OneSingleNeverMeets(base: OpId, i: nat, total: nat, j: nat, again: nat)
    requires (total == 1) != (again == 1)
    ensures OpIdFor(base, i, total) != OpIdFor(base, j, again)
  {
    NoV5IsItsOwnSpace(base, PositionBytes(i));
    NoV5IsItsOwnSpace(base, PositionBytes(j));
  }

  // ---- a prune lost ----

  const AT_ZERO: Stamp := Stamp(0, 0)

  /** A doomed imposter; a replace by `kept` that prunes it; another writer's imposter; and the same
      replace again under the same key, now pruning that one. */
  function RetriedLog(doomed: ImposterConfig, kept: ControlOp, added: ImposterConfig): seq<Payload>
    requires doomed.port.Some? && added.port.Some?
  {
    [Normal(Mint(Uuid(1), PutImposter(doomed, None), Unconditional, AT_ZERO)),
     Normal(Mint(OpIdFor(Uuid(0), 0, 2), kept, Unconditional, AT_ZERO)),
     Normal(Mint(OpIdFor(Uuid(0), 1, 2), ControlOp.DeleteImposter(doomed.port.value), Unconditional, AT_ZERO)),
     Normal(Mint(Uuid(2), PutImposter(added, None), Unconditional, AT_ZERO)),
     Normal(Mint(OpIdFor(Uuid(0), 0, 2), kept, Unconditional, AT_ZERO)),
     Normal(Mint(OpIdFor(Uuid(0), 1, 2), ControlOp.DeleteImposter(added.port.value), Unconditional, AT_ZERO))]
  }

  lemma {:induction false} ClockStaysAtZero(log: seq<Payload>, k: nat)
    requires k <= |log| && forall m :: 0 <= m < |log| ==> log[m].Normal? && log[m].request.issuedAt == 0
    ensures StateAt(log, k).clock == 0
  {
    if k > 0 {
      ClockStaysAtZero(log, k - 1);
      StateStep(log, k - 1);
    }
  }

  /** Three valid configs on three ports, and the put the replace submits for the second. */
  ghost predicate Trio(doomed: ImposterConfig, kept: ImposterConfig, added: ImposterConfig, put: ControlOp) {
    && ValidateConfig(doomed).Ok? && ValidateConfig(kept).Ok? && ValidateConfig(added).Ok?
    && doomed.port != kept.port && kept.port != added.port && added.port != doomed.port
    && put.PutImposter? && put.config == kept
  }

  lemma {:induction false} RetriedRuns(log: seq<Payload>, doomed: ImposterConfig, kept: ImposterConfig, added: ImposterConfig, put: ControlOp, k: nat)
    requires Trio(doomed, kept, added, put) && log == RetriedLog(doomed, put, added) && k < 4
    ensures Ran(log, k) && Plain(log[k].request)
  {
    OpIdLaws(Uuid(0), 0, 1, 2, 2);
    FirstUseRuns(log, k);
  }

  lemma {:induction false} RetriedIsAnswered(log: seq<Payload>, doomed: ImposterConfig, kept: ImposterConfig, added: ImposterConfig, put: ControlOp, i: nat)
    requires Trio(doomed, kept, added, put) && log == RetriedLog(doomed, put, added) && 1 <= i <= 2
    ensures TablesAt(log, i + 4) == TablesAt(log, i + 3) && ResponseAt(log, i + 3) == ResponseAt(log, i)
  {
    RetriedRuns(log, doomed, kept, added, put, i);
    ClockStaysAtZero(log, i);
    ClockStaysAtZero(log, i + 3);
    AtMostOnceInWindow(log, i, i + 3);
  }

  lemma RanIsApplied(log: seq<Payload>, k: nat)
    requires k < |log| && Ran(log, k) && Plain(log[k].request)
    ensures ResponseAt(log, k).outcome == Applied
  {
    AppliedCounts(log, k);
    PutAndDeleteNeedNothing(TablesAt(log, k), log[k].request, k + 1);
  }

  /** The configs along the log. */
  lemma {:induction false} RetriedContents(log: seq<Payload>, doomed: ImposterConfig, kept: ImposterConfig, added: ImposterConfig, put: ControlOp)
    requires Trio(doomed, kept, added, put) && log == RetriedLog(doomed, put, added)
    ensures Contents(TablesAt(log, 1)) == map[doomed.port.value := doomed]
    ensures Contents(TablesAt(log, 4)) == map[kept.port.value := kept, added.port.value := added]
  {
    RetriedRuns(log, doomed, kept, added, put, 0);
    RetriedRuns(log, doomed, kept, added, put, 1);
    RetriedRuns(log, doomed, kept, added, put, 2);
    RetriedRuns(log, doomed, kept, added, put, 3);
    assert StateAt(log, 0) == INITIAL;
    EntryContents(log, 0);
    EntryContents(log, 1);
    EntryContents(log, 2);
    EntryContents(log, 3);
    var c1, c2, c3, c4 := Contents(TablesAt(log, 1)), Contents(TablesAt(log, 2)), Contents(TablesAt(log, 3)), Contents(TablesAt(log, 4));
    FourEffects(c1, c2, c3, c4, doomed, kept, added, put);
  }

  lemma FourEffects(c1: Configs, c2: Configs, c3: Configs, c4: Configs, doomed: ImposterConfig, kept: ImposterConfig, added: ImposterConfig, put: ControlOp)
    requires Trio(doomed, kept, added, put)
    requires c1 == Effect(map[], PutImposter(doomed, None)) && c2 == Effect(c1, put)
    requires c3 == Effect(c2, ControlOp.DeleteImposter(doomed.port.value)) && c4 == Effect(c3, PutImposter(added, None))
    ensures c1 == map[doomed.port.value := doomed]
    ensures c4 == map[kept.port.value := kept, added.port.value := added]
  {}

  lemma {:induction false} PrunesOfOne(t: Tables, keep: set<Port>, port: Port, bound: nat)
    requires bound <= 0x1_0000 && forall p :: p in t.configs && p !in keep <==> p == port
    ensures Prunes(PortsBelow(t, bound), keep) == if port < bound then [ControlOp.DeleteImposter(port)] else []
  {
    if bound > 0 {
      PrunesOfOne(t, keep, port, bound - 1);
      var before, p: Port := PortsBelow(t, bound - 1), bound - 1;
      if p in t.configs { assert (before + [p])[..|before|] == before; } else { assert PortsBelow(t, bound) == before; }
    }
  }

  /** What the front submits for the one-config body when one other port is configured. */
  lemma SubmittedForOne(t: Tables, kept: ImposterConfig, port: Port, reconcile: bool)
    requires kept.port.Some? && kept.port.value != port
    requires port in t.configs && forall p :: p in t.configs ==> p == port || p == kept.port.value
    ensures AllPorted([kept])
    ensures Submitted([kept], ConfiguredPorts(t), reconcile) ==
            [PutImposter(kept, if reconcile then None else Some(Imposter)), ControlOp.DeleteImposter(port)]
  {
    assert [kept][..0] == [];
    assert PortsOf([kept]) == [kept.port.value];
    PrunesOfOne(t, Kept([kept]), port, 0x1_0000);
    assert Upserts([kept]) == [PutImposter(kept, None)];
  }

  /** The requests one node mints for the body from its view. */
  function Minted(kept: ImposterConfig, t: Tables, reconcile: bool, base: OpId): seq<ControlRequest>
    requires kept.port.Some?
  {
    var ops := Submitted([kept], ConfiguredPorts(t), reconcile);
    Requests(ops, base, Unconditional, seq(|ops|, _ => AT_ZERO))
  }

  /** So a keyed retry with a changed prune list loses the change.  For every three valid configs on
      three ports there is a log in which one body is submitted twice under one key, each time as the
      front builds it from the state then applied; every op of the retry is answered as applied, and
      the port it was to prune stays. */
  lemma {:induction false} KeyedRetryCanLoseAPrune(doomed: ImposterConfig, kept: ImposterConfig, added: ImposterConfig, reconcile: bool) returns (log: seq<Payload>)
    requires Trio(doomed, kept, added, PutImposter(kept, None))
    ensures |log| == 6
    ensures log[1..3] == Entries(Minted(kept, TablesAt(log, 1), reconcile, Uuid(0)))
    ensures log[4..6] == Entries(Minted(kept, TablesAt(log, 4), reconcile, Uuid(0)))
    ensures ResponseAt(log, 4).outcome == Applied && ResponseAt(log, 5).outcome == Applied
    ensures Contents(TablesAt(log, 6)) == map[kept.port.value := kept, added.port.value := added]
  {
    var put := PutImposter(kept, if reconcile then None else Some(Imposter));
    log := RetriedLog(doomed, put, added);
    RetriedEnds(log, doomed, kept, added, put);
    RetriedIsMinted(log, doomed, kept, added, reconcile, put);
  }

  lemma {:induction false} RetriedEnds(log: seq<Payload>, doomed: ImposterConfig, kept: ImposterConfig, added: ImposterConfig, put: ControlOp)
    requires Trio(doomed, kept, added, put) && log == RetriedLog(doomed, put, added)
    ensures ResponseAt(log, 4).outcome == Applied && ResponseAt(log, 5).outcome == Applied
    ensures Contents(TablesAt(log, 6)) == map[kept.port.value := kept, added.port.value := added]
  {
    RetriedContents(log, doomed, kept, added, put);
    RetriedRuns(log, doomed, kept, added, put, 1);
    RetriedRuns(log, doomed, kept, added, put, 2);
    RanIsApplied(log, 1);
    RanIsApplied(log, 2);
    RetriedIsAnswered(log, doomed, kept, added, put, 1);
    RetriedIsAnswered(log, doomed, kept, added, put, 2);
  }

  lemma {:induction false} RetriedIsMinted(log: seq<Payload>, doomed: ImposterConfig, kept: ImposterConfig, added: ImposterConfig, reconcile: bool, put: ControlOp)
    requires Trio(doomed, kept, added, put) && log == RetriedLog(doomed, put, added)
    requires put == PutImposter(kept, if reconcile then None else Some(Imposter))
    ensures log[1..3] == Entries(Minted(kept, TablesAt(log, 1), reconcile, Uuid(0)))
    ensures log[4..6] == Entries(Minted(kept, TablesAt(log, 4), reconcile, Uuid(0)))
  {
    RetriedContents(log, doomed, kept, added, put);
    MintedIs(TablesAt(log, 1), kept, doomed.port.value, reconcile, put);
    MintedIs(TablesAt(log, 4), kept, added.port.value, reconcile, put);
  }

  lemma MintedIs(t: Tables, kept: ImposterConfig, port: Port, reconcile: bool, put: ControlOp)
    requires kept.port.Some? && kept.port.value != port && put == PutImposter(kept, if reconcile then None else Some(Imposter))
    requires port in Contents(t) && forall p :: p in Contents(t) ==> p == port || p == kept.port.value
    ensures Entries(Minted(kept, t, reconcile, Uuid(0))) ==
            [Normal(Mint(OpIdFor(Uuid(0), 0, 2), put, Unconditional, AT_ZERO)),
             Normal(Mint(OpIdFor(Uuid(0), 1, 2), ControlOp.DeleteImposter(port), Unconditional, AT_ZERO))]
  {
    assert forall p :: p in t.configs <==> p in Contents(t);
    SubmittedForOne(t, kept, port, reconcile);
  }
}
