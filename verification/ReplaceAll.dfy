/** `PUT /imposters` as it lands in the log: one entry per op, upserts first, prunes after
    (crates/rift-cluster-server/src/admin_front.rs).

    The ops commit separately, so a run can stop after any prefix, be replayed in any order and
    with repetition from parked intents, or be retried.  Configs are compared without the
    revision that stamps them.
 */
module ReplaceAll {
  import opened Text
  import opened Control
  import opened StateMachine
  import opened Dedup
  import opened Revisions
  import opened Mutation

  type Configs = map<Port, ImposterConfig>

  // ---- what the ops do to the configs ----

  predicate PutOrDelete(op: ControlOp) {
    (op.PutImposter? && op.config.port.Some?) || op.DeleteImposter?
  }

  predicate AllPutOrDelete(ops: seq<ControlOp>) {
    forall i :: 0 <= i < |ops| ==> PutOrDelete(ops[i])
  }

  function Target(op: ControlOp): Port
    requires PutOrDelete(op)
  {
    if op.PutImposter? then op.config.port.value else op.port
  }

  /** What an op leaves on its port. */
  function Leaves(op: ControlOp): Option<ImposterConfig>
    requires PutOrDelete(op)
  {
    if op.PutImposter? then Some(op.config) else None
  }

  function Effect(configs: Configs, op: ControlOp): Configs
    requires PutOrDelete(op)
  {
    if op.PutImposter? then configs[op.config.port.value := op.config] else configs - {op.port}
  }

  function Effects(configs: Configs, ops: seq<ControlOp>): Configs
    requires AllPutOrDelete(ops)
  {
    if ops == [] then configs else Effect(Effects(configs, ops[..|ops| - 1]), ops[|ops| - 1])
  }

  /** The configs a body asks for: on each of its ports, the last it gives. */
  function Asked(imposters: seq<ImposterConfig>): Configs
    requires AllPorted(imposters)
  {
    if imposters == [] then map[]
    else Asked(imposters[..|imposters| - 1])[imposters[|imposters| - 1].port.value := imposters[|imposters| - 1]]
  }

  /** The ops as submitted: restarts are marked unless the request reconciles. */
  function Submitted(imposters: seq<ImposterConfig>, existing: seq<Port>, reconcile: bool): seq<ControlOp>
    requires AllPorted(imposters)
  {
    if reconcile then ReplaceAllOps(imposters, existing) else WithRestarts(ReplaceAllOps(imposters, existing))
  }

  lemma SubmittedShape(imposters: seq<ImposterConfig>, existing: seq<Port>, reconcile: bool)
    requires AllPorted(imposters) && imposters != []
    ensures AllPutOrDelete(ReplaceAllOps(imposters, existing)) && AllPutOrDelete(Submitted(imposters, existing, reconcile))
  {
    PrunesAreDeletes(existing, Kept(imposters));
    assert AllPutOrDelete(Upserts(imposters));
  }

  lemma {:induction false} RestartsChangeNoConfig(configs: Configs, ops: seq<ControlOp>, k: nat)
    requires AllPutOrDelete(ops) && k <= |ops|
    ensures AllPutOrDelete(WithRestarts(ops))
    ensures Effects(configs, WithRestarts(ops)[..k]) == Effects(configs, ops[..k])
  {
    if k > 0 {
      RestartsChangeNoConfig(configs, ops, k - 1);
      assert ops[..k][..k - 1] == ops[..k - 1];
      assert WithRestarts(ops)[..k][..k - 1] == WithRestarts(ops)[..k - 1];
    }
  }

  lemma EffectsNext(configs: Configs, ops: seq<ControlOp>, k: nat)
    requires AllPutOrDelete(ops) && k < |ops|
    ensures Effects(configs, ops[..k + 1]) == Effect(Effects(configs, ops[..k]), ops[k])
  {
    assert ops[..k + 1][..k] == ops[..k];
  }

  lemma {:induction false} EffectsAppend(configs: Configs, first: seq<ControlOp>, second: seq<ControlOp>)
    requires AllPutOrDelete(first) && AllPutOrDelete(second)
    ensures Effects(configs, first + second) == Effects(Effects(configs, first), second)
    decreases |second|
  {
    if second == [] {
      assert first + second == first;
    } else {
      var n := |second| - 1;
      EffectsAppend(configs, first, second[..n]);
      assert (first + second)[..|first + second| - 1] == first + second[..n];
    }
  }

  lemma {:induction false} AskedKeys(imposters: seq<ImposterConfig>)
    requires AllPorted(imposters)
    ensures Asked(imposters).Keys == Kept(imposters)
  {
    if imposters != [] {
      var n := |imposters| - 1;
      AskedKeys(imposters[..n]);
      assert imposters[..n + 1] == imposters;
      OneMoreConfig(imposters, n);
    }
  }

  lemma {:induction false} UpsertsAdd(configs: Configs, imposters: seq<ImposterConfig>)
    requires AllPorted(imposters)
    ensures AllPutOrDelete(Upserts(imposters))
    ensures Effects(configs, Upserts(imposters)) == configs + Asked(imposters)
  {
    if imposters != [] {
      var n := |imposters| - 1;
      UpsertsAdd(configs, imposters[..n]);
      assert Upserts(imposters)[..n] == Upserts(imposters[..n]);
    }
  }

  lemma {:induction false} PrunesRemove(configs: Configs, existing: seq<Port>, keep: set<Port>)
    ensures AllPutOrDelete(Prunes(existing, keep))
    ensures Effects(configs, Prunes(existing, keep)) == configs - ((set p | p in existing) - keep)
  {
    PrunesAreDeletes(existing, keep);
    if existing != [] {
      var n := |existing| - 1;
      PrunesRemove(configs, existing[..n], keep);
      assert forall p :: p in existing <==> p in existing[..n] || p == existing[n];
      if existing[n] in keep {
        assert Prunes(existing, keep) == Prunes(existing[..n], keep);
      } else {
        var last := [ControlOp.DeleteImposter(existing[n])];
        assert Prunes(existing, keep)[..|Prunes(existing, keep)| - 1] == Prunes(existing[..n], keep);
      }
    }
  }

  // ---- any prefix, and the whole run ----

  /** The configs after the first `k` ops. */
  function After(configs: Configs, imposters: seq<ImposterConfig>, existing: seq<Port>, reconcile: bool, k: nat): Configs
    requires AllPorted(imposters) && imposters != [] && k <= |Submitted(imposters, existing, reconcile)|
  {
    SubmittedShape(imposters, existing, reconcile);
    Effects(configs, Submitted(imposters, existing, reconcile)[..k])
  }

  /** In closed form: a prefix of the upserts adds what that prefix of the body asks for; past
      them, everything asked for is in place and some leftovers are gone. */
  lemma {:induction false} AfterPrefix(configs: Configs, imposters: seq<ImposterConfig>, existing: seq<Port>, reconcile: bool, k: nat)
    requires AllPorted(imposters) && imposters != [] && k <= |Submitted(imposters, existing, reconcile)|
    ensures k <= |imposters| ==> After(configs, imposters, existing, reconcile, k) == configs + Asked(imposters[..k])
    ensures k >= |imposters| ==>
              exists gone: set<Port> ::
                && gone !! Kept(imposters)
                && After(configs, imposters, existing, reconcile, k) == (configs + Asked(imposters)) - gone
  {
    SubmittedShape(imposters, existing, reconcile);
    var ops, keep := ReplaceAllOps(imposters, existing), Kept(imposters);
    RestartsChangeNoConfig(configs, ops, k);
    if k <= |imposters| {
      assert ops[..k] == Upserts(imposters[..k]);
      UpsertsAdd(configs, imposters[..k]);
      assert k == |imposters| ==> imposters[..k] == imposters;
      assert (configs + Asked(imposters[..k])) - {} == configs + Asked(imposters[..k]);
      var none: set<Port> := {};
      assert none !! keep;
    } else {
      var tail := Prunes(existing, keep)[..k - |imposters|];
      PrunesAreDeletes(existing, keep);
      assert ops[..k] == Upserts(imposters) + tail;
      UpsertsAdd(configs, imposters);
      EffectsAppend(configs, Upserts(imposters), tail);
      var gone := DeletesRemove(configs + Asked(imposters), tail, keep);
    }
  }

  lemma {:induction false} DeletesRemove(configs: Configs, ops: seq<ControlOp>, keep: set<Port>) returns (gone: set<Port>)
    requires forall i :: 0 <= i < |ops| ==> ops[i].DeleteImposter? && ops[i].port !in keep
    ensures gone !! keep
    ensures AllPutOrDelete(ops) && Effects(configs, ops) == configs - gone
  {
    if ops == [] {
      gone := {};
      assert configs - gone == configs;
    } else {
      var before := DeletesRemove(configs, ops[..|ops| - 1], keep);
      gone := before + {ops[|ops| - 1].port};
      assert configs - gone == (configs - before) - {ops[|ops| - 1].port};
    }
  }

  /** Every port of the body has its final config. */
  ghost predicate InPlace(imposters: seq<ImposterConfig>, after: Configs)
    requires AllPorted(imposters)
  {
    forall p :: p in Asked(imposters) ==> p in after && after[p] == Asked(imposters)[p]
  }

  /** No port of the old set is missing until the whole body is in place, and no port of the body
      that was there, or is among the first `written`, is missing at all. */
  ghost predicate Superset(configs: Configs, imposters: seq<ImposterConfig>, written: nat, after: Configs)
    requires AllPorted(imposters)
  {
    && (configs.Keys <= after.Keys || InPlace(imposters, after))
    && configs.Keys * Kept(imposters) <= after.Keys
    && (forall i :: 0 <= i < written && i < |imposters| ==> imposters[i].port.value in after)
  }

  lemma TornInUpserts(configs: Configs, imposters: seq<ImposterConfig>, k: nat)
    requires AllPorted(imposters) && k <= |imposters|
    ensures Superset(configs, imposters, k, configs + Asked(imposters[..k]))
  {
    AskedKeys(imposters[..k]);
    PortsListed(imposters[..k]);
  }

  lemma TornInPrunes(configs: Configs, imposters: seq<ImposterConfig>, gone: set<Port>)
    requires AllPorted(imposters) && gone !! Kept(imposters)
    ensures InPlace(imposters, (configs + Asked(imposters)) - gone)
    ensures Superset(configs, imposters, |imposters|, (configs + Asked(imposters)) - gone)
  {
    AskedKeys(imposters);
    PortsListed(imposters);
  }

  /** Wherever the run tears, the fleet holds a superset that a retry can heal. */
  lemma {:induction false} TornRunIsASuperset(configs: Configs, imposters: seq<ImposterConfig>, existing: seq<Port>, reconcile: bool, k: nat)
    requires AllPorted(imposters) && imposters != [] && k <= |Submitted(imposters, existing, reconcile)|
    ensures Superset(configs, imposters, k, After(configs, imposters, existing, reconcile, k))
    ensures k >= |imposters| ==> InPlace(imposters, After(configs, imposters, existing, reconcile, k))
  {
    AfterPrefix(configs, imposters, existing, reconcile, k);
    var after := After(configs, imposters, existing, reconcile, k);
    if k < |imposters| {
      TornInUpserts(configs, imposters, k);
    } else {
      var gone: set<Port> :| gone !! Kept(imposters) && after == (configs + Asked(imposters)) - gone;
      TornInPrunes(configs, imposters, gone);
    }
  }

  lemma {:induction false} PortsListed(imposters: seq<ImposterConfig>)
    requires AllPorted(imposters)
    ensures forall i :: 0 <= i < |imposters| ==> imposters[i].port.value in Kept(imposters)
  {
    if imposters != [] {
      var n := |imposters| - 1;
      PortsListed(imposters[..n]);
      assert imposters[..n + 1] == imposters;
      OneMoreConfig(imposters, n);
    }
  }

  /** Every configured port is in the body or known to the node that built the ops. */
  ghost predicate Known(configs: Configs, imposters: seq<ImposterConfig>, existing: seq<Port>)
    requires AllPorted(imposters)
  {
    configs.Keys <= (set p | p in existing) + Kept(imposters)
  }

  /** The whole run ends at exactly what the body asked for if and only if the node that built it
      had applied every port outside the body that was configured when the run began. */
  lemma {:induction false} FullRunIsExact(configs: Configs, imposters: seq<ImposterConfig>, existing: seq<Port>, reconcile: bool)
    requires AllPorted(imposters) && imposters != []
    ensures var all := |Submitted(imposters, existing, reconcile)|;
            After(configs, imposters, existing, reconcile, all) == Asked(imposters) <==> Known(configs, imposters, existing)
  {
    SubmittedShape(imposters, existing, reconcile);
    var ops, keep := ReplaceAllOps(imposters, existing), Kept(imposters);
    var all := |Submitted(imposters, existing, reconcile)|;
    RestartsChangeNoConfig(configs, ops, all);
    assert ops[..all] == Upserts(imposters) + Prunes(existing, keep);
    PrunesRemove(configs + Asked(imposters), existing, keep);
    UpsertsAdd(configs, imposters);
    EffectsAppend(configs, Upserts(imposters), Prunes(existing, keep));
    AskedKeys(imposters);
    var stale := (set p | p in existing) - keep;
    assert After(configs, imposters, existing, reconcile, all) == (configs + Asked(imposters)) - stale;
    if configs.Keys <= (set p | p in existing) + keep {
      assert (configs + Asked(imposters)) - stale == Asked(imposters);
    } else {
      var p :| p in configs.Keys && p !in (set p | p in existing) + keep;
      assert p in (configs + Asked(imposters)) - stale && p !in Asked(imposters);
    }
  }

  lemma ExactlyWhenKnown(begun: Configs, ended: Configs, imposters: seq<ImposterConfig>, existing: seq<Port>, reconcile: bool)
    requires AllPorted(imposters) && imposters != []
    requires ended == After(begun, imposters, existing, reconcile, |Submitted(imposters, existing, reconcile)|)
    ensures ended == Asked(imposters) <==> Known(begun, imposters, existing)
  {
    FullRunIsExact(begun, imposters, existing, reconcile);
  }

  /** A retry under a fresh key, rebuilt by a node that has applied whatever state `torn` the first
      attempt left, ends at exactly what the body asked for. */
  lemma {:induction false} FreshRetryHeals(torn: Tables, imposters: seq<ImposterConfig>, reconcile: bool)
    requires AllPorted(imposters) && imposters != []
    ensures var existing := ConfiguredPorts(torn);
            After(Contents(torn), imposters, existing, reconcile, |Submitted(imposters, existing, reconcile)|) == Asked(imposters)
  {
    var existing := ConfiguredPorts(torn);
    PortsBelowAre(torn, 0x1_0000);
    assert Contents(torn).Keys <= set p | p in existing;
    FullRunIsExact(Contents(torn), imposters, existing, reconcile);
  }
}
