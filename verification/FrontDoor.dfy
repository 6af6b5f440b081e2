/** What the door hands on of a request, when it refuses, and what its precondition comes to in the
    log (`run_mutation`, crates/rift-cluster-server/src/admin_front.rs).
 */
module FrontDoor {
  import opened Text
  import opened Control
  import opened StateMachine
  import opened Dedup
  import opened Revisions
  import opened IfMatch
  import opened Routing
  import opened Mutation
  import opened Building
  import opened WritePath
  import opened StubEdits

  /** A request as the front receives it, and what this node reads to build it. */
  datatype Incoming = Incoming(kind: Terminated, body: Body, view: View, reconcile: bool, ifMatch: Option<string>, base: OpId, stamps: seq<Stamp>)

  ghost predicate Built(r: Incoming) {
    BuildMutation(r.kind, r.body, r.view).Ok? && |r.stamps| == |Handed(r.kind, r.body, r.view, r.reconcile).ops|
  }

  /** The ops the request asks for. */
  function OpsOf(r: Incoming): seq<ControlOp>
    requires BuildMutation(r.kind, r.body, r.view).Ok?
  {
    Handed(r.kind, r.body, r.view, r.reconcile).ops
  }

  function Passed(r: Incoming): Result<seq<ControlRequest>, WriteAnswer>
    requires BuildMutation(r.kind, r.body, r.view).Ok? && |r.stamps| == |OpsOf(r)|
  {
    Door(Handed(r.kind, r.body, r.view, r.reconcile), r.ifMatch, r.kind.Create?, r.base, r.stamps)
  }

  lemma HandedSubject(r: Incoming)
    requires Built(r)
    ensures Decodes(r.kind, r.body)
    ensures var subject := RouteSubject(r.kind, r.body);
            PreconditionPort(Handed(r.kind, r.body, r.view, r.reconcile)) == if subject.Some? then Ok(subject.value) else Err(BadData)
  {
    SubjectIs(r.kind, r.body, r.view);
    if r.kind.ReplaceAllImposters? {
      MultiOpIsIdempotent(r.kind, r.body, r.view);
      var m := BuildMutation(r.kind, r.body, r.view).value;
      assert TargetOf(WithRestarts(m.ops)[0]) != Some(WholeRouteTable);
    }
  }

  /** The header spells the revision for what the route is about. */
  ghost predicate Asks(r: Incoming, revision: nat)
    requires Decodes(r.kind, r.body)
  {
    r.ifMatch.Some? && RouteSubject(r.kind, r.body).Some? && SpellsRevision(r.ifMatch.value, RouteSubject(r.kind, r.body).value, revision)
  }

  lemma PreconditionIs(r: Incoming)
    requires Built(r)
    ensures Decodes(r.kind, r.body)
    ensures var p := DoorPrecondition(Handed(r.kind, r.body, r.view, r.reconcile), r.ifMatch, r.kind.Create?);
            && (r.ifMatch.None? ==> p == Ok(if r.kind.Create? then Absent else Unconditional))
            && (forall revision: nat :: p == Ok(AtRevision(revision)) <==> Asks(r, revision))
            && (p.Ok? <==> r.ifMatch.None? || exists revision: nat :: Asks(r, revision))
            && (p.Err? ==> p.error == BadData)
  {
    HandedSubject(r);
    if r.ifMatch.Some? && RouteSubject(r.kind, r.body).Some? {
      var raw, subject := r.ifMatch.value, RouteSubject(r.kind, r.body).value;
      forall revision: nat ensures ParseIfMatch(raw, subject) == Some(revision) <==> SpellsRevision(raw, subject, revision) {
        ParseIfMatchIff(raw, subject, revision);
      }
    }
  }

  // ---- when it passes, and what then ----

  ghost predicate AllValid(ops: seq<ControlOp>) {
    forall i :: 0 <= i < |ops| ==> Validate(ops[i]).Ok?
  }

  ghost predicate AllSmall(stamps: seq<Stamp>) {
    forall i :: 0 <= i < |stamps| ==> stamps[i].size <= 8 * 1024 * 1024
  }

  lemma SizesAreStamped(m: Mutation, base: OpId, p: Precondition, stamps: seq<Stamp>)
    requires |stamps| == |m.ops|
    ensures AllAdmitted(Requests(m.ops, base, p, stamps)) <==> AllSmall(stamps)
  {
    var requests := Requests(m.ops, base, p, stamps);
    assert forall i :: 0 <= i < |stamps| ==> requests[i].size == stamps[i].size;
  }

  /** The three checks of the door, in order. */
  lemma DoorIs(m: Mutation, ifMatch: Option<string>, createOnly: bool, base: OpId, stamps: seq<Stamp>)
    requires |stamps| == |m.ops|
    ensures var door, p := Door(m, ifMatch, createOnly, base, stamps), DoorPrecondition(m, ifMatch, createOnly);
            && (door.Ok? <==> AllValid(m.ops) && p.Ok? && AllSmall(stamps))
            && (!AllValid(m.ops) ==> door.Err? && door.error.Invalidated? && exists i :: IsFirstInvalid(m.ops, i, door.error.reason))
            && (AllValid(m.ops) && p.Err? ==> door == Err(AtTheDoor(p.error)))
            && (AllValid(m.ops) && p.Ok? && !AllSmall(stamps) ==> door == Err(TooLargeToReplicate))
  {
    var p := DoorPrecondition(m, ifMatch, createOnly);
    if p.Ok? { SizesAreStamped(m, base, p.value, stamps); }
  }

  /** The door passes a request exactly when every op validates, an `If-Match` spells a revision of
      what the route is about, and every op is small enough to replicate. */
  lemma DoorPassesIff(r: Incoming)
    requires Built(r)
    ensures Decodes(r.kind, r.body)
    ensures Passed(r).Ok? <==>
            AllValid(OpsOf(r)) && (r.ifMatch.None? || exists revision: nat :: Asks(r, revision)) && AllSmall(r.stamps)
  {
    PreconditionIs(r);
    DoorIs(Handed(r.kind, r.body, r.view, r.reconcile), r.ifMatch, r.kind.Create?, r.base, r.stamps);
  }

  /** And refuses it for the first of these that fails: the first invalid op and its reason, then a
      400 for the header, then a 413. */
  lemma DoorRefusesWith(r: Incoming)
    requires Built(r) && Passed(r).Err?
    ensures Decodes(r.kind, r.body)
    ensures !AllValid(OpsOf(r)) ==> Passed(r).error.Invalidated? && exists i :: IsFirstInvalid(OpsOf(r), i, Passed(r).error.reason)
    ensures AllValid(OpsOf(r)) && r.ifMatch.Some? && (forall revision: nat :: !Asks(r, revision)) ==> Passed(r).error == AtTheDoor(BadData)
    ensures AllValid(OpsOf(r)) && (r.ifMatch.None? || exists revision: nat :: Asks(r, revision)) ==> Passed(r).error == TooLargeToReplicate
  {
    PreconditionIs(r);
    DoorIs(Handed(r.kind, r.body, r.view, r.reconcile), r.ifMatch, r.kind.Create?, r.base, r.stamps);
  }

  /** What it hands on: op `i` of the request under the id of its position and its own stamp, with the
      revision the `If-Match` spells and none without one, and required absent exactly on a create
      without one. */
  lemma DoorHandsOn(r: Incoming, i: nat)
    requires Built(r) && Passed(r).Ok? && i < |OpsOf(r)|
    ensures Decodes(r.kind, r.body) && |Passed(r).value| == |OpsOf(r)|
    ensures var request := Passed(r).value[i];
            && request.op == OpsOf(r)[i]
            && request.opId == (if |OpsOf(r)| == 1 then r.base else V5(r.base, PositionBytes(i)))
            && request.issuedAt == r.stamps[i].issuedAt && request.size == r.stamps[i].size
            && (request.expectAbsent <==> r.ifMatch.None? && r.kind.Create?)
            && (request.expectedRevision.Some? <==> r.ifMatch.Some?)
            && (forall revision: nat :: request.expectedRevision == Some(revision) <==> Asks(r, revision))
  {
    PreconditionIs(r);
  }

  // ---- in the log ----

  /** The revision a table shows for a subject. */
  ghost function ShownRevision(t: Tables, subject: Subject): Option<nat> {
    match subject
    case Some(port) => if port in t.configs then Some(t.configs[port].revision) else None
    case None => Some(RoutesRevision(t))
  }

  lemma ConditionedIsSingle(r: Incoming)
    requires Built(r) && Passed(r).Ok? && r.ifMatch.Some? && ConfigsKnowTheirPort(r.view.tables)
    ensures Decodes(r.kind, r.body) && RouteSubject(r.kind, r.body).Some? && |OpsOf(r)| == 1
    ensures r.kind.ClearSavedProxyResponses? ==> TargetOf(OpsOf(r)[0]).None?
    ensures !r.kind.ClearSavedProxyResponses? ==>
              TargetOf(OpsOf(r)[0]) ==
              Some(match RouteSubject(r.kind, r.body).value case Some(port) => ImposterRow(port) case None => WholeRouteTable)
  {
    PreconditionIs(r);
    HandedSubject(r);
    var m := BuildMutation(r.kind, r.body, r.view).value;
    MultiOpIsIdempotent(r.kind, r.body, r.view);
    SubjectIs(r.kind, r.body, r.view);
    DoorAndApplyAgreeIff(r.kind, r.body, r.view);
  }

  /** A write that carried an `If-Match` and took effect found what it is about at the revision the
      header spells, however old the view it was built from. */
  lemma IfMatchHeld(log: seq<Payload>, basis: nat, at: nat, r: Incoming, i: nat, revision: nat)
    requires basis <= at < |log| && r.view.tables == TablesAt(log, basis)
    requires Built(r) && Passed(r).Ok? && i < |OpsOf(r)| && |Passed(r).value| == |OpsOf(r)|
    requires TookEffect(log, at) && log[at].request == Passed(r).value[i] && Decodes(r.kind, r.body) && Asks(r, revision)
    ensures ShownRevision(TablesAt(log, at), RouteSubject(r.kind, r.body).value) == Some(revision)
  {
    PortsAreKnown(log, basis);
    DoorHandsOn(r, i);
    ConditionedIsSingle(r);
    TookEffectExecutes(log, at);
  }

  /** A create without one that took effect found its port free. */
  lemma CreateFoundThePortFree(log: seq<Payload>, at: nat, r: Incoming)
    requires at < |log| && Built(r) && r.kind.Create? && r.ifMatch.None? && Passed(r).Ok?
    requires |OpsOf(r)| == 1 && |Passed(r).value| == 1 && TookEffect(log, at) && log[at].request == Passed(r).value[0]
    ensures Decodes(r.kind, r.body) && r.body.config.port.value !in TablesAt(log, at).configs
    ensures r.body.config.port.value in TablesAt(log, at + 1).configs
    ensures TablesAt(log, at + 1).configs[r.body.config.port.value].config == r.body.config
  {
    DoorHandsOn(r, 0);
    TookEffectExecutes(log, at);
  }

  /** And a stale one is refused, whatever the write asks for: it conflicts and changes nothing. */
  lemma StaleIfMatchConflicts(t: Tables, r: Incoming, i: nat, revision: nat, index: nat)
    requires Built(r) && Passed(r).Ok? && i < |OpsOf(r)| && |Passed(r).value| == |OpsOf(r)| && ConfigsKnowTheirPort(r.view.tables)
    requires Decodes(r.kind, r.body) && Asks(r, revision)
    requires ShownRevision(t, RouteSubject(r.kind, r.body).value) != Some(revision)
    ensures Execute(t, Passed(r).value[i], index) == Err(RevisionConflict)
  {
    DoorHandsOn(r, i);
    DoorPassesIff(r);
    ConditionedIsSingle(r);
  }
}
