/** What each route makes of a request: when it is built into a mutation, what it is answered when it
    is not, and what the mutation carries (`build_mutation`,
    crates/rift-cluster-server/src/admin_front.rs).

    Everything here is said of the request and of what the node reads, not of how the mutation is
    built.
 */
module Building {
  import opened Text
  import opened Control
  import opened StateMachine
  import opened IfMatch
  import opened Routing
  import opened Mutation

  // ---- when a request is built ----

  /** The segment is the canonical decimal of one of the stubs this node has applied on the port. */
  ghost predicate NamesAStub(view: View, port: Port, text: string) {
    port in view.tables.configs &&
    exists at: nat :: at < |view.tables.configs[port].config.stubs| && at <= U64_MAX && Decimal(at) == text
  }

  /** The body is of the kind the route reads. */
  ghost predicate Decodes(kind: Terminated, body: Body) {
    match kind
    case Create => body.ConfigBody? && body.config.port.Some?
    case ReplaceAllImposters => body.BatchBody? && forall i :: 0 <= i < |body.imposters| ==> body.imposters[i].port.Some?
    case PutFleetName => body.NameBody?
    case AddStub(_) => body.AddStubBody?
    case AddSpaceStub(_, _) => body.StubBody? && body.looksLikeAStub
    case ReplaceStubs(_) => body.StubsBody?
    case ReplaceStubAt(_, _) => body.StubBody?
    case ReplaceStubById(_, _) => body.StubBody?
    case PutRouteTable => body.TableBody?
    case _ => true
  }

  /** What the route addresses is there, as far as this node can read. */
  ghost predicate Finds(kind: Terminated, view: View) {
    match kind
    case DeleteOneImposter(port) => view.served.Some? && port in view.served.value
    case DeleteAllImposters => view.served.Some?
    case ReplaceStubs(port) => port in view.tables.configs
    case ReplaceStubAt(port, text) => NamesAStub(view, port, text)
    case DeleteStubAt(port, text) => NamesAStub(view, port, text)
    case DeleteOneRoute(id) => id in view.tables.routes
    case _ => true
  }

  /** The routes that are served without a mutation. */
  predicate ServedElsewhere(kind: Terminated) {
    kind.SpaceTeardown? || kind.SpacesList? || kind.TryImposter? || kind.SpecCompile?
  }

  lemma StubPositionIsNamed(view: View, port: Port, text: string)
    requires port in view.tables.configs
    ensures var stubs := view.tables.configs[port].config.stubs;
            StubPosition(text, |stubs|).Some? <==> NamesAStub(view, port, text)
  {
    var stubs := view.tables.configs[port].config.stubs;
    if NamesAStub(view, port, text) {
      var at: nat :| at < |stubs| && at <= U64_MAX && Decimal(at) == text;
      DecimalParses(at, 0x1_0000_0000_0000_0000);
    }
    if StubPosition(text, |stubs|).Some? { assert Decimal(StubPosition(text, |stubs|).value) == text; }
  }

  /** For every route, body and view: a request is built exactly when its body decodes and what it
      addresses is there. */
  lemma BuildsIff(kind: Terminated, body: Body, view: View)
    ensures BuildMutation(kind, body, view).Ok? <==> !ServedElsewhere(kind) && Decodes(kind, body) && Finds(kind, view)
  {
    if (kind.ReplaceStubAt? || kind.DeleteStubAt?) && kind.port in view.tables.configs {
      StubPositionIsNamed(view, kind.port, kind.index);
    }
  }

  /** And what it is answered when it is not.  A delete of an imposter that is not there is the success
      it asks for; a failed local read is an error of this node; an index edit looks for its stub
      before it reads the body, and the whole-list edit after. */
  lemma AnsweredWith(kind: Terminated, body: Body, view: View)
    requires BuildMutation(kind, body, view).Err?
    ensures var answer := BuildMutation(kind, body, view).error;
            && (answer == AlreadyGone <==> kind.DeleteOneImposter? && view.served.Some? && kind.port !in view.served.value)
            && (answer == InternalError <==>
                  ServedElsewhere(kind) || ((kind.DeleteOneImposter? || kind.DeleteAllImposters?) && view.served.None?))
            && (answer == NotFound <==>
                  || ((kind.ReplaceStubAt? || kind.DeleteStubAt? || kind.DeleteOneRoute?) && !Finds(kind, view))
                  || (kind.ReplaceStubs? && Decodes(kind, body) && !Finds(kind, view)))
            && (answer == BadData <==> !Decodes(kind, body) && (kind.ReplaceStubAt? ==> Finds(kind, view)))
  {
    BuildsIff(kind, body, view);
    if (kind.ReplaceStubAt? || kind.DeleteStubAt?) && kind.port in view.tables.configs {
      StubPositionIsNamed(view, kind.port, kind.index);
    }
  }

  /** The mutation a route hands to the door: a whole-set replace marks restarts unless it reconciles. */
  function Handed(kind: Terminated, body: Body, view: View, reconcile: bool): Mutation
    requires BuildMutation(kind, body, view).Ok?
  {
    var m := BuildMutation(kind, body, view).value;
    if kind.ReplaceAllImposters? && !reconcile then m.(ops := WithRestarts(m.ops)) else m
  }

  /** The ops handed on are those built, in order; only a whole-set replace that does not reconcile
      marks its puts, each as a restart of its imposter. */
  lemma HandedAreBuilt(kind: Terminated, body: Body, view: View, reconcile: bool, i: nat)
    requires BuildMutation(kind, body, view).Ok? && i < |Handed(kind, body, view, reconcile).ops|
    ensures |Handed(kind, body, view, reconcile).ops| == |BuildMutation(kind, body, view).value.ops|
    ensures var built, op := BuildMutation(kind, body, view).value.ops[i], Handed(kind, body, view, reconcile).ops[i];
            if op.PutImposter? && kind.ReplaceAllImposters? && !reconcile then
              built.PutImposter? && op.config == built.config && op.restart == Some(Imposter)
            else op == built
  {}

  // ---- what the mutation carries besides its ops ----

  /** What an `If-Match` on the route is about: an imposter, the route table, or nothing. */
  ghost function RouteSubject(kind: Terminated, body: Body): Option<Subject>
    requires Decodes(kind, body)
  {
    match kind
    case Create => Some(body.config.port)
    case ReplaceAllImposters => None
    case DeleteAllImposters => None
    case PutFleetName => None
    case SpecCompile => None
    case PutRouteTable => Some(None)
    case DeleteOneRoute(_) => Some(None)
    case _ => Some(Some(kind.port))
  }

  lemma SubjectIs(kind: Terminated, body: Body, view: View)
    requires BuildMutation(kind, body, view).Ok?
    ensures Decodes(kind, body)
    ensures var subject := RouteSubject(kind, body);
            PreconditionPort(BuildMutation(kind, body, view).value) == if subject.Some? then Ok(subject.value) else Err(BadData)
  {
    BuildsIff(kind, body, view);
    var m := BuildMutation(kind, body, view).value;
    MultiOpIsIdempotent(kind, body, view);
    if |m.ops| >= 2 { MultiOpHasNoSubject(kind, body, view); } else { SingleOpSubject(m); }
  }

  /** The routes that bring configs or stubs into the fleet. */
  predicate BringsContent(kind: Terminated) {
    kind.Create? || kind.ReplaceAllImposters? || kind.AddStub? || kind.AddSpaceStub? ||
    kind.ReplaceStubs? || kind.ReplaceStubAt? || kind.ReplaceStubById?
  }

  /** The routes whose answer is fetched back once the op is applied. */
  predicate FetchesBack(kind: Terminated) {
    BringsContent(kind) || kind.DeleteStubAt? || kind.DeleteStubById? || kind.ClearSavedProxyResponses?
  }

  ghost function FetchedFrom(kind: Terminated, body: Body): string
    requires FetchesBack(kind) && Decodes(kind, body)
  {
    if kind.ReplaceAllImposters? then "/imposters"
    else if kind.Create? then "/imposters/" + Decimal(body.config.port.value)
    else if kind.AddSpaceStub? then "/imposters/" + Decimal(kind.port) + "/spaces/" + kind.flow + "/stubs"
    else "/imposters/" + Decimal(kind.port)
  }

  /** The status a route answers, the path it is fetched back from, and whether its content must be
      admitted: 201 for a create and for a space stub, 200 otherwise. */
  lemma BuiltRenders(kind: Terminated, body: Body, view: View)
    requires BuildMutation(kind, body, view).Ok?
    ensures var m := BuildMutation(kind, body, view).value;
            && (m.admit == Content <==> BringsContent(kind))
            && m.render.status == (if kind.Create? || kind.AddSpaceStub? then 201 else 200)
            && (m.render.Captured? <==> !FetchesBack(kind))
            && (m.render.FetchAfterOrdered? <==> kind.ReplaceAllImposters? && body.imposters != [])
            && (FetchesBack(kind) ==> Decodes(kind, body) && m.render.path == FetchedFrom(kind, body))
  {}

  /** The first time each port is named. */
  function FirstTimes(ports: seq<Port>): seq<bool> {
    seq(|ports|, i requires 0 <= i < |ports| => ports[i] !in ports[..i])
  }

  lemma {:induction false} FirstOccurrencesArePicked(ports: seq<Port>) returns (from: seq<nat>)
    ensures Picked(ports, FirstOccurrences(ports), FirstTimes(ports), from)
  {
    from := [];
    if ports != [] {
      var front, last := ports[..|ports| - 1], ports[|ports| - 1];
      from := FirstOccurrencesArePicked(front);
      PickedWithLast(front, last, FirstOccurrences(front), last !in front, FirstTimes(front), from);
      assert front + [last] == ports;
      FirstTimesWithLast(ports);
      if last !in front { from := from + [|front|]; }
    }
  }

  lemma FirstTimesWithLast(ports: seq<Port>)
    requires ports != []
    ensures var front, last := ports[..|ports| - 1], ports[|ports| - 1];
            FirstTimes(ports) == FirstTimes(front) + [last !in front]
  {
    var front := ports[..|ports| - 1];
    assert forall i :: 0 <= i < |front| ==> front[..i] == ports[..i];
  }

  lemma {:induction false} PortsAreTheConfigs(imposters: seq<ImposterConfig>)
    requires AllPorted(imposters)
    ensures |PortsOf(imposters)| == |imposters|
    ensures forall i :: 0 <= i < |imposters| ==> imposters[i].port == Some(PortsOf(imposters)[i])
  {
    if imposters != [] { PortsAreTheConfigs(imposters[..|imposters| - 1]); }
  }

  /** The order a whole-set replace answers in: the body's ports as it lists them, each where it is
      first named. */
  lemma OrderIsTheBodys(body: Body, view: View) returns (ports: seq<Port>, from: seq<nat>)
    requires BuildMutation(ReplaceAllImposters, body, view).Ok? && BuildMutation(ReplaceAllImposters, body, view).value.render.FetchAfterOrdered?
    ensures body.BatchBody? && |ports| == |body.imposters|
    ensures forall i :: 0 <= i < |ports| ==> body.imposters[i].port == Some(ports[i])
    ensures Picked(ports, BuildMutation(ReplaceAllImposters, body, view).value.render.order, FirstTimes(ports), from)
  {
    PortsAreTheConfigs(body.imposters);
    ports := PortsOf(body.imposters);
    from := FirstOccurrencesArePicked(ports);
  }

  /** Which cycles a put restarts: all of them on a whole-list replace, the one stub's on an index
      replace, none otherwise. */
  lemma BuiltRestarts(kind: Terminated, body: Body, view: View, i: nat)
    requires BuildMutation(kind, body, view).Ok? && i < |BuildMutation(kind, body, view).value.ops|
    requires BuildMutation(kind, body, view).value.ops[i].PutImposter?
    ensures var restart := BuildMutation(kind, body, view).value.ops[i].restart;
            && (kind.ReplaceStubs? ==> restart == Some(AllStubs))
            && (kind.ReplaceStubAt? ==> restart.Some? && restart.value.StubAt? && Decimal(restart.value.index) == kind.index)
            && (!kind.ReplaceStubs? && !kind.ReplaceStubAt? ==> restart.None?)
  {
    if kind.ReplaceAllImposters? && body.imposters != [] {
      PrunesAreDeletes(ConfiguredPorts(view.tables), Kept(body.imposters));
    }
  }

  // ---- ids ----

  /** A key is what is left of the header once it is trimmed; a blank one is none. */
  ghost predicate HasKey(key: Option<string>) { key.Some? && Trim(key.value) != "" }

  /** A key that reads as a UUID is the base id; two other keys give one base id exactly when they are
      the same text; without a key the base id is the one drawn. */
  lemma BaseIsTheKeys(key: Option<string>, parsed: Option<nat>, drawn: OpId, other: Option<string>, otherDrawn: OpId)
    ensures !HasKey(key) ==> BaseOpId(key, parsed, drawn) == drawn
    ensures HasKey(key) && parsed.Some? ==> BaseOpId(key, parsed, drawn) == Uuid(parsed.value)
    ensures HasKey(key) && HasKey(other) && parsed.None? ==>
              (BaseOpId(key, parsed, drawn) == BaseOpId(other, None, otherDrawn) <==> Trim(key.value) == Trim(other.value))
  {}
}
