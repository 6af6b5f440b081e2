/** Which requests the front terminates, and as what
    (crates/rift-cluster-server/src/admin_front.rs, crates/rift-cluster-server/src/fleet.rs).
 */
module Routing {
  import opened Text
  import opened Control

  datatype Method = GET | POST | PUT | DELETE | OtherMethod

  datatype Terminated =
    | Create
    | ReplaceAllImposters
    | DeleteAllImposters
    | DeleteOneImposter(port: Port)
    | AddStub(port: Port)
    | ReplaceStubs(port: Port)
    | ReplaceStubAt(port: Port, index: string)
    | DeleteStubAt(port: Port, index: string)
    | ReplaceStubById(port: Port, id: string)
    | DeleteStubById(port: Port, id: string)
    | ToggleEnabled(port: Port, enabled: bool)
    | ClearSavedProxyResponses(port: Port)
    | SpaceTeardown(port: Port, flow: string)
    | AddSpaceStub(port: Port, flow: string)
    | SpacesList(port: Port)
    | TryImposter(port: Port)
    | PutRouteTable
    | DeleteOneRoute(id: string)
    | PutFleetName
    | SpecCompile

  const FLEET_NAME_PATH: string := "/admin/fleet/name"
  const IMPOSTERS: string := "/imposters/"
  const ADMIN_IMPOSTERS: string := "/admin/imposters/"
  const ROUTES: string := "/front-door/routes/"

  function ParsePort(s: string): (port: Option<Port>) {
    match ParseUnsigned(s, 0x1_0000)
    case None => None
    case Some(n) => if n < 0x1_0000 then Some(n) else None
  }

  /** The segments after either spelling of the imposters prefix, with any query cut off. */
  function ImposterSegments(path: string): Option<seq<string>> {
    var bare := Split(path, '?')[0];
    var admin := StripPrefix(bare, ADMIN_IMPOSTERS);
    var rest := if admin.Some? then admin else StripPrefix(bare, IMPOSTERS);
    if rest.None? then None else Some(Split(rest.value, '/'))
  }

  /** The `(port, flow)` of a single-space read. */
  function SpaceReadTarget(path: string): Option<(Port, string)> {
    var segments :- ImposterSegments(path);
    if |segments| == 3 && segments[1] == "spaces" && segments[2] != "" then
      var port :- ParsePort(segments[0]);
      Some((port, segments[2]))
    else None
  }

  /** The port of a spaces listing, with or without a trailing slash. */
  function SpacesListTarget(path: string): Option<Port> {
    var segments :- ImposterSegments(path);
    if (|segments| == 2 || (|segments| == 3 && segments[2] == "")) && segments[1] == "spaces"
    then ParsePort(segments[0]) else None
  }

  /** The routes under `/imposters/{port}`, by what follows the port. */
  function ClassifyUnderPort(verb: Method, port: Port, tail: seq<string>): Option<Terminated> {
    if tail == [] && verb == DELETE then Some(DeleteOneImposter(port))
    else if tail == ["enable"] && verb == POST then Some(ToggleEnabled(port, true))
    else if tail == ["disable"] && verb == POST then Some(ToggleEnabled(port, false))
    else if tail == ["savedProxyResponses"] && verb == DELETE then Some(ClearSavedProxyResponses(port))
    else if |tail| == 2 && tail[0] == "spaces" && verb == DELETE && tail[1] != "" then Some(SpaceTeardown(port, tail[1]))
    else if |tail| == 3 && tail[0] == "spaces" && tail[2] == "stubs" && verb == POST && tail[1] != "" then
      Some(AddSpaceStub(port, tail[1]))
    else if tail == ["stubs"] then
      (match verb case POST => Some(AddStub(port)) case PUT => Some(ReplaceStubs(port)) case _ => None)
    else if |tail| == 3 && tail[0] == "stubs" && tail[1] == "by-id" && tail[2] != "" then
      (match verb
       case PUT => Some(ReplaceStubById(port, tail[2]))
       case DELETE => Some(DeleteStubById(port, tail[2]))
       case _ => None)
    else if |tail| == 2 && tail[0] == "stubs" && tail[1] != "" then
      (match verb
       case PUT => Some(ReplaceStubAt(port, tail[1]))
       case DELETE => Some(DeleteStubAt(port, tail[1]))
       case _ => None)
    else None
  }

  function ClassifyImposter(verb: Method, path: string): Option<Terminated> {
    var rest :- StripPrefix(path, IMPOSTERS);
    var segments := Split(rest, '/');
    var port :- ParsePort(segments[0]);
    ClassifyUnderPort(verb, port, segments[1..])
  }

  /** `classify`, for a path with no query. */
  function Classify(verb: Method, path: string): Option<Terminated> {
    if path == FLEET_NAME_PATH && verb == PUT then Some(PutFleetName)
    else if path == "/specs/compile" then (if verb == POST then Some(SpecCompile) else None)
    else if path == "/front-door/routes" then (if verb == PUT then Some(PutRouteTable) else None)
    else if StripPrefix(path, ROUTES).Some? then
      var id := StripPrefix(path, ROUTES).value;
      if verb == DELETE && id != "" then Some(DeleteOneRoute(id)) else None
    else if path == "/imposters" then
      (match verb
       case POST => Some(Create)
       case PUT => Some(ReplaceAllImposters)
       case DELETE => Some(DeleteAllImposters)
       case _ => None)
    else if verb == GET && SpacesListTarget(path).Some? then Some(SpacesList(SpacesListTarget(path).value))
    else
      var admin := StripPrefix(path, ADMIN_IMPOSTERS);
      if admin.Some? && |Split(admin.value, '/')| == 2 && Split(admin.value, '/')[1] == "try" then
        if verb != POST then None
        else
          var port :- ParsePort(Split(admin.value, '/')[0]);
          Some(TryImposter(port))
      else ClassifyImposter(verb, path)
  }

  // ---- the printed form of a route ----

  function VerbOf(route: Terminated): Method {
    match route
    case Create => POST
    case ReplaceAllImposters => PUT
    case DeleteAllImposters => DELETE
    case DeleteOneImposter(_) => DELETE
    case AddStub(_) => POST
    case ReplaceStubs(_) => PUT
    case ReplaceStubAt(_, _) => PUT
    case DeleteStubAt(_, _) => DELETE
    case ReplaceStubById(_, _) => PUT
    case DeleteStubById(_, _) => DELETE
    case ToggleEnabled(_, _) => POST
    case ClearSavedProxyResponses(_) => DELETE
    case SpaceTeardown(_, _) => DELETE
    case AddSpaceStub(_, _) => POST
    case SpacesList(_) => GET
    case TryImposter(_) => POST
    case PutRouteTable => PUT
    case DeleteOneRoute(_) => DELETE
    case PutFleetName => PUT
    case SpecCompile => POST
  }

  predicate UnderPort(route: Terminated) {
    !(route.Create? || route.ReplaceAllImposters? || route.DeleteAllImposters? || route.TryImposter?
      || route.PutRouteTable? || route.DeleteOneRoute? || route.PutFleetName? || route.SpecCompile?)
  }

  /** The segments after the port, for a route under `/imposters/{port}`. */
  function TailOf(route: Terminated): seq<string>
    requires UnderPort(route)
  {
    match route
    case DeleteOneImposter(_) => []
    case AddStub(_) => ["stubs"]
    case ReplaceStubs(_) => ["stubs"]
    case ReplaceStubAt(_, index) => ["stubs", index]
    case DeleteStubAt(_, index) => ["stubs", index]
    case ReplaceStubById(_, id) => ["stubs", "by-id", id]
    case DeleteStubById(_, id) => ["stubs", "by-id", id]
    case ToggleEnabled(_, enabled) => [if enabled then "enable" else "disable"]
    case ClearSavedProxyResponses(_) => ["savedProxyResponses"]
    case SpaceTeardown(_, flow) => ["spaces", flow]
    case AddSpaceStub(_, flow) => ["spaces", flow, "stubs"]
    case SpacesList(_) => ["spaces"]
  }

  function PathOf(route: Terminated): string {
    if UnderPort(route) then IMPOSTERS + Join([Decimal(route.port)] + TailOf(route), "/")
    else match route
    case TryImposter(port) => ADMIN_IMPOSTERS + Join([Decimal(port), "try"], "/")
    case PutRouteTable => "/front-door/routes"
    case DeleteOneRoute(id) => ROUTES + id
    case PutFleetName => FLEET_NAME_PATH
    case SpecCompile => "/specs/compile"
    case _ => "/imposters"
  }

  /** A path segment that names something. */
  ghost predicate Segment(s: string) { s != "" && Free(s, '/') }

  /** What a route carries is a segment; a front-door route id may hold slashes too. */
  ghost predicate WellFormed(route: Terminated) {
    match route
    case ReplaceStubAt(_, index) => Segment(index)
    case DeleteStubAt(_, index) => Segment(index)
    case ReplaceStubById(_, id) => Segment(id)
    case DeleteStubById(_, id) => Segment(id)
    case SpaceTeardown(_, flow) => Segment(flow)
    case AddSpaceStub(_, flow) => Segment(flow)
    case DeleteOneRoute(id) => id != ""
    case _ => true
  }

  // ---- every spelling of a route ----

  /** The path of a route under `/imposters/`, the port written as `text`. */
  ghost predicate SpelledUnder(path: string, text: string, route: Terminated) {
    UnderPort(route) && !route.SpacesList? && Numeral(text, route.port) && path == IMPOSTERS + Join([text] + TailOf(route), "/")
  }

  ghost predicate SpelledTry(path: string, text: string, port: Port) {
    Numeral(text, port) && path == ADMIN_IMPOSTERS + Join([text] + ["try"], "/")
  }

  /** A listing, under either prefix, with or without a trailing slash, and whatever query. */
  ghost predicate SpelledListing(path: string, prefix: string, text: string, slash: seq<string>, query: string, port: Port) {
    && (prefix == IMPOSTERS || prefix == ADMIN_IMPOSTERS) && Numeral(text, port)
    && (slash == [] || slash == [""]) && (query == "" || query[0] == '?')
    && path == prefix + Join([text] + (["spaces"] + slash), "/") + query
  }

  /** The path is one of the route's spellings. */
  ghost predicate Spells(path: string, route: Terminated) {
    match route
    case SpacesList(port) => exists prefix, text, slash, query :: SpelledListing(path, prefix, text, slash, query, port)
    case TryImposter(port) => exists text :: SpelledTry(path, text, port)
    case DeleteOneRoute(id) => path == "/front-door/routes/" + id
    case PutRouteTable => path == "/front-door/routes"
    case PutFleetName => path == "/admin/fleet/name"
    case SpecCompile => path == "/specs/compile"
    case Create => path == "/imposters"
    case ReplaceAllImposters => path == "/imposters"
    case DeleteAllImposters => path == "/imposters"
    case _ => exists text :: SpelledUnder(path, text, route)
  }

  lemma PortParsesIff(text: string, port: Port)
    ensures ParsePort(text) == Some(port) <==> Numeral(text, port)
  {
    ParsesIff(text, 0x1_0000, port);
  }

  lemma NumeralIsASegment(text: string, port: Port)
    requires Numeral(text, port)
    ensures Free(text, '/') && Free(text, '?')
  {
    NumeralIsFreeOf(text, port, '/');
    NumeralIsFreeOf(text, port, '?');
  }

  /** Text that starts like the imposters prefix is none of the fixed paths. */
  lemma ImpostersPathIsNoOther(rest: string)
    ensures var path := IMPOSTERS + rest;
            && path != FLEET_NAME_PATH && path != "/specs/compile" && path != "/front-door/routes" && path != "/imposters"
            && StripPrefix(path, ROUTES).None? && StripPrefix(path, ADMIN_IMPOSTERS).None?
            && StripPrefix(path, IMPOSTERS) == Some(rest)
  {
    var path := IMPOSTERS + rest;
    assert path[1] == 'i' && FLEET_NAME_PATH[1] == 'a' && "/specs/compile"[1] == 's';
    assert ROUTES[1] == 'f' && ADMIN_IMPOSTERS[1] == 'a' && "/front-door/routes"[1] == 'f';
    assert |path| >= 11 > |"/imposters"|;
    StripPrefixOfConcat(IMPOSTERS, rest);
  }

  lemma AdminPathIsNoOther(rest: string)
    ensures var path := ADMIN_IMPOSTERS + rest;
            && path != FLEET_NAME_PATH && path != "/specs/compile" && path != "/front-door/routes" && path != "/imposters"
            && StripPrefix(path, ROUTES).None? && StripPrefix(path, IMPOSTERS).None?
            && StripPrefix(path, ADMIN_IMPOSTERS) == Some(rest)
  {
    var path := ADMIN_IMPOSTERS + rest;
    assert path[7] == 'i' && FLEET_NAME_PATH[7] == 'f' && "/specs/compile"[1] == 's' && "/imposters"[1] == 'i';
    assert ROUTES[1] == 'f' && IMPOSTERS[1] == 'i' && path[1] == 'a' && "/front-door/routes"[1] == 'f';
    StripPrefixOfConcat(ADMIN_IMPOSTERS, rest);
  }

  /** What a route names is not empty. */
  ghost predicate NamesSomething(route: Terminated) {
    match route
    case ReplaceStubAt(_, index) => index != ""
    case DeleteStubAt(_, index) => index != ""
    case ReplaceStubById(_, id) => id != ""
    case DeleteStubById(_, id) => id != ""
    case SpaceTeardown(_, flow) => flow != ""
    case AddSpaceStub(_, flow) => flow != ""
    case _ => true
  }

  /** Under a port, a method and a tail are a route exactly when they are its own. */
  lemma TailClassifiedIff(verb: Method, port: Port, tail: seq<string>, route: Terminated)
    ensures ClassifyUnderPort(verb, port, tail) == Some(route) <==>
            && UnderPort(route) && !route.SpacesList? && route.port == port
            && verb == VerbOf(route) && tail == TailOf(route) && NamesSomething(route)
  {}

  lemma TailIsFreeIff(route: Terminated)
    requires UnderPort(route)
    ensures WellFormed(route) <==> AllFree(TailOf(route), '/') && NamesSomething(route)
  {
    var tail := TailOf(route);
    assert AllFree(tail, '/') <==> forall i :: 0 <= i < |tail| ==> Free(tail[i], '/');
    match route
    case ReplaceStubAt(_, index) => assert tail[1] == index;
    case DeleteStubAt(_, index) => assert tail[1] == index;
    case ReplaceStubById(_, id) => assert tail[2] == id;
    case DeleteStubById(_, id) => assert tail[2] == id;
    case SpaceTeardown(_, flow) => assert tail[1] == flow;
    case AddSpaceStub(_, flow) => assert tail[1] == flow;
    case _ =>
  }

  lemma SegmentsOf(text: string, port: Port, tail: seq<string>)
    requires Numeral(text, port) && AllFree(tail, '/')
    ensures Split(Join([text] + tail, "/"), '/') == [text] + tail
  {
    NumeralIsASegment(text, port);
    SplitOfJoin([text] + tail, '/');
  }

  lemma UnderPortClassifies(path: string, text: string, route: Terminated)
    requires SpelledUnder(path, text, route) && WellFormed(route)
    ensures Classify(VerbOf(route), path) == Some(route)
  {
    var tail := TailOf(route);
    TailIsFreeIff(route);
    SegmentsOf(text, route.port, tail);
    ImpostersPathIsNoOther(Join([text] + tail, "/"));
    PortParsesIff(text, route.port);
    TailClassifiedIff(VerbOf(route), route.port, tail, route);
    assert ([text] + tail)[1..] == tail;
  }

  lemma TryClassifies(path: string, text: string, port: Port)
    requires SpelledTry(path, text, port)
    ensures Classify(POST, path) == Some(TryImposter(port))
  {
    SegmentsOf(text, port, ["try"]);
    AdminPathIsNoOther(Join([text] + ["try"], "/"));
    PortParsesIff(text, port);
  }

  /** Where a query begins. */
  lemma CutAtQuery(bare: string, query: string)
    requires Free(bare, '?') && (query == "" || query[0] == '?')
    ensures Split(bare + query, '?')[0] == bare
  {
    if query == "" {
      assert bare + query == bare;
      SplitFree(bare, '?');
    } else {
      SplitHead(bare, query[1..], '?');
      assert bare + query == bare + ['?'] + query[1..];
    }
  }

  lemma QueryAfterCut(path: string) returns (query: string)
    ensures path == Split(path, '?')[0] + query && (query == "" || query[0] == '?')
  {
    JoinOfSplit(path, '?');
    var pieces := Split(path, '?');
    query := path[|pieces[0]|..];
  }

  lemma {:induction false} JoinIsFree(pieces: seq<string>, sep: string, c: char)
    requires AllFree(pieces, c) && Free(sep, c)
    ensures Free(Join(pieces, sep), c)
  {
    if |pieces| > 1 { JoinIsFree(pieces[1..], sep, c); }
  }

  /** Cutting the query and the prefix off leaves what stands between them. */
  lemma BareSegments(prefix: string, rest: string, query: string)
    requires (prefix == IMPOSTERS || prefix == ADMIN_IMPOSTERS) && Free(rest, '?') && (query == "" || query[0] == '?')
    ensures ImposterSegments(prefix + rest + query) == Some(Split(rest, '/'))
  {
    ImpostersPathIsNoOther(rest);
    AdminPathIsNoOther(rest);
    assert Free(prefix + rest, '?');
    CutAtQuery(prefix + rest, query);
  }

  lemma ListingIsTargeted(path: string, prefix: string, text: string, slash: seq<string>, query: string, port: Port)
    requires SpelledListing(path, prefix, text, slash, query, port)
    ensures SpacesListTarget(path) == Some(port)
  {
    var tail := ["spaces"] + slash;
    NumeralIsASegment(text, port);
    SegmentsOf(text, port, tail);
    PortParsesIff(text, port);
    JoinIsFree([text] + tail, "/", '?');
    BareSegments(prefix, Join([text] + tail, "/"), query);
  }

  lemma PrefixedIsNoOther(path: string, prefix: string, rest: string)
    requires (prefix == IMPOSTERS || prefix == ADMIN_IMPOSTERS) && path == prefix + rest
    ensures path != FLEET_NAME_PATH && path != "/specs/compile" && path != "/front-door/routes" && path != "/imposters"
    ensures StripPrefix(path, ROUTES).None?
  {
    ImpostersPathIsNoOther(rest);
    AdminPathIsNoOther(rest);
  }

  lemma ListingClassifies(path: string, prefix: string, text: string, slash: seq<string>, query: string, port: Port)
    requires SpelledListing(path, prefix, text, slash, query, port)
    ensures Classify(GET, path) == Some(SpacesList(port))
  {
    ListingIsTargeted(path, prefix, text, slash, query, port);
    assert path == prefix + (Join([text] + (["spaces"] + slash), "/") + query);
    PrefixedIsNoOther(path, prefix, Join([text] + (["spaces"] + slash), "/") + query);
  }

  /** What the segments were cut from. */
  lemma SegmentsAreCut(path: string) returns (prefix: string, rest: string, query: string)
    requires ImposterSegments(path).Some?
    ensures (prefix == IMPOSTERS || prefix == ADMIN_IMPOSTERS) && (query == "" || query[0] == '?')
    ensures path == prefix + rest + query && ImposterSegments(path).value == Split(rest, '/')
  {
    query := QueryAfterCut(path);
    var bare := Split(path, '?')[0];
    prefix := if StripPrefix(bare, ADMIN_IMPOSTERS).Some? then ADMIN_IMPOSTERS else IMPOSTERS;
    rest := bare[|prefix|..];
    assert bare == prefix + rest;
  }

  lemma TargetedIsAListing(path: string, port: Port) returns (prefix: string, text: string, slash: seq<string>, query: string)
    requires SpacesListTarget(path) == Some(port)
    ensures SpelledListing(path, prefix, text, slash, query, port)
  {
    var rest;
    prefix, rest, query := SegmentsAreCut(path);
    var segments := Split(rest, '/');
    text, slash := segments[0], segments[2..];
    PortParsesIff(text, port);
    JoinOfSplit(rest, '/');
    assert segments == [text] + (["spaces"] + slash);
  }

  lemma ClassifiedUnderPort(verb: Method, path: string, route: Terminated) returns (text: string)
    requires ClassifyImposter(verb, path) == Some(route)
    ensures verb == VerbOf(route) && WellFormed(route) && SpelledUnder(path, text, route)
  {
    var rest := StripPrefix(path, IMPOSTERS).value;
    var segments := Split(rest, '/');
    text := segments[0];
    var port := ParsePort(text).value;
    PortParsesIff(text, port);
    TailClassifiedIff(verb, port, segments[1..], route);
    SplitPiecesAreFree(rest, '/');
    TailIsFreeIff(route);
    JoinOfSplit(rest, '/');
    assert segments == [text] + segments[1..];
  }

  lemma ClassifiedTry(path: string, rest: string, port: Port) returns (text: string)
    requires StripPrefix(path, ADMIN_IMPOSTERS) == Some(rest) && |Split(rest, '/')| == 2 && Split(rest, '/')[1] == "try"
    requires ParsePort(Split(rest, '/')[0]) == Some(port)
    ensures SpelledTry(path, text, port)
  {
    text := Split(rest, '/')[0];
    PortParsesIff(text, port);
    JoinOfSplit(rest, '/');
    assert Split(rest, '/') == [text] + ["try"];
  }

  /** A request is a route only under the route's own method, on one of the route's own spellings. */
  lemma ClassifiedIsSpelled(verb: Method, path: string, route: Terminated)
    requires Classify(verb, path) == Some(route)
    ensures verb == VerbOf(route) && WellFormed(route) && Spells(path, route)
  {
    if ClassifyImposter(verb, path) == Some(route) {
      var text := ClassifiedUnderPort(verb, path, route);
    } else if route.SpacesList? {
      var prefix, text, slash, query := TargetedIsAListing(path, route.port);
    } else if route.TryImposter? {
      var text := ClassifiedTry(path, StripPrefix(path, ADMIN_IMPOSTERS).value, route.port);
    }
  }

  lemma SpelledIsClassified(path: string, route: Terminated)
    requires WellFormed(route) && Spells(path, route)
    ensures Classify(VerbOf(route), path) == Some(route)
  {
    if route.SpacesList? {
      var prefix, text, slash, query :| SpelledListing(path, prefix, text, slash, query, route.port);
      ListingClassifies(path, prefix, text, slash, query, route.port);
    } else if UnderPort(route) {
      var text :| SpelledUnder(path, text, route);
      UnderPortClassifies(path, text, route);
    } else if route.TryImposter? {
      var text :| SpelledTry(path, text, route.port);
      TryClassifies(path, text, route.port);
    } else if route.DeleteOneRoute? {
      StripPrefixOfConcat(ROUTES, route.id);
      assert (ROUTES + route.id)[1] == 'f' && (ROUTES + route.id)[|ROUTES| - 1] == '/';
    }
  }

  /** Exactly which requests the front terminates, and as what: a request is a route if and only if it
      comes under the route's own method, on one of the route's spellings, and names what the route
      names.  On every other path, and under every other method, it is none. */
  lemma ClassifyIff(verb: Method, path: string, route: Terminated)
    ensures Classify(verb, path) == Some(route) <==> verb == VerbOf(route) && WellFormed(route) && Spells(path, route)
  {
    if Classify(verb, path) == Some(route) { ClassifiedIsSpelled(verb, path, route); }
    if verb == VerbOf(route) && WellFormed(route) && Spells(path, route) { SpelledIsClassified(path, route); }
  }

  /** Classification answers only well-formed routes, and only for the route's own method. */
  lemma ClassifiedIsWellFormed(verb: Method, path: string)
    requires Classify(verb, path).Some?
    ensures WellFormed(Classify(verb, path).value)
    ensures verb == VerbOf(Classify(verb, path).value)
  {
    ClassifiedIsSpelled(verb, path, Classify(verb, path).value);
  }

  /** The printed method and path of every well-formed route classify back to that route. */
  lemma RoutingRoundTrip(route: Terminated)
    requires WellFormed(route)
    ensures Classify(VerbOf(route), PathOf(route)) == Some(route)
  {
    PrintedIsASpelling(route);
    SpelledIsClassified(PathOf(route), route);
  }

  lemma PrintedIsASpelling(route: Terminated)
    ensures Spells(PathOf(route), route)
  {
    var path := PathOf(route);
    if route.SpacesList? {
      DecimalIsNumeral(route.port);
      assert ["spaces"] + [] == ["spaces"] && path + "" == path;
      assert SpelledListing(path, IMPOSTERS, Decimal(route.port), [], "", route.port);
    } else if UnderPort(route) {
      DecimalIsNumeral(route.port);
      assert SpelledUnder(path, Decimal(route.port), route);
    } else if route.TryImposter? {
      DecimalIsNumeral(route.port);
      assert [Decimal(route.port)] + ["try"] == [Decimal(route.port), "try"];
      assert SpelledTry(path, Decimal(route.port), route.port);
    }
  }

  /** On every path under a valid port whose next segment is `spaces` and which is at most one
      segment deeper, exactly one of the single-space read and the listing matches; on every other
      path neither does. */
  lemma SpaceTargetsPartition(path: string)
    ensures SpaceReadTarget(path).Some? ==>
              var (port, flow) := SpaceReadTarget(path).value;
              ImposterSegments(path).Some? && |ImposterSegments(path).value| == 3 &&
              ParsePort(ImposterSegments(path).value[0]) == Some(port) && ImposterSegments(path).value[2] == flow && flow != ""
    ensures !(SpaceReadTarget(path).Some? && SpacesListTarget(path).Some?)
    ensures SpaceReadTarget(path).Some? || SpacesListTarget(path).Some? <==>
            var segments := ImposterSegments(path);
            segments.Some? && 2 <= |segments.value| <= 3 && segments.value[1] == "spaces" && ParsePort(segments.value[0]).Some?
  {}

  // ---- stub positions ----

  /** `stub_position`: the segment as a position in a list of `length` stubs. */
  function StubPosition(raw: string, length: nat): Option<nat> {
    var n :- ParseUnsigned(raw, 0x1_0000_0000_0000_0000);
    if Decimal(n) == raw && n < length then Some(n) else None
  }

  /** A segment names a position exactly when it is digits with no leading zero and its value is
      below the length: the canonical decimals of the existing positions and nothing else. */
  lemma StubPositionIsCanonical(raw: string, length: nat, n: nat)
    requires length <= 0x1_0000_0000_0000_0000
    ensures StubPosition(raw, length) == Some(n) <==> n < length && raw == Decimal(n)
    ensures StubPosition(raw, length).Some? <==>
            raw != "" && AllDigits(raw) && (|raw| == 1 || raw[0] != '0') && NumberOf(raw) < length
  {
    if n < length { DecimalParses(n, 0x1_0000_0000_0000_0000); }
    if raw != "" && AllDigits(raw) && (|raw| == 1 || raw[0] != '0') { CanonicalDigits(raw); }
    if StubPosition(raw, length).Some? { DecimalHasNoLeadingZero(StubPosition(raw, length).value); }
  }
}
