/** How a service's `vulcan_*` attributes become the reverse proxy's routing
    objects: a route, a backend, a frontend and a server, each resolved
    through a chain of attributes where the PRESENCE of a key, not a
    non-empty value, decides which link applies. */
module VulcanService {
  import opened Base
  import Strings
  import Paths
  import opened BridgeTypes
  import opened VulcanApi

  const RouteAttr: string := "vulcan_route"
  const HostAttr: string := "vulcan_host"
  const BackendAttr: string := "vulcan_backend"
  const VulcanAttr: string := "vulcan"
  const FrontendAttr: string := "vulcan_frontend"
  const ServerAttr: string := "vulcan_server"

  /** The resolved routing names of one service; an empty name means the
      object is not registered. */
  datatype ServiceAttrs = ServiceAttrs(
    server: string,
    serverUrl: string,
    backend: string,
    backendType: string,
    frontend: string,
    frontendType: string,
    route: string)

  /** The route expression matching requests for one host name. */
  function HostRoute(host: string): string
  {
    "Host(\"" + host + "\")"
  }

  /** The attributes of a service resolved into routing names. */
  function ServiceAttrsOf(s: Service): (out: ServiceAttrs)
    ensures out.backendType == BackendType && out.frontendType == FrontendType
    ensures RouteAttr in s.attrs ==> out.route == s.attrs[RouteAttr]
    ensures RouteAttr !in s.attrs && HostAttr in s.attrs ==> out.route == HostRoute(s.attrs[HostAttr])
    ensures RouteAttr !in s.attrs && HostAttr !in s.attrs ==> out.route == ""
    ensures BackendAttr in s.attrs ==> out.backend == s.attrs[BackendAttr]
    ensures BackendAttr !in s.attrs && VulcanAttr in s.attrs ==> out.backend == s.attrs[VulcanAttr]
    ensures BackendAttr !in s.attrs && VulcanAttr !in s.attrs ==> out.backend == (if out.route != "" then s.name else "")
    ensures FrontendAttr in s.attrs ==> out.frontend == s.attrs[FrontendAttr]
    ensures FrontendAttr !in s.attrs ==> out.frontend == (if out.route != "" then out.backend else "")
    ensures ServerAttr in s.attrs ==> out.server == s.attrs[ServerAttr]
    ensures ServerAttr !in s.attrs ==> out.server == (if VulcanAttr in s.attrs then s.id else "")
    ensures out.serverUrl == "http://" + s.ip + ":" + Strings.FormatInt(s.port)
    ensures exists digits :: out.serverUrl == "http://" + s.ip + ":" + digits && Strings.Decimal(digits) && Strings.Atoi(digits) == Some(s.port as int)
  {
    var attrs := s.attrs;
    var route :=
      if RouteAttr in attrs then attrs[RouteAttr]
      else if HostAttr in attrs then HostRoute(attrs[HostAttr])
      else "";
    var backend :=
      if BackendAttr in attrs then attrs[BackendAttr]
      else if VulcanAttr in attrs then attrs[VulcanAttr]
      else if route != "" then s.name
      else "";
    var frontend :=
      if FrontendAttr in attrs then attrs[FrontendAttr]
      else if route != "" then backend
      else "";
    var server :=
      if ServerAttr in attrs then attrs[ServerAttr]
      else if VulcanAttr in attrs then s.id
      else "";
    Strings.AtoiFormatInt(s.port);
    var url := "http://" + s.ip + ":" + Strings.FormatInt(s.port);
    ServiceAttrs(server, url, backend, BackendType, frontend, FrontendType, route)
  }

  /** `server()`: where the instance's record goes, relative to the prefix,
      and the record; the empty path when there is no server id. */
  function ServerEntry(attrs: ServiceAttrs): (r: (string, BackendServer))
    ensures r.0 == "" <==> attrs.server == ""
    ensures attrs.server != "" ==> r.0 == Paths.Join(["backends", attrs.backend, "servers", attrs.server])
    ensures r.1 == if attrs.server == "" then BackendServer("") else BackendServer(attrs.serverUrl)
  {
    if attrs.server == "" then ("", BackendServer(""))
    else
      var path := Paths.Join(["backends", attrs.backend, "servers", attrs.server]);
      assert Strings.NonEmpty(["backends", attrs.backend, "servers", attrs.server]) != [];
      (path, BackendServer(attrs.serverUrl))
  }

  /** `backend()`: where the backend's record goes and the record. */
  function BackendEntry(attrs: ServiceAttrs): (r: (string, Backend))
    ensures r.0 == "" <==> attrs.backend == ""
    ensures attrs.backend != "" ==> r.0 == Paths.Join(["backends", attrs.backend, "backend"])
    ensures r.1 == if attrs.backend == "" then Backend("") else Backend(attrs.backendType)
  {
    if attrs.backend == "" then ("", Backend(""))
    else
      var path := Paths.Join(["backends", attrs.backend, "backend"]);
      assert Strings.NonEmpty(["backends", attrs.backend, "backend"]) != [];
      (path, Backend(attrs.backendType))
  }

  /** `frontend()`: where the frontend's record goes and the record, which
      names the backend and carries the route. */
  function FrontendEntry(attrs: ServiceAttrs): (r: (string, Frontend))
    ensures r.0 == "" <==> attrs.frontend == ""
    ensures attrs.frontend != "" ==> r.0 == Paths.Join(["frontends", attrs.frontend, "frontend"])
    ensures r.1 == if attrs.frontend == "" then Frontend("", "", "") else Frontend(attrs.frontendType, attrs.backend, attrs.route)
  {
    if attrs.frontend == "" then ("", Frontend("", "", ""))
    else
      var path := Paths.Join(["frontends", attrs.frontend, "frontend"]);
      assert Strings.NonEmpty(["frontends", attrs.frontend, "frontend"]) != [];
      (path, Frontend(attrs.frontendType, attrs.backend, attrs.route))
  }

  /** Names that `path.Join` keeps as they are, or absent. */
  predicate PlainOrEmpty(name: string)
  {
    name == "" || Paths.IsName(name)
  }

  predicate PlainNames(attrs: ServiceAttrs)
  {
    PlainOrEmpty(attrs.backend) && PlainOrEmpty(attrs.server) && PlainOrEmpty(attrs.frontend)
  }

  /** The path elements of each record's relative path. */
  function ServerNames(attrs: ServiceAttrs): seq<string>
  {
    if attrs.backend == "" then ["backends", "servers", attrs.server]
    else ["backends", attrs.backend, "servers", attrs.server]
  }

  function BackendNames(attrs: ServiceAttrs): seq<string>
  {
    ["backends", attrs.backend, "backend"]
  }

  function FrontendNames(attrs: ServiceAttrs): seq<string>
  {
    ["frontends", attrs.frontend, "frontend"]
  }

  lemma JoinThree(a: string, b: string, c: string)
    ensures Strings.Join([a, b, c], '/') == a + "/" + b + "/" + c
  {
    Strings.JoinCons(b, [c], '/');
    Strings.JoinCons(a, [b, c], '/');
  }

  lemma JoinFour(a: string, b: string, c: string, d: string)
    ensures Strings.Join([a, b, c, d], '/') == a + "/" + b + "/" + c + "/" + d
  {
    JoinThree(b, c, d);
    Strings.JoinCons(a, [b, c, d], '/');
  }

  lemma ThreeNames(a: string, b: string, c: string)
    requires Paths.IsName(a) && Paths.IsName(b) && Paths.IsName(c)
    ensures Paths.Join([a, b, c]) == Strings.Join([a, b, c], '/') == a + "/" + b + "/" + c
  {
    Paths.JoinPlain([a, b, c]);
    JoinThree(a, b, c);
  }

  lemma FourNames(a: string, b: string, c: string, d: string)
    requires Paths.IsName(a) && Paths.IsName(b) && Paths.IsName(c) && Paths.IsName(d)
    ensures Paths.Join([a, b, c, d]) == Strings.Join([a, b, c, d], '/') == a + "/" + b + "/" + c + "/" + d
  {
    Paths.JoinPlain([a, b, c, d]);
    JoinFour(a, b, c, d);
  }

  /** An empty second element vanishes from a `path.Join`. */
  lemma JoinSkipsEmpty(a: string, c: string, d: string)
    requires a != "" && c != "" && d != ""
    ensures Paths.Join([a, "", c, d]) == Paths.Join([a, c, d])
  {
    var xs := [a, "", c, d];
    assert xs[1..] == [""] + [c, d];
    assert xs[1..][1..] == [c, d];
    Strings.NonEmptyKeepsAll([c, d]);
    Strings.NonEmptyKeepsAll([a, c, d]);
    assert Strings.NonEmpty(xs) == [a] + [c, d];
  }

  /** With plain names, the path elements of every record are plain. */
  lemma NamesPlain(attrs: ServiceAttrs)
    requires PlainNames(attrs)
    ensures attrs.server != "" ==> Paths.AllNames(ServerNames(attrs))
    ensures attrs.backend != "" ==> Paths.AllNames(BackendNames(attrs))
    ensures attrs.frontend != "" ==> Paths.AllNames(FrontendNames(attrs))
  {
  }

  /** With plain names, the server's relative path is
      `backends/<backend>/servers/<server>`, the backend element dropped
      when it is empty. */
  lemma ServerPath(attrs: ServiceAttrs)
    requires PlainNames(attrs) && attrs.server != ""
    ensures ServerEntry(attrs).0 == Strings.Join(ServerNames(attrs), '/')
    ensures attrs.backend != "" ==> ServerEntry(attrs).0 == "backends" + "/" + attrs.backend + "/" + "servers" + "/" + attrs.server
    ensures attrs.backend == "" ==> ServerEntry(attrs).0 == "backends" + "/" + "servers" + "/" + attrs.server
  {
    if attrs.backend != "" {
      FourNames("backends", attrs.backend, "servers", attrs.server);
    } else {
      JoinSkipsEmpty("backends", "servers", attrs.server);
      ThreeNames("backends", "servers", attrs.server);
    }
  }

  /** With a plain name, the backend's relative path is `backends/<backend>/backend`. */
  lemma BackendPath(attrs: ServiceAttrs)
    requires Paths.IsName(attrs.backend)
    ensures BackendEntry(attrs).0 == "backends" + "/" + attrs.backend + "/" + "backend"
    ensures BackendEntry(attrs).0 == Strings.Join(BackendNames(attrs), '/')
  {
    ThreeNames("backends", attrs.backend, "backend");
  }

  /** With a plain name, the frontend's relative path is `frontends/<frontend>/frontend`. */
  lemma FrontendPath(attrs: ServiceAttrs)
    requires Paths.IsName(attrs.frontend)
    ensures FrontendEntry(attrs).0 == "frontends" + "/" + attrs.frontend + "/" + "frontend"
    ensures FrontendEntry(attrs).0 == Strings.Join(FrontendNames(attrs), '/')
  {
    ThreeNames("frontends", attrs.frontend, "frontend");
  }

  /** Key presence governs precedence: a present but empty `vulcan_route`
      hides `vulcan_host`, and with it the fallbacks to the service name; a
      present but empty `vulcan_frontend` or `vulcan_server` hides the
      fallbacks of its own link. */
  lemma PresenceBlocksFallback(s: Service)
    ensures RouteAttr in s.attrs && s.attrs[RouteAttr] == "" ==>
      ServiceAttrsOf(s).route == "" &&
      (BackendAttr !in s.attrs && VulcanAttr !in s.attrs ==> ServiceAttrsOf(s).backend == "") &&
      (FrontendAttr !in s.attrs ==> ServiceAttrsOf(s).frontend == "")
    ensures FrontendAttr in s.attrs && s.attrs[FrontendAttr] == "" ==> ServiceAttrsOf(s).frontend == ""
    ensures ServerAttr in s.attrs && s.attrs[ServerAttr] == "" ==> ServiceAttrsOf(s).server == ""
  {
  }

  /** Without an explicit frontend, a routed service's frontend is named after
      its backend and its record points at that backend, so the frontend is
      registered exactly when the backend is. */
  lemma DerivedFrontendFollowsBackend(s: Service)
    requires FrontendAttr !in s.attrs
    requires ServiceAttrsOf(s).route != ""
    ensures var attrs := ServiceAttrsOf(s);
      (FrontendEntry(attrs).0 == "" <==> BackendEntry(attrs).0 == "") &&
      (attrs.frontend != "" ==> FrontendEntry(attrs).1.backendId == attrs.frontend == attrs.backend)
  {
  }

  /** A service carrying only `vulcan_host`: the route matches that host,
      backend and frontend are named after the service, the frontend points
      at that backend, and no server record is written. */
  lemma HostOnlyService(s: Service)
    requires s.attrs.Keys == {HostAttr} && Paths.IsName(s.name)
    ensures var attrs := ServiceAttrsOf(s);
      attrs.route == HostRoute(s.attrs[HostAttr]) && attrs.backend == s.name && attrs.frontend == s.name &&
      attrs.server == "" && ServerEntry(attrs).0 == "" &&
      BackendEntry(attrs) == ("backends" + "/" + s.name + "/" + "backend", Backend("http")) &&
      FrontendEntry(attrs) == ("frontends" + "/" + s.name + "/" + "frontend", Frontend("http", s.name, HostRoute(s.attrs[HostAttr])))
  {
    var attrs := ServiceAttrsOf(s);
    assert RouteAttr !in s.attrs && BackendAttr !in s.attrs && VulcanAttr !in s.attrs;
    assert FrontendAttr !in s.attrs && ServerAttr !in s.attrs;
    BackendPath(attrs);
    FrontendPath(attrs);
  }

  /** A service carrying only `vulcan`: the value names the backend, the
      service's own ID names the server, and without a route there is no
      frontend. */
  lemma LegacyService(s: Service)
    requires s.attrs.Keys == {VulcanAttr} && Paths.IsName(s.attrs[VulcanAttr]) && Paths.IsName(s.id)
    ensures var attrs := ServiceAttrsOf(s);
      var b := s.attrs[VulcanAttr];
      attrs.route == "" && attrs.backend == b && attrs.server == s.id && attrs.frontend == "" &&
      BackendEntry(attrs).0 == "backends" + "/" + b + "/" + "backend" &&
      ServerEntry(attrs).0 == "backends" + "/" + b + "/" + "servers" + "/" + s.id &&
      FrontendEntry(attrs).0 == ""
  {
    var attrs := ServiceAttrsOf(s);
    assert RouteAttr !in s.attrs && HostAttr !in s.attrs && BackendAttr !in s.attrs;
    assert FrontendAttr !in s.attrs && ServerAttr !in s.attrs;
    BackendPath(attrs);
    ServerPath(attrs);
  }
}
