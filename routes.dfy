/** The URI handlers `start_rest_server` registers, and how the server picks one
    for a request. The server is configured with `httpd_uri_match_wildcard` and
    room for 20 handlers; when the web-application filesystem cannot be mounted,
    the catch-all GET serves the recovery page instead of the API fallback and the
    static files. */
module Routes {
  import opened Common

  datatype Method = Get | Post | Put | Patch | Delete | Options | Head

  /** The method a handler is registered for; `HTTP_ANY` accepts every one. */
  datatype MethodSpec = Only(m: Method) | AnyMethod

  /** The handler functions; the theme API's own handlers are numbered. */
  datatype HandlerId =
    | Recovery | SystemInfo | SystemAsic | SystemStatistics | StatisticsDashboard | WifiScan
    | RestartPost | OptionsRequest | PatchSettings | OtaUpdate | WwwUpdate | Websocket
    | ApiCommon | StaticFiles | Theme(n: nat)

  /** An `httpd_uri_t`: URI template, method and handler. */
  datatype Route = Route(uri: string, accepts: MethodSpec, handler: HandlerId)

  /** `config.max_uri_handlers`. */
  const MAX_URI_HANDLERS: nat := 20

  /** `httpd_uri_match_wildcard` for the templates registered here: a trailing
      `*` matches any rest of the path, any other template only itself. `path` is
      the request URI without its query string. */
  predicate UriMatch(template: string, path: string)
  {
    if |template| > 0 && template[|template| - 1] == '*' then
      var prefix := template[..|template| - 1];
      |prefix| <= |path| && path[..|prefix|] == prefix
    else template == path
  }

  /** The route takes requests for `path` with method `m`. */
  predicate Serves(r: Route, path: string, m: Method)
  {
    UriMatch(r.uri, path) && (r.accepts == AnyMethod || r.accepts == Only(m))
  }

  /** The first registration, before the theme API's. */
  const RECOVERY_EXPLICIT: Route := Route("/recovery", Only(Get), Recovery)

  /** The registrations between the theme API's and the catch-alls, in order. */
  const FIXED_ROUTES: seq<Route> := [
    Route("/api/system/info", Only(Get), SystemInfo),
    Route("/api/system/asic", Only(Get), SystemAsic),
    Route("/api/system/statistics", Only(Get), SystemStatistics),
    Route("/api/system/statistics/dashboard", Only(Get), StatisticsDashboard),
    Route("/api/system/wifi/scan", Only(Get), WifiScan),
    Route("/api/system/restart", Only(Post), RestartPost),
    Route("/api/system/restart", Only(Options), OptionsRequest),
    Route("/api/system", Only(Patch), PatchSettings),
    Route("/api/system", Only(Options), OptionsRequest),
    Route("/api/system/OTA", Only(Post), OtaUpdate),
    Route("/api/system/OTAWWW", Only(Post), WwwUpdate),
    Route("/api/ws", Only(Get), Websocket)
  ]

  /** The catch-alls: the recovery page, or the API fallback and the static files. */
  function CatchAlls(recovery: bool): seq<Route>
  {
    if recovery then [Route("/*", Only(Get), Recovery)]
    else [Route("/api/*", AnyMethod, ApiCommon), Route("/*", Only(Get), StaticFiles)]
  }

  /** Every registration `start_rest_server` makes, in order; `theme` are those of
      `register_theme_api_endpoints`, which is not part of this model. */
  function RouteTable(recovery: bool, theme: seq<Route>): seq<Route>
  {
    [RECOVERY_EXPLICIT] + theme + FIXED_ROUTES + CatchAlls(recovery)
  }

  /** The server's handler table. */
  class Server {
    const capacity: nat
    var handlers: seq<Route>

    constructor(capacity: nat)
      ensures this.capacity == capacity && handlers == []
    {
      this.capacity := capacity;
      handlers := [];
    }

    /** `httpd_register_uri_handler`: a full table refuses the registration and
        stays as it was. */
    method RegisterUriHandler(r: Route) returns (err: EspErr)
      modifies this
      ensures err == EspOk <==> |old(handlers)| < capacity
      ensures handlers == if err == EspOk then old(handlers) + [r] else old(handlers)
    {
      if |handlers| >= capacity {
        return EspFail;
      }
      handlers := handlers + [r];
      return EspOk;
    }
  }

  /** The registrations in order, their results ignored: the routes that fit the
      room left in the table are added, the rest dropped. */
  method RegisterAll(server: Server, routes: seq<Route>)
    modifies server
    ensures var room := if |old(server.handlers)| < server.capacity then server.capacity - |old(server.handlers)| else 0;
      server.handlers == old(server.handlers) + routes[..if |routes| < room then |routes| else room]
  {
    ghost var before := server.handlers;
    ghost var room := if |before| < server.capacity then server.capacity - |before| else 0;
    for i := 0 to |routes|
      invariant server.handlers == before + routes[..if i < room then i else room]
    {
      var _ := server.RegisterUriHandler(routes[i]);
      assert routes[..i + 1] == routes[..i] + [routes[i]];
    }
  }

  /** The handler registration of `start_rest_server`, on a fresh server. */
  method StartRestServer(recovery: bool, theme: seq<Route>) returns (server: Server)
    ensures fresh(server) && server.capacity == MAX_URI_HANDLERS
    ensures |RouteTable(recovery, theme)| <= MAX_URI_HANDLERS ==> server.handlers == RouteTable(recovery, theme)
    ensures |RouteTable(recovery, theme)| > MAX_URI_HANDLERS ==>
      server.handlers == RouteTable(recovery, theme)[..MAX_URI_HANDLERS]
  {
    server := new Server(MAX_URI_HANDLERS);
    RegisterAll(server, RouteTable(recovery, theme));
    assert RouteTable(recovery, theme)[..|RouteTable(recovery, theme)|] == RouteTable(recovery, theme);
  }

  /** The whole table fits while the theme API registers at most five handlers
      (six in recovery mode); beyond that, the catch-alls, registered last, are
      the first to be dropped. */
  lemma TableFits(recovery: bool, theme: seq<Route>)
    ensures |RouteTable(recovery, theme)| <= MAX_URI_HANDLERS <==> |theme| <= (if recovery then 6 else 5)
  {
  }

  /** The fixed routes are exact templates under `/api/`. */
  lemma FixedRoutesUnderApi(k: nat)
    requires k < |FIXED_ROUTES|
    ensures |FIXED_ROUTES[k].uri| > 5 && FIXED_ROUTES[k].uri[..5] == "/api/"
    ensures FIXED_ROUTES[k].uri[|FIXED_ROUTES[k].uri| - 1] != '*'
    ensures FIXED_ROUTES[k].handler != StaticFiles && FIXED_ROUTES[k].handler != ApiCommon
    ensures FIXED_ROUTES[k].handler != Recovery
  {
  }

  /** What the server does with a request: the first handler registered for the
      path and the method; 404 when no template matches the path, 405 when some
      template matches but none for this method. */
  datatype Lookup = Found(handler: HandlerId) | NotFound | MethodNotAllowed

  /** The handler lookup of esp_http_server over `handlers`, in registration order. */
  function Dispatch(handlers: seq<Route>, path: string, m: Method): (r: Lookup)
    ensures r.Found? <==> exists i :: 0 <= i < |handlers| && Serves(handlers[i], path, m)
    ensures r.Found? ==> exists i :: (0 <= i < |handlers| && Serves(handlers[i], path, m)
      && handlers[i].handler == r.handler && forall j :: 0 <= j < i ==> !Serves(handlers[j], path, m))
    ensures r == NotFound <==> forall i :: 0 <= i < |handlers| ==> !UriMatch(handlers[i].uri, path)
    decreases |handlers|
  {
    if handlers == [] then NotFound
    else
      var rest := Dispatch(handlers[1..], path, m);
      assert forall i :: 1 <= i < |handlers| ==> handlers[i] == handlers[1..][i - 1];
      if Serves(handlers[0], path, m) then Found(handlers[0].handler)
      else if rest == NotFound && UriMatch(handlers[0].uri, path) then MethodNotAllowed
      else rest
  }

  /** The handler of the first route that serves the request is the one found. */
  lemma FirstServing(handlers: seq<Route>, i: nat, path: string, m: Method)
    requires i < |handlers| && Serves(handlers[i], path, m)
    requires forall j :: 0 <= j < i ==> !Serves(handlers[j], path, m)
    ensures Dispatch(handlers, path, m) == Found(handlers[i].handler)
  {
    var r := Dispatch(handlers, path, m);
    var k :| 0 <= k < |handlers| && Serves(handlers[k], path, m)
      && handlers[k].handler == r.handler && forall j :: 0 <= j < k ==> !Serves(handlers[j], path, m);
    assert k == i;
  }

  /** The routes before the fixed route `k` do not take its requests. */
  lemma FixedRouteReached(recovery: bool, theme: seq<Route>, k: nat, path: string, m: Method)
    requires k < |FIXED_ROUTES| && Serves(FIXED_ROUTES[k], path, m)
    requires forall j :: 0 <= j < k ==> !Serves(FIXED_ROUTES[j], path, m)
    requires forall i :: 0 <= i < |theme| ==> !Serves(theme[i], path, m)
    requires !Serves(RECOVERY_EXPLICIT, path, m)
    ensures Dispatch(RouteTable(recovery, theme), path, m) == Found(FIXED_ROUTES[k].handler)
  {
    var table := RouteTable(recovery, theme);
    var at := 1 + |theme| + k;
    assert table[at] == FIXED_ROUTES[k];
    forall j | 0 <= j < at
      ensures !Serves(table[j], path, m)
    {
      if j == 0 {
        assert table[j] == RECOVERY_EXPLICIT;
      } else if j <= |theme| {
        assert table[j] == theme[j - 1];
      } else {
        assert table[j] == FIXED_ROUTES[j - 1 - |theme|];
      }
    }
    FirstServing(table, at, path, m);
  }

  /** `PATCH /api/system` reaches the settings handler in both modes, unless a
      theme route takes it first. */
  lemma PatchSettingsRoute(recovery: bool, theme: seq<Route>)
    requires forall i :: 0 <= i < |theme| ==> !Serves(theme[i], "/api/system", Patch)
    ensures Dispatch(RouteTable(recovery, theme), "/api/system", Patch) == Found(PatchSettings)
  {
    FixedRouteReached(recovery, theme, 7, "/api/system", Patch);
  }

  /** `OPTIONS /api/system` reaches the OPTIONS handler in both modes. */
  lemma OptionsRoute(recovery: bool, theme: seq<Route>)
    requires forall i :: 0 <= i < |theme| ==> !Serves(theme[i], "/api/system", Options)
    ensures Dispatch(RouteTable(recovery, theme), "/api/system", Options) == Found(OptionsRequest)
  {
    assert !Serves(FIXED_ROUTES[6], "/api/system", Options) by {
      assert |FIXED_ROUTES[6].uri| != |"/api/system"|;
    }
    FixedRouteReached(recovery, theme, 8, "/api/system", Options);
  }

  /** `POST /api/system/OTA` reaches the firmware update in both modes. */
  lemma OtaRoute(recovery: bool, theme: seq<Route>)
    requires forall i :: 0 <= i < |theme| ==> !Serves(theme[i], "/api/system/OTA", Post)
    ensures Dispatch(RouteTable(recovery, theme), "/api/system/OTA", Post) == Found(OtaUpdate)
  {
    assert !Serves(FIXED_ROUTES[5], "/api/system/OTA", Post) by {
      assert |FIXED_ROUTES[5].uri| != |"/api/system/OTA"|;
    }
    FixedRouteReached(recovery, theme, 9, "/api/system/OTA", Post);
  }

  /** `POST /api/system/OTAWWW` reaches the web-application update in both modes,
      so the recovery page can install a new one. */
  lemma WwwRoute(recovery: bool, theme: seq<Route>)
    requires forall i :: 0 <= i < |theme| ==> !Serves(theme[i], "/api/system/OTAWWW", Post)
    ensures Dispatch(RouteTable(recovery, theme), "/api/system/OTAWWW", Post) == Found(WwwUpdate)
  {
    assert !Serves(FIXED_ROUTES[5], "/api/system/OTAWWW", Post) by {
      assert |FIXED_ROUTES[5].uri| != |"/api/system/OTAWWW"|;
    }
    assert !Serves(FIXED_ROUTES[9], "/api/system/OTAWWW", Post) by {
      assert |FIXED_ROUTES[9].uri| != |"/api/system/OTAWWW"|;
    }
    FixedRouteReached(recovery, theme, 10, "/api/system/OTAWWW", Post);
  }

  /** The last registration is the GET catch-all. */
  lemma LastIsCatchAll(recovery: bool, theme: seq<Route>)
    ensures var table := RouteTable(recovery, theme);
      table[|table| - 1] == Route("/*", Only(Get), if recovery then Recovery else StaticFiles)
  {
  }

  /** The GET catch-all takes every GET. */
  lemma CatchAllServes(h: HandlerId, path: string)
    requires |path| >= 1 && path[0] == '/'
    ensures Serves(Route("/*", Only(Get), h), path, Get)
  {
    assert "/*"[..1] == "/";
    assert path[..1] == [path[0]];
  }

  /** A GET for any path is answered by some handler, in both modes: the last
      registration takes every GET. */
  lemma GetAlwaysServed(recovery: bool, theme: seq<Route>, path: string)
    requires |path| >= 1 && path[0] == '/'
    ensures Dispatch(RouteTable(recovery, theme), path, Get).Found?
  {
    var table := RouteTable(recovery, theme);
    LastIsCatchAll(recovery, theme);
    CatchAllServes(table[|table| - 1].handler, path);
    assert Serves(table[|table| - 1], path, Get);
  }

  /** Outside recovery mode, any request under `/api/` is answered by some
      handler, whatever its method: never a 404 or a 405. */
  lemma ApiAlwaysServed(theme: seq<Route>, path: string, m: Method)
    requires |path| >= 5 && path[..5] == "/api/"
    ensures Dispatch(RouteTable(false, theme), path, m).Found?
  {
    var table := RouteTable(false, theme);
    assert Serves(table[|table| - 2], path, m) by {
      assert table[|table| - 2] == Route("/api/*", AnyMethod, ApiCommon);
    }
  }

  /** A path outside `/api/` other than `/recovery`. */
  predicate OtherPage(path: string)
  {
    |path| >= 1 && path[0] == '/' && path != "/recovery" && (|path| < 5 || path[..5] != "/api/")
  }

  /** The API fallback takes exactly the paths under `/api/`. */
  lemma ApiCatchAllMatch(path: string)
    ensures UriMatch("/api/*", path) <==> |path| >= 5 && path[..5] == "/api/"
  {
    assert "/api/*"[..5] == "/api/";
  }

  /** The explicit recovery route takes only `/recovery`. */
  lemma RecoveryExplicitMatch(path: string)
    ensures UriMatch(RECOVERY_EXPLICIT.uri, path) <==> path == "/recovery"
  {
    assert "/recovery"[8] == 'y';
  }

  /** Nothing before the GET catch-all takes a GET outside `/api/` other than
      `/recovery`. */
  lemma BeforeCatchAll(recovery: bool, theme: seq<Route>, path: string)
    requires OtherPage(path)
    requires forall i :: 0 <= i < |theme| ==> !Serves(theme[i], path, Get)
    ensures var table := RouteTable(recovery, theme);
      forall j :: 0 <= j < |table| - 1 ==> !Serves(table[j], path, Get)
  {
    var table := RouteTable(recovery, theme);
    NoFixedRouteOutsideApi(theme, path, Get, recovery);
    RecoveryExplicitMatch(path);
    ApiCatchAllMatch(path);
    forall j | 0 <= j < |table| - 1
      ensures !Serves(table[j], path, Get)
    {
      if j == 0 {
        assert table[0] == RECOVERY_EXPLICIT;
      } else if j >= 1 + |theme| + |FIXED_ROUTES| {
        assert table[j] == Route("/api/*", AnyMethod, ApiCommon);
      }
    }
  }

  /** `GET /recovery` always gets the recovery page: it is registered first. */
  lemma ExplicitRecovery(recovery: bool, theme: seq<Route>)
    ensures Dispatch(RouteTable(recovery, theme), "/recovery", Get) == Found(Recovery)
  {
    RecoveryExplicitMatch("/recovery");
    FirstServing(RouteTable(recovery, theme), 0, "/recovery", Get);
  }

  /** Outside recovery mode, any other GET outside `/api/` that no theme route
      takes goes to the static files. */
  lemma NormalGet(theme: seq<Route>, path: string)
    requires OtherPage(path)
    requires forall i :: 0 <= i < |theme| ==> !Serves(theme[i], path, Get)
    ensures Dispatch(RouteTable(false, theme), path, Get) == Found(StaticFiles)
  {
    var table := RouteTable(false, theme);
    BeforeCatchAll(false, theme, path);
    LastIsCatchAll(false, theme);
    CatchAllServes(StaticFiles, path);
    FirstServing(table, |table| - 1, path, Get);
  }

  /** In recovery mode, any other GET outside `/api/` that no theme route takes
      gets the recovery page too. */
  lemma RecoveryGet(theme: seq<Route>, path: string)
    requires OtherPage(path)
    requires forall i :: 0 <= i < |theme| ==> !Serves(theme[i], path, Get)
    ensures Dispatch(RouteTable(true, theme), path, Get) == Found(Recovery)
  {
    var table := RouteTable(true, theme);
    BeforeCatchAll(true, theme, path);
    LastIsCatchAll(true, theme);
    CatchAllServes(Recovery, path);
    FirstServing(table, |table| - 1, path, Get);
  }

  /** Nothing before the catch-alls takes a request outside `/api/` other than
      `/recovery`. */
  lemma NoFixedRouteOutsideApi(theme: seq<Route>, path: string, m: Method, recovery: bool)
    requires |path| < 5 || path[..5] != "/api/"
    requires forall i :: 0 <= i < |theme| ==> !Serves(theme[i], path, m)
    ensures forall j :: 1 <= j < 1 + |theme| + |FIXED_ROUTES| ==> !Serves(RouteTable(recovery, theme)[j], path, m)
  {
    var table := RouteTable(recovery, theme);
    forall j | 1 <= j < 1 + |theme| + |FIXED_ROUTES|
      ensures !Serves(table[j], path, m)
    {
      if j <= |theme| {
        assert table[j] == theme[j - 1];
      } else {
        var k := j - 1 - |theme|;
        assert table[j] == FIXED_ROUTES[k];
        FixedRoutesUnderApi(k);
      }
    }
  }

  /** A handler no route names is never the one found. */
  lemma NeverFound(handlers: seq<Route>, h: HandlerId, path: string, m: Method)
    requires forall j :: 0 <= j < |handlers| ==> handlers[j].handler != h
    ensures Dispatch(handlers, path, m) != Found(h)
  {
  }

  /** In recovery mode, with a theme API of its own handlers only, no request
      reaches the static files or the API fallback. */
  lemma RecoveryServesNoFiles(theme: seq<Route>, path: string, m: Method)
    requires forall i :: 0 <= i < |theme| ==> theme[i].handler.Theme?
    ensures Dispatch(RouteTable(true, theme), path, m) != Found(StaticFiles)
    ensures Dispatch(RouteTable(true, theme), path, m) != Found(ApiCommon)
  {
    var table := RouteTable(true, theme);
    var fixed := 1 + |theme| + |FIXED_ROUTES|;
    assert |table| == fixed + 1;
    forall j | 0 <= j < |table|
      ensures table[j].handler != StaticFiles && table[j].handler != ApiCommon
    {
      if j == 0 {
        assert table[j] == RECOVERY_EXPLICIT;
      } else if j <= |theme| {
        assert table[j] == theme[j - 1];
      } else if j < fixed {
        assert table[j] == FIXED_ROUTES[j - 1 - |theme|];
        FixedRoutesUnderApi(j - 1 - |theme|);
      } else {
        assert table[j] == CatchAlls(true)[0];
      }
    }
    NeverFound(table, StaticFiles, path, m);
    NeverFound(table, ApiCommon, path, m);
  }
}
