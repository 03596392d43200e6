/** What a handler does to its response: the sequence of esp_http_server calls it
    makes, and the handlers whose whole behaviour is such a sequence (the CORS
    helper, the OPTIONS answer, the unknown-API answer, the recovery page and the
    404 redirect). */
module Http {
  import opened Common
  import opened Gate

  /** One call on the response. */
  datatype Event =
    | SetType(contentType: string)          // httpd_resp_set_type
    | SetStatus(status: string)             // httpd_resp_set_status
    | SetHeader(name: string, value: string) // httpd_resp_set_hdr that succeeded
    | SendChunk(data: seq<byte>)            // httpd_resp_send_chunk; [] ends a chunked body
    | Send(body: string)                    // httpd_resp_send / httpd_resp_sendstr
    | SendErr(code: nat, message: string)   // httpd_resp_send_err
    | Send500                               // httpd_resp_send_500

  /** A call that completes the response on the wire. */
  predicate Terminal(e: Event)
  {
    e.Send? || e.SendErr? || e.Send500? || (e.SendChunk? && e.data == [])
  }

  /** A response that is completed exactly once, by its last call. */
  predicate Complete(events: seq<Event>)
  {
    |events| >= 1 && Terminal(events[|events| - 1])
    && forall i :: 0 <= i < |events| - 1 ==> !Terminal(events[i])
  }

  /** Size of the server's scratch buffer, through which files are read and
      request bodies received. */
  const SCRATCH_BUFSIZE: nat := 10240

  /** What the gate sees of a request: the peer address (None when `getpeername`
      fails) and the `Origin` header as sent (None when there is none). */
  datatype Client = Client(peer: Option<In6Addr>, origin: Option<string>)

  predicate Allowed(apEnabled: bool, client: Client)
  {
    IsNetworkAllowed(apEnabled, client.peer, client.origin) == EspOk
  }

  /** The answer of every gated handler to a refused client. */
  const UNAUTHORIZED: seq<Event> := [SendErr(401, "Unauthorized")]

  // ---------------------------------------------------------------------------
  // Headers

  datatype Header = Header(name: string, value: string)

  /** The calls a helper made, and what it returned. */
  datatype Emitted = Emitted(events: seq<Event>, err: EspErr)

  /** `httpd_resp_set_hdr` for each header in turn, stopping at the first failure.
      `room` is the number of further headers the response can hold: the call fails
      once the server's `max_resp_headers` are in use. */
  function SetHeaders(hs: seq<Header>, room: nat): (r: Emitted)
    ensures r.err == EspOk <==> |hs| <= room
    ensures |r.events| == if |hs| <= room then |hs| else room
    ensures forall i :: 0 <= i < |r.events| ==> r.events[i] == SetHeader(hs[i].name, hs[i].value)
    decreases |hs|
  {
    if hs == [] then Emitted([], EspOk)
    else if room == 0 then Emitted([], EspFail)
    else
      var rest := SetHeaders(hs[1..], room - 1);
      Emitted([SetHeader(hs[0].name, hs[0].value)] + rest.events, rest.err)
  }

  const CORS: seq<Header> := [
    Header("Access-Control-Allow-Origin", "*"),
    Header("Access-Control-Allow-Methods", "GET, POST, PUT, PATCH, DELETE, OPTIONS"),
    Header("Access-Control-Allow-Headers", "Content-Type")
  ]

  /** The three CORS headers, set. */
  const CORS_EVENTS: seq<Event> := [
    SetHeader("Access-Control-Allow-Origin", "*"),
    SetHeader("Access-Control-Allow-Methods", "GET, POST, PUT, PATCH, DELETE, OPTIONS"),
    SetHeader("Access-Control-Allow-Headers", "Content-Type")
  ]

  /** `set_cors_headers`: the three headers in order; ESP_FAIL at the first that
      cannot be set, with the ones before it already set. */
  function SetCorsHeaders(room: nat): (r: Emitted)
    ensures r.err == EspOk <==> room >= 3
    ensures r.err == EspOk ==> r.events == CORS_EVENTS
    ensures r.err == EspFail ==> r.events == CORS_EVENTS[..room]
  {
    var r := SetHeaders(CORS, room);
    assert r.events == CORS_EVENTS[..|r.events|];
    r
  }

  /** The calls a gated handler makes after the gate when CORS fails, or before its
      body when it succeeds. */
  function CorsOr500(room: nat, body: seq<Event>): seq<Event>
  {
    var cors := SetCorsHeaders(room);
    if cors.err == EspOk then cors.events + body else cors.events + [Send500]
  }

  /** The CORS part never completes a response by itself. */
  lemma CorsEventsNotTerminal(room: nat)
    ensures forall i :: 0 <= i < |SetCorsHeaders(room).events| ==> !Terminal(SetCorsHeaders(room).events[i])
  {
  }

  /** Gate, then CORS, then the body: the body is sent only when CORS succeeded,
      and a response completed by its body stays complete. */
  lemma {:induction false} CorsOr500Complete(room: nat, body: seq<Event>)
    requires Complete(body)
    ensures Complete(CorsOr500(room, body))
    ensures CorsOr500(room, body)[|CorsOr500(room, body)| - 1] == if room >= 3 then body[|body| - 1] else Send500
  {
    var cors := SetCorsHeaders(room);
    CorsEventsNotTerminal(room);
    var all := CorsOr500(room, body);
    if cors.err == EspOk {
      assert forall i :: |cors.events| <= i < |all| - 1 ==> all[i] == body[i - |cors.events|];
    }
  }

  // ---------------------------------------------------------------------------
  // Handlers

  /** `handle_options_request`: gate, CORS, then an empty body. */
  function HandleOptionsRequest(apEnabled: bool, client: Client, room: nat): (events: seq<Event>)
    ensures Complete(events)
    ensures events == UNAUTHORIZED <==> !Allowed(apEnabled, client)
    ensures Allowed(apEnabled, client) && room >= 3 ==> events == CORS_EVENTS + [Send("")]
    ensures Allowed(apEnabled, client) && room < 3 ==> events == CORS_EVENTS[..room] + [Send500]
  {
    if !Allowed(apEnabled, client) then UNAUTHORIZED
    else
      CorsOr500Complete(room, [Send("")]);
      CorsOr500(room, [Send("")])
  }

  /** The text `cJSON_Print` gives for {"error": "unknown route"}. */
  const UNKNOWN_ROUTE_BODY: string := "{\n\t\"error\":\t\"unknown route\"\n}"

  /** `rest_api_common_handler`: gate, JSON content type, CORS, then 404 with a JSON
      error object. */
  function RestApiCommonHandler(apEnabled: bool, client: Client, room: nat): (events: seq<Event>)
    ensures Complete(events)
    ensures events == UNAUTHORIZED <==> !Allowed(apEnabled, client)
    ensures Allowed(apEnabled, client) ==> events[0] == SetType("application/json")
    ensures Allowed(apEnabled, client) && room >= 3 ==>
      events == [SetType("application/json")] + CORS_EVENTS + [SetStatus("404 Not Found"), Send(UNKNOWN_ROUTE_BODY)]
    ensures Allowed(apEnabled, client) && room < 3 ==>
      events == [SetType("application/json")] + CORS_EVENTS[..room] + [Send500]
  {
    if !Allowed(apEnabled, client) then UNAUTHORIZED
    else
      var body := [SetStatus("404 Not Found"), Send(UNKNOWN_ROUTE_BODY)];
      CorsOr500Complete(room, body);
      [SetType("application/json")] + CorsOr500(room, body)
  }

  /** `rest_recovery_handler`: gate, then the built-in recovery page as one chunk
      and the terminating empty chunk. */
  function RestRecoveryHandler(apEnabled: bool, client: Client, page: seq<byte>): (events: seq<Event>)
    requires |page| > 0
    ensures Complete(events)
    ensures events == UNAUTHORIZED <==> !Allowed(apEnabled, client)
    ensures Allowed(apEnabled, client) ==> ChunkedBody(events) == page
  {
    if !Allowed(apEnabled, client) then UNAUTHORIZED
    else
      PageBody(page);
      [SendChunk(page), SendChunk([])]
  }

  lemma PageBody(page: seq<byte>)
    ensures ChunkedBody([SendChunk(page), SendChunk([])]) == page
  {
    var events := [SendChunk(page), SendChunk([])];
    assert events[..1] == [SendChunk(page)];
    assert [SendChunk(page)][..0] == [];
    assert ChunkedBody([SendChunk(page)]) == page;
    assert ChunkedBody(events) == ChunkedBody(events[..1]);
  }

  /** The bytes a response sends as chunks, in order. */
  function ChunkedBody(events: seq<Event>): seq<byte>
  {
    if events == [] then []
    else ChunkedBody(events[..|events| - 1]) + (if events[|events| - 1].SendChunk? then events[|events| - 1].data else [])
  }

  /** The captive-portal answer: 302 to "/", with a body because some clients need
      content to detect a captive portal. */
  const CAPTIVE_REDIRECT: seq<Event> := [
    SetStatus("302 Temporary Redirect"),
    SetHeader("Location", "/"),
    Send("Redirect to the captive portal")
  ]

  /** `http_404_error_handler`: every unmatched request is redirected to the root,
      whatever the error code. */
  function Http404ErrorHandler(code: nat): (events: seq<Event>)
    ensures Complete(events)
    ensures events[0] == SetStatus("302 Temporary Redirect")
    ensures SetHeader("Location", "/") in events
    ensures events[|events| - 1].Send? && |events[|events| - 1].body| > 0
  {
    CAPTIVE_REDIRECT
  }
}
