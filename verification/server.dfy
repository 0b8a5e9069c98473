/** One connection of the server (`handle_client`) as a function from what the read
    and the parse produced to the bytes written back, if any. */
module Server {

  import opened Optional
  import opened Utf8
  import opened Render
  import opened Routing
  import opened Framing

  /** The outcome of reading from the socket and parsing the request:
      - the peer sent nothing (a read error, which `?` turns into an early return,
        ends the connection the same way, so `ZeroRead` stands for it too);
      - the parser reported an error;
      - the parser accepted the bytes (complete, or partial) but the method or path
        is missing or the method token is rejected, so an `unwrap`/`expect` ends the
        connection's thread;
      - or a request with its text, method and path. A partial request whose request
        line is complete counts as parsed. */
  datatype Arrival =
    | ZeroRead
    | ParseFailed
    | Aborted
    | Parsed(text: string, verb: Method, path: string)

  /** The dispatch step: the matched handler, or the not-found handler on a miss,
      applied to the request text. It never fails and always yields HTML. */
  function Dispatch(text: string, verb: Method, path: string, t: RouteTable): (r: Response)
    ensures r.contentType == TextHtml
    ensures RouteKey(path, verb) in t ==> r == Handle(t[RouteKey(path, verb)], text)
    ensures RouteKey(path, verb) !in t ==> r.status == 404 && r == Handle(NotFound, text)
  {
    match FindHandler(path, verb, t)
    case Some(h) => Handle(h, text)
    case None => Handle(NotFound, text)
  }

  /** `handle_client` from the read onwards: no response for an empty read, a
      request that does not parse or an aborted one, otherwise exactly one framed
      response, that of the dispatch. */
  function HandleClient(a: Arrival, t: RouteTable): (r: Option<seq<byte>>)
    ensures r.None? <==> !a.Parsed?
  {
    match a
    case ZeroRead => None
    case ParseFailed => None
    case Aborted => None
    case Parsed(text, verb, path) => Some(Wire(Dispatch(text, verb, path, t)))
  }

  /** Every handler registered at startup answers with status 200. */
  lemma StartupHandlersOk(text: string)
    ensures forall k | k in StartupRoutes() :: Handle(StartupRoutes()[k], text).status == 200
  {
    var t := StartupRoutes();
    forall k | k in t
      ensures Handle(t[k], text).status == 200
    {
      StartupLookup(k.path, k.verb);
    }
  }

  /** With the startup table the status is 200 exactly for the three registered
      (path, method) pairs and 404 for everything else. */
  lemma StartupStatus(text: string, verb: Method, path: string)
    ensures Dispatch(text, verb, path, StartupRoutes()).status == 200
        <==> (path == "/hello" && verb == GET) || (path == "/bye" && verb == GET)
             || (path == "/submit" && verb == POST)
    ensures Dispatch(text, verb, path, StartupRoutes()).status in {200, 404}
  {
    StartupLookup(path, verb);
  }

  /** A parsed request is answered with exactly one response, which reads back as the
      dispatched status, the text/html content type and the bytes of the body, which
      in turn decode to the body; nothing is written after the body. */
  lemma ConnectionAnswer(text: string, verb: Method, path: string, t: RouteTable)
    ensures var d := Dispatch(text, verb, path, t);
            var out := HandleClient(Parsed(text, verb, path), t);
            && out.Some?
            && ReadResponse(out.value) == Some(WireResponse(d.status, Encode(TextHtml), Encode(d.body)))
            && FindBlank(out.value).Some?
            && out.value[FindBlank(out.value).value + 4..] == Encode(d.body)
            && Decode(Encode(d.body)) == Some(d.body)
  {
    var d := Dispatch(text, verb, path, t);
    assert HandleClient(Parsed(text, verb, path), t) == Some(Wire(d));
    HtmlAnswer(d);
  }

  /** Any HTML response reads back off the wire as its status, text/html and the
      bytes of its body, which are all that follows the blank line and which decode
      to the body. */
  lemma HtmlAnswer(r: Response)
    requires r.contentType == TextHtml
    ensures ReadResponse(Wire(r)) == Some(WireResponse(r.status, Encode(TextHtml), Encode(r.body)))
    ensures FindBlank(Wire(r)).Some? && Wire(r)[FindBlank(Wire(r)).value + 4..] == Encode(r.body)
    ensures Decode(Encode(r.body)) == Some(r.body)
  {
    WireRoundTrip(r);
    DecodeEncode(r.body);
  }

  /** The page read off the wire for a request to the startup table. */
  ghost function PageOf(text: string, verb: Method, path: string): Option<WireResponse>
  {
    var out := HandleClient(Parsed(text, verb, path), StartupRoutes());
    if out.Some? then ReadResponse(out.value) else None
  }

  /** GET /hello: status 200 and the hello page. */
  lemma HelloScenario(text: string)
    ensures PageOf(text, GET, "/hello")
         == Some(WireResponse(200, Encode(TextHtml),
                              Encode(Head + "Hello Page" + Middle + "Hello, Rust HTTP Server!" + Tail)))
  {
    ExactMatch();
    HelloPage(text);
    ConnectionAnswer(text, GET, "/hello", StartupRoutes());
  }

  /** POST /submit: status 200 and the submission page. */
  lemma SubmitScenario(text: string)
    ensures PageOf(text, POST, "/submit")
         == Some(WireResponse(200, Encode(TextHtml),
                              Encode(Head + "Submission Page" + Middle + "Data submitted successfully!" + Tail)))
  {
    StartupLookup("/submit", POST);
    SubmitPage(text);
    ConnectionAnswer(text, POST, "/submit", StartupRoutes());
  }

  /** A request that misses the table is answered with status 404 and the fixed
      not-found page. */
  lemma MissScenario(text: string, verb: Method, path: string)
    requires RouteKey(path, verb) !in StartupRoutes()
    ensures PageOf(text, verb, path)
         == Some(WireResponse(404, Encode(TextHtml),
                              Encode(Head + "404 - Not Found" + Middle + "Not Found" + Tail)))
  {
    NotFoundPage(text);
    ConnectionAnswer(text, verb, path, StartupRoutes());
  }

  /** An unknown path, the wrong method on a registered path and another case of a
      registered path all miss. */
  lemma MissExamples()
    ensures RouteKey("/missing", GET) !in StartupRoutes()
    ensures RouteKey("/hello", POST) !in StartupRoutes()
    ensures RouteKey("/Hello", GET) !in StartupRoutes()
  {
    StartupLookup("/missing", GET);
    ExactMatch();
  }

}
