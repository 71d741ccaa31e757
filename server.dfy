/**
 * One connection of the accept loop in `main`: a single `recv`, the parse of
 * the request line, the path resolution and the response; the connection is
 * closed afterwards on every path.
 */
module Server {
  import opened Wrappers
  import opened Octets
  import opened ContentType
  import opened RequestLine
  import opened Routes
  import opened Response

  /**
   * What the single `recv` call yields: an error, or the octets available
   * to it (empty when the peer closed); `recv` takes at most RECV_LIMIT of them.
   */
  datatype Incoming = RecvFailed | Received(segment: Bytes)

  /**
   * Everything sent on the connection before it is closed; None when nothing
   * is sent. The routes are matched on the C string at `path`, and the
   * fallback formats the one at `path + 1`, as the code does.
   */
  function Reply(incoming: Incoming, fs: FileSystem, results: SendResults): Option<Bytes> {
    match incoming
    case RecvFailed => None
    case Received(segment) =>
      if segment == [] then None
      else
        match ParseRequest(ReceivedLine(segment))
        case None => None
        case Some(request) => Some(FileResponse(fs, Route(request.path, request.pathPlusOne), results))
  }

  /** The reply with the corrected resolver, under which the query never reaches the file path. */
  function ReplyIntended(incoming: Incoming, fs: FileSystem, results: SendResults): Option<Bytes> {
    match incoming
    case RecvFailed => None
    case Received(segment) =>
      if segment == [] then None
      else
        match ParseRequest(ReceivedLine(segment))
        case None => None
        case Some(request) => Some(FileResponse(fs, ResolvePath(request.path), results))
  }

  /**
   * The per-connection block of `main`: a receive error, a closed peer or a
   * request line with fewer than two tokens ends the connection without a
   * reply; otherwise the resolved file is sent. Every descriptor opened is
   * closed, and none is opened without a reply.
   */
  method HandleConnection(incoming: Incoming, fs: FileSystem, results: SendResults)
    returns (reply: Option<Bytes>, events: seq<FileEvent>)
    ensures reply == Reply(incoming, fs, results)
    ensures ClosedAfterUse(events)
    ensures reply.None? ==> events == []
  {
    reply, events := None, [];
    if incoming.RecvFailed? {
      return;
    }
    var segment := incoming.segment;
    if |segment| == 0 {
      return;
    }
    var request := ParseRequest(ReceivedLine(segment));
    if request.None? {
      return;
    }
    var filePath := Route(request.value.path, request.value.pathPlusOne);
    var out;
    out, events := SendFileResponse(fs, filePath, results);
    reply := Some(out);
  }

  /**
   * The code and the corrected resolver differ only on a request whose path
   * token begins with '?', which leaves the path at the `path` pointer empty.
   */
  lemma ReplyDiffersOnlyOnEmptyPath(incoming: Incoming, fs: FileSystem, results: SendResults)
    ensures Reply(incoming, fs, results) != ReplyIntended(incoming, fs, results) ==>
      incoming.Received? && ParseRequest(ReceivedLine(incoming.segment)).Some?
      && ParseRequest(ReceivedLine(incoming.segment)).value.path == []
  {
    if incoming.Received? && incoming.segment != [] {
      var line := ReceivedLine(incoming.segment);
      if FirstTwoTokens(line).Some? {
        var (m, p) := FirstTwoTokens(line).value;
        var target := line[p.start..p.end];
        if StripQuery(target) != [] {
          AsWrittenAgreesOnNonEmptyPath(target);
        }
      }
    }
  }

  /** The connection is closed without a reply exactly on a receive error, an empty receive, or fewer than two tokens. */
  lemma NoReplyExactly(incoming: Incoming, fs: FileSystem, results: SendResults)
    ensures Reply(incoming, fs, results).None? <==>
      incoming.RecvFailed? || incoming.segment == [] || AtMostOneToken(ReceivedLine(incoming.segment))
  {
    if incoming.Received? {
      ParsedRequestShape(ReceivedLine(incoming.segment));
    }
  }

  /** Octets beyond the first RECV_LIMIT are never examined. */
  lemma OnlyFirstOctetsExamined(segment: Bytes, extra: Bytes, fs: FileSystem, results: SendResults)
    requires |segment| >= RECV_LIMIT
    ensures Reply(Received(segment + extra), fs, results) == Reply(Received(segment), fs, results)
  {
    assert (segment + extra)[..RECV_LIMIT] == segment[..RECV_LIMIT];
  }

  /** Octets after the first NUL are never examined. */
  lemma OctetsAfterNulIgnored(a: Bytes, b: Bytes, c: Bytes, fs: FileSystem, results: SendResults)
    ensures Reply(Received(a + [NUL] + b), fs, results) == Reply(Received(a + [NUL] + c), fs, results)
  {
    ReceivedLineStopsAtNul(a, b);
    ReceivedLineStopsAtNul(a, c);
  }

  /** A line without NUL that fits the receive limit is seen whole. */
  lemma ShortLineSeenWhole(segment: Bytes)
    requires |segment| <= RECV_LIMIT && NUL !in segment
    ensures ReceivedLine(segment) == segment
  {
    assert segment[..|segment|] == segment;
  }

  /**
   * A request line "method SP target SP rest" that fits the receive limit
   * is answered with the file its target resolves to, whatever the method
   * and whatever follows the target; unless the target begins with '?',
   * that is the file its query-free path resolves to.
   */
  lemma WellFormedRequest(verb: Bytes, target: Bytes, rest: Bytes, fs: FileSystem, results: SendResults)
    requires IsPlainToken(verb) && IsPlainToken(target)
    requires NUL !in rest && |verb| + |target| + |rest| + 2 <= RECV_LIMIT
    ensures Reply(Received(verb + [SP] + target + [SP] + rest), fs, results)
         == Some(FileResponse(fs, ResolveAsWritten(target), results))
    ensures ReplyIntended(Received(verb + [SP] + target + [SP] + rest), fs, results)
         == Some(FileResponse(fs, ResolvePath(StripQuery(target)), results))
    ensures target[0] != QUESTION ==>
      Reply(Received(verb + [SP] + target + [SP] + rest), fs, results)
        == Some(FileResponse(fs, ResolvePath(StripQuery(target)), results))
  {
    var line := verb + [SP] + target + [SP] + rest;
    assert NUL !in line;
    ShortLineSeenWhole(line);
    ParseStrictRequestLine(verb, target, rest);
    if target[0] != QUESTION {
      AsWrittenAgreesOnNonEmptyPath(target);
    }
  }

  /** The method is ignored: two requests that differ only in it get the same reply. */
  lemma MethodIgnored(verb1: Bytes, verb2: Bytes, target: Bytes, rest: Bytes, fs: FileSystem, results: SendResults)
    requires IsPlainToken(verb1) && IsPlainToken(verb2) && IsPlainToken(target) && NUL !in rest
    requires |verb1| + |target| + |rest| + 2 <= RECV_LIMIT && |verb2| + |target| + |rest| + 2 <= RECV_LIMIT
    ensures Reply(Received(verb1 + [SP] + target + [SP] + rest), fs, results)
         == Reply(Received(verb2 + [SP] + target + [SP] + rest), fs, results)
  {
    WellFormedRequest(verb1, target, rest, fs, results);
    WellFormedRequest(verb2, target, rest, fs, results);
  }

  const GET := Ascii("GET")
  const HTTP_1_1 := Ascii("HTTP/1.1\r\n")

  lemma GetIsPlainToken()
    ensures IsPlainToken(GET) && |GET| == 3 && NUL !in HTTP_1_1 && |HTTP_1_1| == 10
  {
  }

  /** "GET / HTTP/1.1" with no send error: 200, text/html, the index page. */
  lemma ScenarioIndexPage(fs: FileSystem, page: Bytes)
    requires INDEX_PAGE in fs && fs[INDEX_PAGE] == Entry(true, page)
    ensures Reply(Received(GET + [SP] + ROOT_ROUTE + [SP] + HTTP_1_1), fs, [])
         == Some(OkHeader(TEXT_HTML, |page|) + page)
  {
    GetIsPlainToken();
    WellFormedRequest(GET, ROOT_ROUTE, HTTP_1_1, fs, []);
    SpecialRoutes([]);
    assert ROOT_ROUTE + [] == ROOT_ROUTE;
    IndexPageIsHtml();
    WholeFileSent(page, [], 1);
  }

  /** "/missing.css" is a plain token that names no special route and maps to "public/missing.css". */
  lemma MissingCssTarget()
    ensures IsPlainToken(ROOT_ROUTE + Ascii("missing.css"))
    ensures ResolvePath(StripQuery(ROOT_ROUTE + Ascii("missing.css"))) == PUBLIC_PREFIX + Ascii("missing.css")
  {
    var name := Ascii("missing.css");
    var target := ROOT_ROUTE + name;
    assert IsPlainToken(name) && IsPlainToken(ROOT_ROUTE);
    PlainTokenConcat(ROOT_ROUTE, name);
    assert QUESTION !in target;
    StripQueryIdempotent(target);
    assert |target| == 12;
    DirectMapping(name);
  }

  /** "GET /missing.css HTTP/1.1" for a file that does not exist: the fixed 404 response. */
  lemma ScenarioMissingFile(fs: FileSystem)
    requires PUBLIC_PREFIX + Ascii("missing.css") !in fs
    ensures Reply(Received(GET + [SP] + (ROOT_ROUTE + Ascii("missing.css")) + [SP] + HTTP_1_1), fs, [])
         == Some(NOT_FOUND)
  {
    GetIsPlainToken();
    MissingCssTarget();
    assert (ROOT_ROUTE + Ascii("missing.css"))[0] == ROOT_ROUTE[0] != QUESTION;
    WellFormedRequest(GET, ROOT_ROUTE + Ascii("missing.css"), HTTP_1_1, fs, []);
  }

  /** "/script.js?v=2" is a plain token whose query-free part is "/script.js". */
  lemma ScriptTarget()
    ensures IsPlainToken(ROOT_ROUTE + Ascii("script.js") + [QUESTION] + Ascii("v=2"))
    ensures StripQuery(ROOT_ROUTE + Ascii("script.js") + [QUESTION] + Ascii("v=2")) == ROOT_ROUTE + Ascii("script.js")
  {
    var name, query := Ascii("script.js"), Ascii("v=2");
    var path := ROOT_ROUTE + name;
    assert IsPlainToken(name) && IsPlainToken(ROOT_ROUTE) && IsPlainToken([QUESTION]) && IsPlainToken(query);
    PlainTokenConcat(ROOT_ROUTE, name);
    PlainTokenConcat(path, [QUESTION]);
    PlainTokenConcat(path + [QUESTION], query);
    assert QUESTION !in path;
    StripQueryDropsQuery(path, query);
  }

  /** "/script.js" maps to "public/script.js", which is served as JavaScript. */
  lemma ScriptResolves()
    ensures ResolvePath(ROOT_ROUTE + Ascii("script.js")) == PUBLIC_PREFIX + Ascii("script.js")
    ensures ContentTypeOf(PUBLIC_PREFIX + Ascii("script.js")) == APPLICATION_JAVASCRIPT
  {
    var name := Ascii("script.js");
    assert (ROOT_ROUTE + name)[1] != BORROWING_ROUTE[1];
    DirectMapping(name);
    ContentTypeIgnoresDirectory(PUBLIC_PREFIX, name);
    ScriptIsJavascript();
  }

  /** "GET /script.js?v=2 HTTP/1.1" for an existing public/script.js: the query is dropped, 200, application/javascript. */
  lemma ScenarioScriptWithQuery(fs: FileSystem, script: Bytes)
    requires PUBLIC_PREFIX + Ascii("script.js") in fs && fs[PUBLIC_PREFIX + Ascii("script.js")] == Entry(true, script)
    ensures Reply(Received(GET + [SP] + (ROOT_ROUTE + Ascii("script.js") + [QUESTION] + Ascii("v=2")) + [SP] + HTTP_1_1), fs, [])
         == Some(OkHeader(APPLICATION_JAVASCRIPT, |script|) + script)
  {
    GetIsPlainToken();
    ScriptTarget();
    ScriptResolves();
    assert (ROOT_ROUTE + Ascii("script.js") + [QUESTION] + Ascii("v=2"))[0] == ROOT_ROUTE[0] != QUESTION;
    WellFormedRequest(GET, ROOT_ROUTE + Ascii("script.js") + [QUESTION] + Ascii("v=2"), HTTP_1_1, fs, []);
    WholeFileSent(script, [], 1);
  }

  /**
   * "GET ?x HTTP/1.1": the code serves "public/x", named by the query text,
   * where the corrected resolver serves "public/", as for an empty path.
   */
  lemma ScenarioQueryFirstToken(fs: FileSystem)
    ensures Reply(Received(GET + [SP] + ([QUESTION] + Ascii("x")) + [SP] + HTTP_1_1), fs, [])
         == Some(FileResponse(fs, PUBLIC_PREFIX + Ascii("x"), []))
    ensures ReplyIntended(Received(GET + [SP] + ([QUESTION] + Ascii("x")) + [SP] + HTTP_1_1), fs, [])
         == Some(FileResponse(fs, PUBLIC_PREFIX, []))
  {
    var x := Ascii("x");
    GetIsPlainToken();
    assert IsPlainToken([QUESTION]) && IsPlainToken(x);
    PlainTokenConcat([QUESTION], x);
    QueryReachesFilePathAsWritten(x);
    WellFormedRequest(GET, [QUESTION] + x, HTTP_1_1, fs, []);
  }

  /** A line holding only "GET", or nothing at all: the connection is closed without a reply. */
  lemma ScenarioNoReply(fs: FileSystem, results: SendResults)
    ensures Reply(Received(GET), fs, results) == None
    ensures Reply(Received([]), fs, results) == None
    ensures Reply(RecvFailed, fs, results) == None
  {
    GetIsPlainToken();
    ShortLineSeenWhole(GET);
    assert TokenEnd(GET, 0) == 3;
  }
}
