/**
 * The path resolver of the connection handler: three exact routes map to
 * pages under public/pages, every other path to "public/" followed by the
 * path without its first octet, written with `snprintf` into a 512-octet
 * buffer.
 */
module Routes {
  import opened Octets
  import opened RequestLine

  const FILE_PATH_SIZE: nat := 512

  const ROOT_ROUTE := Ascii("/")
  const BORROWING_ROUTE := Ascii("/borrowing")
  const RETURN_ROUTE := Ascii("/return")

  const PUBLIC_PREFIX := Ascii("public/")
  const INDEX_PAGE := Ascii("public/pages/index.html")
  const BORROWING_PAGE := Ascii("public/pages/borrowing.html")
  const RETURN_PAGE := Ascii("public/pages/return.html")

  /** `snprintf` into `file_path[512]`: at most 511 octets are kept. */
  function Truncate(s: Bytes): (r: Bytes)
    ensures |r| < FILE_PATH_SIZE && |r| <= |s| && r == s[..|r|]
    ensures |s| < FILE_PATH_SIZE ==> r == s
  {
    if |s| < FILE_PATH_SIZE then s else s[..FILE_PATH_SIZE - 1]
  }

  predicate IsSpecialRoute(path: Bytes) {
    path == ROOT_ROUTE || path == BORROWING_ROUTE || path == RETURN_ROUTE
  }

  /**
   * The if-chain on the stripped `path`; `rest` is the C string `snprintf`
   * reads at `path + 1` for the fallback.
   */
  function Route(path: Bytes, rest: Bytes): Bytes {
    if path == ROOT_ROUTE then Truncate(INDEX_PAGE)
    else if path == BORROWING_ROUTE then Truncate(BORROWING_PAGE)
    else if path == RETURN_ROUTE then Truncate(RETURN_PAGE)
    else Truncate(PUBLIC_PREFIX + rest)
  }

  /**
   * The resolver as written, applied to the path token: the routes are
   * matched on the stripped path, and the fallback appends the C string at
   * `path + 1` in the parsed buffer (see `RequestLine.InPlaceParse`).
   */
  function ResolveAsWritten(target: Bytes): Bytes
    requires |target| >= 1
  {
    Route(StripQuery(target), PathPlusOne(target))
  }

  /**
   * The resolver the server model uses: the fallback drops the first octet
   * of the stripped path, and an empty path stays empty.
   */
  function ResolvePath(path: Bytes): Bytes {
    Route(path, if path == [] then [] else path[1..])
  }

  /** Each special route gives its page, and so does the route followed by any query. */
  lemma SpecialRoutes(query: Bytes)
    requires query == [] || query[0] == QUESTION
    ensures ResolvePath(StripQuery(ROOT_ROUTE + query)) == INDEX_PAGE
    ensures ResolvePath(StripQuery(BORROWING_ROUTE + query)) == BORROWING_PAGE
    ensures ResolvePath(StripQuery(RETURN_ROUTE + query)) == RETURN_PAGE
  {
    forall route | route in [ROOT_ROUTE, BORROWING_ROUTE, RETURN_ROUTE]
      ensures StripQuery(route + query) == route
    {
      assert QUESTION !in route;
      if query == [] {
        StripQueryIdempotent(route);
        assert route + query == route;
      } else {
        StripQueryDropsQuery(route, query[1..]);
        assert route + query == route + [QUESTION] + query[1..];
      }
    }
  }

  /**
   * Every resolved path lies textually under "public/" and fits the
   * 512-octet buffer with its NUL.
   */
  lemma ResolvedUnderPublic(path: Bytes)
    ensures |ResolvePath(path)| < FILE_PATH_SIZE
    ensures |ResolvePath(path)| >= |PUBLIC_PREFIX| && ResolvePath(path)[..|PUBLIC_PREFIX|] == PUBLIC_PREFIX
  {
    var r := ResolvePath(path);
    if IsSpecialRoute(path) {
      assert INDEX_PAGE[..7] == PUBLIC_PREFIX;
      assert BORROWING_PAGE[..7] == PUBLIC_PREFIX;
      assert RETURN_PAGE[..7] == PUBLIC_PREFIX;
    } else {
      var full := PUBLIC_PREFIX + (if path == [] then [] else path[1..]);
      assert r == Truncate(full);
      assert r[..7] == full[..7];
    }
  }

  /**
   * Any other path "/x" maps to "public/x" octet for octet when it fits:
   * no normalisation of "..", no percent-decoding.
   */
  lemma DirectMapping(x: Bytes)
    requires !IsSpecialRoute(ROOT_ROUTE + x)
    requires |PUBLIC_PREFIX| + |x| < FILE_PATH_SIZE
    ensures ResolvePath(ROOT_ROUTE + x) == PUBLIC_PREFIX + x
  {
    assert (ROOT_ROUTE + x)[1..] == x;
  }

  /** The first octet is dropped even when it is not '/'. */
  lemma FirstOctetDropped(c: byte, x: Bytes)
    requires !IsSpecialRoute([c] + x)
    requires |PUBLIC_PREFIX| + |x| < FILE_PATH_SIZE
    ensures ResolvePath([c] + x) == PUBLIC_PREFIX + x
  {
    assert ([c] + x)[1..] == x;
  }

  /** For example, "style.css" without its leading '/' resolves to "public/tyle.css". */
  lemma MissingSlashLosesFirstOctet()
    ensures ResolvePath(Ascii("style.css")) == Ascii("public/tyle.css")
  {
    var bare := Ascii("style.css");
    assert bare == [bare[0]] + Ascii("tyle.css");
    FirstOctetDropped(bare[0], Ascii("tyle.css"));
    AsciiAppend("public/", "tyle.css");
  }

  /** A long path is cut to the first 511 octets of "public/" + path[1..]. */
  lemma LongPathTruncated(path: Bytes)
    requires |PUBLIC_PREFIX| + |path| > FILE_PATH_SIZE
    ensures ResolvePath(path) == (PUBLIC_PREFIX + path[1..])[..FILE_PATH_SIZE - 1]
  {
    assert !IsSpecialRoute(path);
  }

  /** ".." segments are passed through, so a request can name files outside public/. */
  lemma TraversalNotFiltered()
    ensures ResolvePath(Ascii("/../server.c")) == Ascii("public/../server.c")
  {
    assert Ascii("/../server.c") == ROOT_ROUTE + Ascii("../server.c");
    DirectMapping(Ascii("../server.c"));
    AsciiAppend("public/", "../server.c");
  }

  /** A direct path can name a routed page. */
  lemma RoutedPageReachableDirectly()
    ensures ResolvePath(Ascii("/pages/index.html")) == ResolvePath(ROOT_ROUTE)
  {
    assert Ascii("/pages/index.html") == ROOT_ROUTE + Ascii("pages/index.html");
    DirectMapping(Ascii("pages/index.html"));
    AsciiAppend("public/", "pages/index.html");
  }

  /**
   * As written, a path token "?x" has an empty stripped path, yet `path + 1`
   * reads on into the query text, so it resolves to "public/x": the query
   * reaches the file path.
   */
  lemma QueryReachesFilePathAsWritten(x: Bytes)
    ensures StripQuery([QUESTION] + x) == []
    ensures ResolveAsWritten([QUESTION] + x) == Truncate(PUBLIC_PREFIX + x)
  {
    var target := [QUESTION] + x;
    assert IndexOf(target, QUESTION) == 0;
    assert target[1..] == x;
  }

  /** For example, "?x" resolves to "public/x" while "/" + "?x" resolves to the index page. */
  lemma QueryFirstExample()
    ensures ResolveAsWritten([QUESTION] + Ascii("x")) == PUBLIC_PREFIX + Ascii("x")
    ensures ResolveAsWritten(ROOT_ROUTE + [QUESTION] + Ascii("x")) == INDEX_PAGE
  {
    QueryReachesFilePathAsWritten(Ascii("x"));
    var t := ROOT_ROUTE + [QUESTION] + Ascii("x");
    assert t == ROOT_ROUTE + ([QUESTION] + Ascii("x"));
    SpecialRoutes([QUESTION] + Ascii("x"));
    AsWrittenAgreesOnNonEmptyPath(t);
  }

  /** Both resolvers agree on every token whose stripped path is not empty. */
  lemma AsWrittenAgreesOnNonEmptyPath(target: Bytes)
    requires |target| >= 1 && StripQuery(target) != []
    ensures ResolveAsWritten(target) == ResolvePath(StripQuery(target))
  {
  }

  /** With the corrected resolver, appending a query to a path token never changes the file path. */
  lemma QueryNeverReachesFilePath(path: Bytes, query: Bytes)
    requires QUESTION !in path
    ensures ResolvePath(StripQuery(path + [QUESTION] + query)) == ResolvePath(StripQuery(path))
  {
    StripQueryDropsQuery(path, query);
    StripQueryIdempotent(path);
  }
}
