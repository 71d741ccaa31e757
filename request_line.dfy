/**
 * The request-line parser of the connection handler: the octets received by
 * the single `recv` call, read as a C string, split by two `strtok` calls on
 * space, tab, CR and LF, and the path token cut at its first '?'.
 *
 * `strtok` returns pointers into the receive buffer and writes NULs into it;
 * here a token is the span of the line it occupies, and `ParsedBuffer`
 * gives the buffer after those writes.
 */
module RequestLine {
  import opened Wrappers
  import opened Octets

  /** `recv` is asked for one octet less than the buffer holds, so the buffer always ends in NUL. */
  const RECV_LIMIT: nat := BUFFER_SIZE - 1

  const NUL: byte := 0
  const SP: byte := 32
  const QUESTION: byte := 63

  /** The `strtok` delimiter set " \t\r\n". */
  predicate IsDelim(b: byte) { b == SP || b == 9 || b == 13 || b == 10 }

  /** The C string stored at the start of `s`: the octets before the first NUL. */
  function CString(s: Bytes): (r: Bytes)
    ensures |r| <= |s| && r == s[..|r|]
    ensures NUL !in r
    ensures |r| < |s| ==> s[|r|] == NUL
  {
    if s == [] || s[0] == NUL then [] else [s[0]] + CString(s[1..])
  }

  lemma CStringEndsAt(s: Bytes, j: nat)
    requires j < |s| && s[j] == NUL
    requires forall k :: 0 <= k < j ==> s[k] != NUL
    ensures CString(s) == s[..j]
  {
  }

  /** A NUL hides everything after it. */
  lemma {:induction false} CStringStopsAtNul(a: Bytes, b: Bytes)
    ensures CString(a + [NUL] + b) == CString(a)
  {
    if a != [] && a[0] != NUL {
      assert (a + [NUL] + b)[1..] == a[1..] + [NUL] + b;
      CStringStopsAtNul(a[1..], b);
    }
  }

  /**
   * The request line the parser sees: `recv` stores at most RECV_LIMIT
   * octets into a zero-filled buffer, and `strtok` reads it up to the first NUL.
   */
  function ReceivedLine(segment: Bytes): (line: Bytes)
    ensures |line| <= RECV_LIMIT && |line| <= |segment| && NUL !in line
    ensures line == segment[..|line|]
    ensures |line| < |segment| ==> |line| == RECV_LIMIT || segment[|line|] == NUL
  {
    CString(segment[..if |segment| < RECV_LIMIT then |segment| else RECV_LIMIT])
  }

  /** The received line never reaches past the first NUL. */
  lemma ReceivedLineStopsAtNul(a: Bytes, b: Bytes)
    ensures ReceivedLine(a + [NUL] + b) == CString(a[..if |a| < RECV_LIMIT then |a| else RECV_LIMIT])
  {
    var s := a + [NUL] + b;
    if |a| >= RECV_LIMIT {
      assert s[..RECV_LIMIT] == a[..RECV_LIMIT];
    } else {
      var k := if |s| < RECV_LIMIT then |s| else RECV_LIMIT;
      assert s[..k] == a + [NUL] + b[..k - |a| - 1];
      assert a[..|a|] == a;
      CStringStopsAtNul(a, b[..k - |a| - 1]);
    }
  }

  /** Octets `start` up to (excluding) `end` of the line. */
  datatype Span = Span(start: nat, end: nat)

  /** The first position at or after `i` that is not a delimiter. */
  function SkipDelims(s: Bytes, i: nat): (j: nat)
    requires i <= |s|
    ensures i <= j <= |s|
    ensures forall k :: i <= k < j ==> IsDelim(s[k])
    ensures j < |s| ==> !IsDelim(s[j])
    decreases |s| - i
  {
    if i < |s| && IsDelim(s[i]) then SkipDelims(s, i + 1) else i
  }

  /** The first position at or after `i` that is a delimiter, or the end. */
  function TokenEnd(s: Bytes, i: nat): (j: nat)
    requires i <= |s|
    ensures i <= j <= |s|
    ensures forall k :: i <= k < j ==> !IsDelim(s[k])
    ensures j < |s| ==> IsDelim(s[j])
    decreases |s| - i
  {
    if i < |s| && !IsDelim(s[i]) then TokenEnd(s, i + 1) else i
  }

  /**
   * One `strtok` call resuming at `from`: the token it returns and where the
   * next call resumes, just past the delimiter it overwrote, or at the end.
   */
  function NextToken(s: Bytes, from: nat): (r: Option<(Span, nat)>)
    requires from <= |s|
    ensures r.Some? ==> from <= r.value.0.start < r.value.0.end <= r.value.1 <= |s|
  {
    var start := SkipDelims(s, from);
    if start == |s| then None
    else
      var end := TokenEnd(s, start);
      Some((Span(start, end), if end < |s| then end + 1 else end))
  }

  /** The two `strtok` calls: the method token and the path token, or None when either is NULL. */
  function FirstTwoTokens(line: Bytes): (r: Option<(Span, Span)>)
    ensures r.Some? ==> r.value.0.start < r.value.0.end < r.value.1.start < r.value.1.end <= |line|
  {
    match NextToken(line, 0)
    case None => None
    case Some((verb, resume)) =>
      match NextToken(line, resume)
      case None => None
      case Some((path, _)) => Some((verb, path))
  }

  /** A token of `s` begins at `k`: a non-delimiter at the start or after a delimiter. */
  predicate TokenStartsAt(s: Bytes, k: int) {
    0 <= k < |s| && !IsDelim(s[k]) && (k == 0 || IsDelim(s[k - 1]))
  }

  /** `t` is a maximal non-empty run of non-delimiters of `s`. */
  predicate IsToken(s: Bytes, t: Span) {
    t.start < t.end <= |s| && TokenStartsAt(s, t.start)
    && (forall k :: t.start <= k < t.end ==> !IsDelim(s[k]))
    && (t.end == |s| || IsDelim(s[t.end]))
  }

  ghost predicate AtMostOneToken(s: Bytes) {
    forall i, j :: TokenStartsAt(s, i) && TokenStartsAt(s, j) ==> i == j
  }

  /** Before the place where the second `strtok` call finds its token, only the first token begins. */
  lemma OnlyFirstTokenBefore(line: Bytes, m: Span, next: nat)
    requires m.start == SkipDelims(line, 0) < |line| && m.end == TokenEnd(line, m.start)
    requires next == if m.end < |line| then SkipDelims(line, m.end + 1) else |line|
    ensures forall k :: 0 <= k < next && TokenStartsAt(line, k) ==> k == m.start
  {
    forall k | 0 <= k < next && k != m.start ensures !TokenStartsAt(line, k) {
      if k < m.start {
        assert IsDelim(line[k]);
      } else if k <= m.end {
        assert !IsDelim(line[k - 1]);
      } else {
        assert IsDelim(line[k]);
      }
    }
  }

  /**
   * The tokenizer fails exactly when the line holds fewer than two tokens;
   * otherwise it returns the first two maximal runs of non-delimiters.
   */
  lemma FirstTwoTokensSpec(line: Bytes)
    ensures FirstTwoTokens(line).None? <==> AtMostOneToken(line)
    ensures FirstTwoTokens(line).Some? ==>
      var (m, p) := FirstTwoTokens(line).value;
      IsToken(line, m) && IsToken(line, p)
      && forall k :: 0 <= k < p.start && TokenStartsAt(line, k) ==> k == m.start
  {
    var first := NextToken(line, 0);
    if first.None? {
      assert SkipDelims(line, 0) == |line|;
      forall i | 0 <= i < |line| ensures !TokenStartsAt(line, i) {
        assert IsDelim(line[i]);
      }
    } else {
      var (m, resume) := first.value;
      assert m.start == SkipDelims(line, 0) && m.end == TokenEnd(line, m.start);
      assert TokenStartsAt(line, m.start);
      assert IsToken(line, m);
      var second := NextToken(line, resume);
      if second.None? {
        assert SkipDelims(line, resume) == |line|;
        OnlyFirstTokenBefore(line, m, |line|);
      } else {
        var (p, _) := second.value;
        assert m.end < |line| && resume == m.end + 1;
        assert p.start == SkipDelims(line, resume) && p.end == TokenEnd(line, p.start);
        assert IsDelim(line[p.start - 1]);
        assert IsToken(line, p);
        assert !AtMostOneToken(line) by {
          assert TokenStartsAt(line, m.start) && TokenStartsAt(line, p.start);
        }
        OnlyFirstTokenBefore(line, m, p.start);
      }
    }
  }

  /**
   * A request line written strictly as section 3 of RFC 9112 has it (method,
   * one SP, request-target, one SP, ...) yields exactly its method and its target.
   */
  lemma StrictRequestLine(verb: Bytes, target: Bytes, rest: Bytes)
    requires |verb| > 0 && forall k :: 0 <= k < |verb| ==> !IsDelim(verb[k])
    requires |target| > 0 && forall k :: 0 <= k < |target| ==> !IsDelim(target[k])
    ensures FirstTwoTokens(verb + [SP] + target + [SP] + rest)
         == Some((Span(0, |verb|), Span(|verb| + 1, |verb| + 1 + |target|)))
  {
    var line := verb + [SP] + target + [SP] + rest;
    var n := |verb|;
    assert line[0] == verb[0];
    assert SkipDelims(line, 0) == 0;
    var e := TokenEnd(line, 0);
    assert line[n] == SP;
    assert e == n;
    assert line[n + 1] == target[0];
    assert SkipDelims(line, n + 1) == n + 1;
    var e2 := TokenEnd(line, n + 1);
    assert line[n + 1 + |target|] == SP;
    assert e2 == n + 1 + |target|;
  }

  /** A token `strtok` returns whole: non-empty, free of delimiters and of NUL. */
  predicate IsPlainToken(t: Bytes) {
    |t| > 0 && NUL !in t && forall k :: 0 <= k < |t| ==> !IsDelim(t[k])
  }

  lemma PlainTokenConcat(a: Bytes, b: Bytes)
    requires IsPlainToken(a) && IsPlainToken(b)
    ensures IsPlainToken(a + b)
  {
    forall k | 0 <= k < |a + b| ensures !IsDelim((a + b)[k]) {
      if k < |a| { assert (a + b)[k] == a[k]; } else { assert (a + b)[k] == b[k - |a|]; }
    }
  }

  /** `strchr`: the position of the first occurrence of `b`, or the length when there is none. */
  function IndexOf(s: Bytes, b: byte): (r: nat)
    ensures r <= |s| && (r < |s| ==> s[r] == b)
    ensures forall k :: 0 <= k < r ==> s[k] != b
  {
    if s == [] || s[0] == b then 0 else 1 + IndexOf(s[1..], b)
  }

  /** The path token cut at its first '?'. */
  function StripQuery(target: Bytes): (path: Bytes)
    ensures |path| <= |target| && path == target[..|path|] && QUESTION !in path
    ensures |path| < |target| ==> target[|path|] == QUESTION
  {
    target[..IndexOf(target, QUESTION)]
  }

  /** A token without '?' is unchanged, and stripping twice is stripping once. */
  lemma StripQueryIdempotent(target: Bytes)
    ensures QUESTION !in target ==> StripQuery(target) == target
    ensures StripQuery(StripQuery(target)) == StripQuery(target)
  {
    var path := StripQuery(target);
    assert IndexOf(path, QUESTION) == |path|;
    if QUESTION !in target {
      assert IndexOf(target, QUESTION) == |target|;
    }
  }

  /** Whatever follows the first '?' is dropped. */
  lemma StripQueryDropsQuery(path: Bytes, query: Bytes)
    requires QUESTION !in path
    ensures StripQuery(path + [QUESTION] + query) == path
  {
    var target := path + [QUESTION] + query;
    var i := IndexOf(target, QUESTION);
    assert target[|path|] == QUESTION;
  }

  /**
   * A parsed request as the C strings the handler reads: the method token
   * (`verb`, since `method` is a Dafny keyword), the query-free path at the
   * `path` pointer, and the text `snprintf` reads at `path + 1`
   * (see `InPlaceParse`).
   */
  datatype Request = Request(verb: Bytes, path: Bytes, pathPlusOne: Bytes)

  function ParseRequest(line: Bytes): Option<Request> {
    match FirstTwoTokens(line)
    case None => None
    case Some((m, p)) =>
      var target := line[p.start..p.end];
      Some(Request(line[m.start..m.end], StripQuery(target), PathPlusOne(target)))
  }

  /** A parsed method is a non-empty run free of delimiters and NULs; the path is also free of '?'. */
  lemma ParsedRequestShape(line: Bytes)
    requires NUL !in line
    ensures ParseRequest(line).None? <==> AtMostOneToken(line)
    ensures ParseRequest(line).Some? ==>
      var req := ParseRequest(line).value;
      |req.verb| > 0 && NUL !in req.verb && NUL !in req.path && QUESTION !in req.path
      && (forall k :: 0 <= k < |req.verb| ==> !IsDelim(req.verb[k]))
      && (forall k :: 0 <= k < |req.path| ==> !IsDelim(req.path[k]))
  {
    FirstTwoTokensSpec(line);
    if FirstTwoTokens(line).Some? {
      var (m, p) := FirstTwoTokens(line).value;
      var req := ParseRequest(line).value;
      forall k | 0 <= k < |req.verb| ensures !IsDelim(req.verb[k]) && req.verb[k] != NUL {
        assert req.verb[k] == line[m.start + k];
      }
      forall k | 0 <= k < |req.path| ensures !IsDelim(req.path[k]) && req.path[k] != NUL {
        assert req.path[k] == line[p.start + k];
      }
    }
  }

  /** Such a strict request line parses to its method and to the C strings of its target. */
  lemma ParseStrictRequestLine(verb: Bytes, target: Bytes, rest: Bytes)
    requires IsPlainToken(verb) && IsPlainToken(target)
    ensures ParseRequest(verb + [SP] + target + [SP] + rest)
         == Some(Request(verb, StripQuery(target), PathPlusOne(target)))
  {
    var line := verb + [SP] + target + [SP] + rest;
    StrictRequestLine(verb, target, rest);
    assert line[0..|verb|] == verb;
    assert line[|verb| + 1..|verb| + 1 + |target|] == target;
  }

  /** Writing a NUL at position `i` of the buffer, as `strtok` and the query cut do. */
  function Terminate(buf: Bytes, i: nat): Bytes {
    if i < |buf| then buf[i := NUL] else buf
  }

  /**
   * The receive buffer from its start through the NUL that ends the line,
   * after the first `strtok` call wrote NUL over the delimiter ending the
   * method, the second over the delimiter ending the path, and the query cut
   * over the first '?' of the path token.
   */
  function ParsedBuffer(line: Bytes, verb: Span, path: Span): (buf: Bytes)
    requires verb.end <= path.start <= path.end <= |line|
    ensures |buf| == |line| + 1
  {
    var afterTokens := Terminate(Terminate(line + [NUL], verb.end), path.end);
    var q := IndexOf(line[path.start..path.end], QUESTION);
    if path.start + q < path.end then Terminate(afterTokens, path.start + q) else afterTokens
  }

  /**
   * The C string `snprintf` reads at `path + 1` once the query cut has been
   * written: the path without its first octet, except that for a token
   * beginning with '?' the cut leaves the path empty and `path + 1` reads
   * on into the query text.
   */
  function PathPlusOne(target: Bytes): Bytes
    requires |target| >= 1
  {
    var q := IndexOf(target, QUESTION);
    if q == 0 then target[1..] else target[1..q]
  }

  /** The buffer after the writes, position by position. */
  ghost predicate BufferAfterWrites(buf: Bytes, line: Bytes, verb: Span, path: Span, q: nat) {
    |buf| == |line| + 1
    && forall k :: 0 <= k <= |line| ==>
         buf[k] == if k == |line| || k == verb.end || k == path.end || k == path.start + q then NUL else line[k]
  }

  /** Each position of the buffer holds NUL where a token or the query was cut, and the received octet elsewhere. */
  lemma ParsedBufferWrites(line: Bytes, verb: Span, path: Span)
    requires verb.end <= path.start <= path.end <= |line|
    ensures BufferAfterWrites(ParsedBuffer(line, verb, path), line, verb, path,
                              IndexOf(line[path.start..path.end], QUESTION))
  {
  }

  lemma MethodPointer(buf: Bytes, line: Bytes, verb: Span, path: Span, q: nat)
    requires NUL !in line && verb.start < verb.end < path.start
    requires path.start + q <= path.end <= |line|
    requires BufferAfterWrites(buf, line, verb, path, q)
    ensures CString(buf[verb.start..]) == line[verb.start..verb.end]
  {
    var s := buf[verb.start..];
    var j := verb.end - verb.start;
    assert s[j] == buf[verb.end];
    forall k | 0 <= k < j ensures s[k] != NUL {
      assert s[k] == buf[verb.start + k] == line[verb.start + k];
    }
    CStringEndsAt(s, j);
  }

  lemma PathPointer(buf: Bytes, line: Bytes, verb: Span, path: Span)
    requires NUL !in line && verb.end < path.start < path.end <= |line|
    requires BufferAfterWrites(buf, line, verb, path, IndexOf(line[path.start..path.end], QUESTION))
    ensures CString(buf[path.start..]) == StripQuery(line[path.start..path.end])
  {
    var t := line[path.start..path.end];
    var q := IndexOf(t, QUESTION);
    var s := buf[path.start..];
    assert s[q] == buf[path.start + q];
    forall k | 0 <= k < q ensures s[k] != NUL {
      assert s[k] == buf[path.start + k] == line[path.start + k];
    }
    CStringEndsAt(s, q);
  }

  lemma PathPlusOnePointer(buf: Bytes, line: Bytes, verb: Span, path: Span)
    requires NUL !in line && verb.end < path.start < path.end <= |line|
    requires BufferAfterWrites(buf, line, verb, path, IndexOf(line[path.start..path.end], QUESTION))
    ensures CString(buf[path.start + 1..]) == PathPlusOne(line[path.start..path.end])
  {
    var t := line[path.start..path.end];
    var q := IndexOf(t, QUESTION);
    var s := buf[path.start + 1..];
    // The C string at path + 1 ends at the end of the token, or at the '?'.
    var stop := if q == 0 then |t| else q;
    var j := stop - 1;
    assert buf[path.start + stop] == NUL;
    assert s[j] == NUL;
    forall k | 0 <= k < j ensures s[k] == t[1 + k] && s[k] != NUL {
      assert s[k] == buf[path.start + 1 + k];
      assert buf[path.start + 1 + k] == line[path.start + 1 + k];
    }
    CStringEndsAt(s, j);
    assert s[..j] == t[1..stop];
  }

  /**
   * The pure parse agrees with the in-place one: in the buffer after the
   * NUL writes, the C strings at the method pointer, the path pointer and one
   * past the path pointer are the method token, the stripped path and
   * `PathPlusOne` of the path token.
   */
  lemma InPlaceParse(line: Bytes, verb: Span, path: Span)
    requires NUL !in line && FirstTwoTokens(line) == Some((verb, path))
    ensures CString(ParsedBuffer(line, verb, path)[verb.start..]) == line[verb.start..verb.end]
    ensures CString(ParsedBuffer(line, verb, path)[path.start..]) == StripQuery(line[path.start..path.end])
    ensures CString(ParsedBuffer(line, verb, path)[path.start + 1..]) == PathPlusOne(line[path.start..path.end])
  {
    var buf := ParsedBuffer(line, verb, path);
    var q := IndexOf(line[path.start..path.end], QUESTION);
    ParsedBufferWrites(line, verb, path);
    MethodPointer(buf, line, verb, path, q);
    PathPointer(buf, line, verb, path);
    PathPlusOnePointer(buf, line, verb, path);
  }

}
