/**
 * The content-type resolver `get_content_type`: the suffix of a file path
 * from its last '.' is looked up, case-sensitively, in a three-entry table.
 */
module ContentType {
  import opened Wrappers
  import opened Octets

  const DOT: byte := 46

  const HTML_SUFFIX := Ascii(".html")
  const CSS_SUFFIX := Ascii(".css")
  const JS_SUFFIX := Ascii(".js")

  const TEXT_HTML := Ascii("text/html; charset=utf-8")
  const TEXT_CSS := Ascii("text/css")
  const APPLICATION_JAVASCRIPT := Ascii("application/javascript")
  const OCTET_STREAM := Ascii("application/octet-stream")

  /** `strrchr`: the position of the last occurrence of `b`, or None. */
  function LastIndexOf(s: Bytes, b: byte): (r: Option<nat>)
    ensures r.Some? ==> r.value < |s| && s[r.value] == b
    ensures r.Some? ==> forall j :: r.value < j < |s| ==> s[j] != b
    ensures r.None? ==> forall j :: 0 <= j < |s| ==> s[j] != b
  {
    if s == [] then None
    else if s[|s| - 1] == b then Some(|s| - 1)
    else LastIndexOf(s[..|s| - 1], b)
  }

  /** `get_content_type`. */
  function ContentTypeOf(path: Bytes): (r: Bytes)
    ensures r == TEXT_HTML || r == TEXT_CSS || r == APPLICATION_JAVASCRIPT || r == OCTET_STREAM
  {
    match LastIndexOf(path, DOT)
    case None => OCTET_STREAM
    case Some(i) =>
      var suffix := path[i..];
      if suffix == HTML_SUFFIX then TEXT_HTML
      else if suffix == CSS_SUFFIX then TEXT_CSS
      else if suffix == JS_SUFFIX then APPLICATION_JAVASCRIPT
      else OCTET_STREAM
  }

  predicate EndsWith(s: Bytes, suffix: Bytes) {
    |suffix| <= |s| && s[|s| - |suffix|..] == suffix
  }

  /** For an extension made of one dot and dot-free letters, ending with it is the same as it being the suffix from the last dot. */
  lemma LastDotSuffix(path: Bytes, ext: Bytes)
    requires |ext| >= 1 && ext[0] == DOT
    requires forall k :: 1 <= k < |ext| ==> ext[k] != DOT
    ensures EndsWith(path, ext) <==> LastIndexOf(path, DOT).Some? && path[LastIndexOf(path, DOT).value..] == ext
  {
    var last := LastIndexOf(path, DOT);
    if EndsWith(path, ext) {
      var i0 := |path| - |ext|;
      assert path[i0] == ext[0];
      forall j | i0 < j < |path| ensures path[j] != DOT {
        assert path[j] == ext[j - i0];
      }
    }
    if last.Some? && path[last.value..] == ext {
      assert |path| - |ext| == last.value;
    }
  }

  lemma ConstantsDiffer()
    ensures TEXT_HTML != TEXT_CSS && TEXT_HTML != APPLICATION_JAVASCRIPT && TEXT_HTML != OCTET_STREAM
    ensures TEXT_CSS != APPLICATION_JAVASCRIPT && TEXT_CSS != OCTET_STREAM
    ensures APPLICATION_JAVASCRIPT != OCTET_STREAM
    ensures HTML_SUFFIX != CSS_SUFFIX && HTML_SUFFIX != JS_SUFFIX && CSS_SUFFIX != JS_SUFFIX
  {
    assert TEXT_HTML[0] != OCTET_STREAM[0];
  }

  /**
   * The type depends only on how the path ends: each of the three table
   * entries is returned exactly when the path ends with its suffix, and the
   * fallback exactly when it ends with none of them.
   */
  lemma ContentTypeBySuffix(path: Bytes)
    ensures ContentTypeOf(path) == TEXT_HTML <==> EndsWith(path, HTML_SUFFIX)
    ensures ContentTypeOf(path) == TEXT_CSS <==> EndsWith(path, CSS_SUFFIX)
    ensures ContentTypeOf(path) == APPLICATION_JAVASCRIPT <==> EndsWith(path, JS_SUFFIX)
    ensures ContentTypeOf(path) == OCTET_STREAM <==>
      !EndsWith(path, HTML_SUFFIX) && !EndsWith(path, CSS_SUFFIX) && !EndsWith(path, JS_SUFFIX)
  {
    ConstantsDiffer();
    LastDotSuffix(path, HTML_SUFFIX);
    LastDotSuffix(path, CSS_SUFFIX);
    LastDotSuffix(path, JS_SUFFIX);
  }

  /** A trailing extra extension falls back to the octet stream. */
  lemma DoubleExtensionIsOctetStream()
    ensures ContentTypeOf(Ascii("x.html.bak")) == OCTET_STREAM
  {
    var path := Ascii("x.html.bak");
    ContentTypeBySuffix(path);
    assert path[5] != HTML_SUFFIX[0] && path[7] != CSS_SUFFIX[1] && path[7] != JS_SUFFIX[0];
  }

  /** The suffixes are compared case-sensitively. */
  lemma UpperCaseIsOctetStream()
    ensures ContentTypeOf(Ascii("x.HTML")) == OCTET_STREAM
  {
    var path := Ascii("x.HTML");
    ContentTypeBySuffix(path);
    assert path[2] != HTML_SUFFIX[1] && path[2] != CSS_SUFFIX[0] && path[3] != JS_SUFFIX[0];
  }

  /** A path without a dot is an octet stream. */
  lemma NoDotIsOctetStream()
    ensures ContentTypeOf(Ascii("README")) == OCTET_STREAM
  {
    var path := Ascii("README");
    ContentTypeBySuffix(path);
    assert path[1] != HTML_SUFFIX[0] && path[2] != CSS_SUFFIX[0] && path[3] != JS_SUFFIX[0];
  }

  /** The index page is served as HTML. */
  lemma IndexPageIsHtml()
    ensures ContentTypeOf(Ascii("public/pages/index.html")) == TEXT_HTML
  {
    var path := Ascii("public/pages/index.html");
    ContentTypeBySuffix(path);
    assert path[|path| - 5..] == HTML_SUFFIX;
  }

  lemma EndsWithIgnoresDirectory(dir: Bytes, name: Bytes, suffix: Bytes)
    requires |suffix| <= |name|
    ensures EndsWith(dir + name, suffix) <==> EndsWith(name, suffix)
  {
    var p := dir + name;
    assert p[|p| - |suffix|..] == name[|name| - |suffix|..];
  }

  /** The type depends only on the last five octets: a directory in front of a name of five octets or more does not change it. */
  lemma ContentTypeIgnoresDirectory(dir: Bytes, name: Bytes)
    requires |name| >= |HTML_SUFFIX|
    ensures ContentTypeOf(dir + name) == ContentTypeOf(name)
  {
    ContentTypeBySuffix(dir + name);
    ContentTypeBySuffix(name);
    EndsWithIgnoresDirectory(dir, name, HTML_SUFFIX);
    EndsWithIgnoresDirectory(dir, name, CSS_SUFFIX);
    EndsWithIgnoresDirectory(dir, name, JS_SUFFIX);
  }

  /** A name ending in ".js" is served as JavaScript. */
  lemma ScriptIsJavascript()
    ensures ContentTypeOf(Ascii("script.js")) == APPLICATION_JAVASCRIPT
  {
    var name := Ascii("script.js");
    ContentTypeBySuffix(name);
    assert name[|name| - 3..] == JS_SUFFIX;
  }
}
