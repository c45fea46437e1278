/** `Meli#make_path` (lib/meli.rb:140-147): the full request URL for a
    path. A `/` goes in front of a path the line-anchored regex `/^\//`
    does not match, the API root goes in front of that, and a `?` with the
    escaped query follows only when the parameter hash is non-empty. The
    final `URI.parse` is left to the library and not modelled. */
module RequestPath {
  import opened RubyHash
  import QueryString
  import Text

  /** Ruby's `path =~ /^\//`. In Ruby `^` anchors at the start of ANY line,
      so the match succeeds when some line of `path` begins with `/`. */
  predicate SlashAtLineStart(path: string)
  {
    exists i :: 0 <= i < |path| && path[i] == '/' && (i == 0 || path[i - 1] == '\n')
  }

  /** `path = "/#{path}" unless path =~ /^\//` */
  function WithLeadingSlash(path: string): (p: string)
    ensures p == path || p == "/" + path
    ensures SlashAtLineStart(p)
    ensures '\n' !in path ==> |p| > 0 && p[0] == '/'
    ensures |path| > 0 && path[0] == '/' ==> p == path
  {
    if SlashAtLineStart(path) then path
    else
      assert ("/" + path)[0] == '/';
      "/" + path
  }

  /** For a one-line path the regex is exactly "starts with `/`". */
  lemma SingleLineAnchor(path: string)
    requires '\n' !in path
    ensures SlashAtLineStart(path) <==> |path| > 0 && path[0] == '/'
  {
    if SlashAtLineStart(path) {
      var i :| 0 <= i < |path| && path[i] == '/' && (i == 0 || path[i - 1] == '\n');
      assert i == 0;
    }
  }

  /** For a one-line path a `/` is added exactly when it does not already
      start with one, and a path that does is kept unchanged. */
  lemma SingleLineLeadingSlash(path: string)
    requires '\n' !in path
    ensures WithLeadingSlash(path) == (if |path| > 0 && path[0] == '/' then path else "/" + path)
  {
    SingleLineAnchor(path);
  }

  /** Prefixing twice is prefixing once. */
  lemma LeadingSlashIdempotent(path: string)
    ensures WithLeadingSlash(WithLeadingSlash(path)) == WithLeadingSlash(path)
  {
  }

  /** The line anchor in action: a path whose SECOND line starts with `/`
      gets no `/` in front although it does not start with one. */
  lemma SlashOnLaterLine()
    ensures WithLeadingSlash("items\n/x") == "items\n/x"
  {
    var p := "items\n/x";
    assert p[6] == '/' && p[5] == '\n';
  }

  /** `make_path(path, params)` before `URI.parse`. */
  function MakePath(root: string, path: string, params: Hash, escape: string -> string): (url: string)
    ensures |root + WithLeadingSlash(path)| <= |url|
    ensures url[..|root + WithLeadingSlash(path)|] == root + WithLeadingSlash(path)
    ensures |params| == 0 ==> url == root + WithLeadingSlash(path)
    ensures |params| > 0 ==> url[|root + WithLeadingSlash(path)|..] == "?" + QueryString.ToUrlParams(escape, params)
    ensures '?' !in root && '?' !in path ==> ('?' in url <==> |params| > 0)
  {
    var base := root + WithLeadingSlash(path);
    if |params| > 0 then
      var url := base + "?" + QueryString.ToUrlParams(escape, params);
      assert url[..|base|] == base;
      assert url[|base|..] == "?" + QueryString.ToUrlParams(escape, params);
      assert url[|base|] == '?';
      url
    else base
  }

  /** A URL cut at its first `?`: the part before it, and the query after it if any. */
  function SplitQuery(url: string): (parts: (string, Option<string>))
    ensures parts.1.None? ==> parts.0 == url
    ensures parts.1.Some? ==> url == parts.0 + "?" + parts.1.value && '?' !in parts.0
  {
    if '?' in url then
      var i := Text.IndexOf(url, '?');
      assert url == url[..i] + "?" + url[i + 1..];
      (url[..i], Some(url[i + 1..]))
    else (url, None)
  }

  /** Reading the URL back: for a root and path without `?`, the URL splits
      into the API root plus the slash-prefixed path, and a query that is
      present exactly when the hash is non-empty and is then the escaped
      `to_url_params` of the hash. */
  lemma MakePathSplits(root: string, path: string, params: Hash, escape: string -> string)
    requires '?' !in root && '?' !in path
    ensures SplitQuery(MakePath(root, path, params, escape))
         == (root + WithLeadingSlash(path),
             if |params| > 0 then Some(QueryString.ToUrlParams(escape, params)) else None)
  {
    var base := root + WithLeadingSlash(path);
    assert '?' !in WithLeadingSlash(path);
    assert '?' !in base;
    if |params| > 0 {
      var query := QueryString.ToUrlParams(escape, params);
      var url := base + "?" + query;
      assert url == base + ['?'] + query;
      Text.IndexOfAfterPrefix(base, '?', query);
      assert url[..|base|] == base;
      assert url[|base| + 1..] == query;
    }
  }

  /** The URLs `make_path` builds for `get("items", {})` and
      `get("/items", {q: "phone"})`. */
  lemma ItemsUrls(root: string, escape: string -> string)
    ensures MakePath(root, "items", [], escape) == root + "/items"
    ensures MakePath(root, "/items", [("q", Some("phone"))], escape) == root + "/items?" + escape("q=phone")
  {
    SingleLineLeadingSlash("items");
    SingleLineLeadingSlash("/items");
    var q: Hash := [("q", Some("phone"))];
    assert QueryString.PairText(q[0]) == "q=phone";
    assert QueryString.Collect(q) == ["q=phone"];
    assert root + "/items" + "?" + escape("q=phone") == root + "/items?" + escape("q=phone");
  }

  /** A path that already carries a query gets a second `?` in front of the
      parameters: `make_path("items?a=1", {b: "2"})`. */
  lemma SecondQuestionMark(root: string, escape: string -> string)
    ensures MakePath(root, "items?a=1", [("b", Some("2"))], escape) == root + "/items?a=1?" + escape("b=2")
  {
    SingleLineLeadingSlash("items?a=1");
    var q: Hash := [("b", Some("2"))];
    assert QueryString.PairText(q[0]) == "b=2";
    assert QueryString.Collect(q) == ["b=2"];
    assert root + "/items?a=1" + "?" + escape("b=2") == root + "/items?a=1?" + escape("b=2");
  }
}
