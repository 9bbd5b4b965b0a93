/**
 * The parts of Python's `urllib.parse` that the canonicaliser calls:
 * `urlsplit` (here `SplitUrl`), `urlparse` (here `Split`, which also sets `;params` apart), `urljoin` (here `Join`, with the path merge and
 * dot-segment removal of sections 5.2.3 and 5.2.4 of RFC 3986) and
 * `urlunparse` restricted to the records the canonicaliser builds (`Unparse`).
 */
module UrlParse {
  import opened Text

  /** The components `urlsplit` returns, `""` standing for an absent one; `urlparse`'s `;params` are not kept, as no caller reads them. */
  datatype Parts = Parts(scheme: string, netloc: string, path: string, query: string, fragment: string)

  /** Characters that end the network location. */
  const NetlocEnd: set<char> := {'/', '?', '#'}

  /** The shape every parsed record has: each component stops where the next delimiter starts. */
  predicate WellFormed(p: Parts)
  {
    Excludes(p.netloc, NetlocEnd) && Excludes(p.path, {'?', '#'}) && Excludes(p.query, {'#'})
  }

  predicate IsSchemeChar(c: char)
  {
    IsLetter(c) || '0' <= c <= '9' || c == '+' || c == '-' || c == '.'
  }

  /**
   * `urlsplit`'s scheme rule: the text before the first `:` is a scheme when it is
   * non-empty, starts with a letter and consists of scheme characters; it is lower-cased.
   */
  function SplitScheme(s: string): (r: (string, string))
  {
    var i := Find(s, ':');
    if 0 < i < |s| && IsLetter(s[0]) && (forall k :: 0 <= k < i ==> IsSchemeChar(s[k]))
    then (Lower(s[..i]), s[i + 1..])
    else ("", s)
  }

  /** After the scheme: a leading `//` opens a network location that runs to the next `/`, `?` or `#`. */
  function SplitNetloc(rest: string): (r: (string, string))
    ensures Excludes(r.0, NetlocEnd)
  {
    if StartsWith(rest, "//") then
      var j := 2 + FindAny(rest[2..], NetlocEnd);
      assert forall k :: 0 <= k < j - 2 ==> rest[2..j][k] == rest[2..][k];
      (rest[2..j], rest[j..])
    else ("", rest)
  }

  /** `urlsplit(s)`: scheme, network location, then the fragment after the first `#`, then the query after the first `?`. */
  function SplitUrl(s: string): (p: Parts)
    ensures WellFormed(p)
  {
    var (scheme, rest) := SplitScheme(s);
    var (netloc, tail) := SplitNetloc(rest);
    var (beforeHash, fragment) := SplitOnce(tail, '#');
    var (path, query) := SplitOnce(beforeHash, '?');
    assert Excludes(beforeHash, {'#'});
    assert Excludes(path, {'?', '#'}) && Excludes(query, {'#'}) by {
      if '?' in beforeHash {
        ExcludesConcat(path + ['?'], query, {'#'});
        ExcludesConcat(path, ['?'], {'#'});
      }
    }
    Parts(scheme, netloc, path, query, fragment)
  }

  /** Schemes whose paths `urlparse` splits `;params` from (`urllib.parse.uses_params`). */
  const UsesParams: set<string> :=
    {"", "ftp", "hdl", "prospero", "http", "imap", "https", "shttp", "rtsp", "rtsps", "rtspu",
     "sip", "sips", "mms", "sftp", "tel"}

  /** No `;` lies in the last segment of `path`, so `urlparse` sets no parameters apart from it. */
  predicate NoParams(path: string)
  {
    forall i :: 0 <= i < |path| && path[i] == ';' ==> '/' in path[i + 1..]
  }

  /**
   * The path `urlparse` keeps once it has set the parameters apart: with a `/` in the path,
   * the text before the first `;` at or after the last `/`; without one, the text before the first `;`.
   */
  function DropParams(path: string): (r: string)
    ensures |r| <= |path| && r == path[..|r|]
    ensures NoParams(r)
    ensures NoParams(path) ==> r == path
    ensures |r| < |path| ==> path[|r|] == ';' && '/' !in path[|r| + 1..]
  {
    if '/' in path then
      var k := FindLast(path, '/');
      var i := k + Find(path[k..], ';');
      assert path[k..][0] == '/';
      assert forall j :: k <= j < i ==> path[j] == path[k..][j - k];
      assert i < |path| ==> path[i] == ';' && forall j :: i < j < |path| ==> path[j] != '/';
      path[..i]
    else
      var i := Find(path, ';');
      assert i < |path| ==> path[i] == ';' && '/' !in path[i + 1..];
      path[..i]
  }

  /** The parameters of the last segment are cut off; a `;` in an earlier segment is kept. */
  lemma DropParamsExamples()
    ensures DropParams("/a;x") == "/a"
    ensures DropParams("/a;x/b") == "/a;x/b"
  {
    assert FindLast("/a;x", '/') == 0;
    assert Find("/a;x", ';') == 2;
    assert FindLast("/a;x/b", '/') == 4;
    assert Find("/b", ';') == 2;
  }

  /** The record `urlparse` gives for the record `urlsplit` gave: the parameters are dropped from the path for a scheme that has them. */
  function ParamsOff(p: Parts): (r: Parts)
    requires WellFormed(p)
    ensures WellFormed(r)
    ensures r.scheme in UsesParams ==> NoParams(r.path)
    ensures r.scheme == p.scheme && r.netloc == p.netloc && r.query == p.query && r.fragment == p.fragment
    ensures r.path == if p.scheme in UsesParams then DropParams(p.path) else p.path
  {
    if p.scheme in UsesParams then
      var path := DropParams(p.path);
      ExcludesSlice(p.path, 0, |path|, {'?', '#'});
      p.(path := path)
    else p
  }

  /** `urlparse(s)`: `urlsplit(s)` with the parameters of the last path segment set apart; they are not kept, as no caller uses them. */
  function Split(s: string): (p: Parts)
    ensures WellFormed(p)
    ensures p.scheme in UsesParams ==> NoParams(p.path)
  {
    ParamsOff(SplitUrl(s))
  }

  /** Schemes for which `urljoin` resolves a relative reference (`urllib.parse.uses_relative`). */
  const UsesRelative: set<string> :=
    {"", "ftp", "http", "gopher", "nntp", "imap", "wais", "file", "https", "shttp", "mms",
     "prospero", "rtsp", "rtsps", "rtspu", "sftp", "svn", "svn+ssh", "ws", "wss"}

  /** Section 5.2.3 of RFC 3986: merge a relative path with the base path. */
  function Merge(base: Parts, refPath: string): (r: string)
    ensures |refPath| <= |r| && r[|r| - |refPath|..] == refPath
    ensures base.netloc != "" && base.path == "" ==> r == "/" + refPath
    ensures !(base.netloc != "" && base.path == "") && '/' !in base.path ==> r == refPath
    ensures !(base.netloc != "" && base.path == "") && '/' in base.path ==>
              var dir := r[..|r| - |refPath|];
              dir != "" && dir[|dir| - 1] == '/' && |dir| <= |base.path| && dir == base.path[..|dir|] && '/' !in base.path[|dir|..]
  {
    if base.netloc != "" && base.path == "" then "/" + refPath
    else
      var k := FindLast(base.path, '/');
      if k == |base.path| then refPath else base.path[..k + 1] + refPath
  }

  lemma MergeExcludes(base: Parts, refPath: string)
    requires Excludes(base.path, {'?', '#'}) && Excludes(refPath, {'?', '#'})
    ensures Excludes(Merge(base, refPath), {'?', '#'})
  {
    var bad := {'?', '#'};
    if base.netloc != "" && base.path == "" {
      ExcludesConcat("/", refPath, bad);
    } else {
      var k := FindLast(base.path, '/');
      if k < |base.path| {
        ExcludesSlice(base.path, 0, k + 1, bad);
        ExcludesConcat(base.path[..k + 1], refPath, bad);
      }
    }
  }

  /** Length of the first segment of a path: an initial `/`, if any, and the characters up to the next `/`. */
  function SegmentLength(input: string): (n: nat)
    requires input != ""
    ensures 1 <= n <= |input|
  {
    if input[0] == '/' then 1 + Find(input[1..], '/') else Find(input, '/')
  }

  /** Removes the last segment of the output buffer together with the `/` before it. */
  function DropLastSegment(output: string): (r: string)
    ensures |r| <= |output| && r == output[..|r|]
  {
    var k := FindLast(output, '/');
    if k == |output| then "" else output[..k]
  }

  /** The loop of section 5.2.4 of RFC 3986, one step per call: steps A to E on (input, output). */
  function RemoveDots(input: string, output: string): (r: string)
    decreases |input|
  {
    if input == "" then output
    else if StartsWith(input, "../") then RemoveDots(input[3..], output)
    else if StartsWith(input, "./") then RemoveDots(input[2..], output)
    else if StartsWith(input, "/./") then RemoveDots(input[2..], output)
    else if input == "/." then RemoveDots("/", output)
    else if StartsWith(input, "/../") then RemoveDots(input[3..], DropLastSegment(output))
    else if input == "/.." then RemoveDots("/", DropLastSegment(output))
    else if input == "." || input == ".." then output
    else
      var n := SegmentLength(input);
      RemoveDots(input[n..], output + input[..n])
  }

  /** Section 5.2.4 of RFC 3986: remove the `.` and `..` segments of a path; a path without them is kept. */
  function RemoveDotSegments(path: string): (r: string)
    ensures DotFree(path) ==> r == path
  {
    RemoveDotsDotFree(path, "");
    RemoveDots(path, "")
  }

  /** A path made of segments that each start with `/`, none of them `.` or `..` (the empty path included). */
  predicate DotFree(p: string)
    decreases |p|
  {
    p == "" || (p[0] == '/' && p[1..SegmentLength(p)] != "." && p[1..SegmentLength(p)] != ".." && DotFree(p[SegmentLength(p)..]))
  }

  /** When the first segment of a path starting with `/` is `.` and when it is `..`, in terms of its characters. */
  lemma SegmentIsDot(p: string)
    requires p != "" && p[0] == '/'
    ensures p[1..SegmentLength(p)] == "." <==> |p| >= 2 && p[1] == '.' && (|p| == 2 || p[2] == '/')
    ensures p[1..SegmentLength(p)] == ".." <==> |p| >= 3 && p[1] == '.' && p[2] == '.' && (|p| == 3 || p[3] == '/')
  {
    var n := SegmentLength(p);
    var k := Find(p[1..], '/');
    assert n == 1 + k;
    assert forall j :: 0 <= j < k ==> p[1 + j] == p[1..][j] && p[1 + j] != '/';
    assert 1 + k < |p| ==> p[1 + k] == '/';
  }

  /** A path whose first segment starts with `/` and is neither `.` nor `..` starts with none of the prefixes that steps B and C of the loop remove. */
  lemma DotFreeHead(input: string)
    requires input != "" && input[0] == '/' && input[1..SegmentLength(input)] != "." && input[1..SegmentLength(input)] != ".."
    ensures !StartsWith(input, "/./") && input != "/." && !StartsWith(input, "/../") && input != "/.."
  {
    SegmentIsDot(input);
    assert !(|input| >= 2 && input[1] == '.' && (|input| == 2 || input[2] == '/'));
    assert !(|input| >= 3 && input[1] == '.' && input[2] == '.' && (|input| == 3 || input[3] == '/'));
  }

  /** On such a path the loop takes step E: the first segment moves to the output. */
  lemma RemoveDotsMovesSegment(input: string, output: string)
    requires input != "" && input[0] == '/' && input[1..SegmentLength(input)] != "." && input[1..SegmentLength(input)] != ".."
    ensures RemoveDots(input, output) == RemoveDots(input[SegmentLength(input)..], output + input[..SegmentLength(input)])
  {
    DotFreeHead(input);
    assert !StartsWith(input, "../") && !StartsWith(input, "./") && input != "." && input != ".." by {
      assert input[0] != '.';
    }
  }

  /** A non-empty dot-free path: its first segment is neither `.` nor `..`, and the rest is dot-free. */
  lemma DotFreeFirst(p: string)
    requires p != "" && DotFree(p)
    ensures p[0] == '/' && p[1..SegmentLength(p)] != "." && p[1..SegmentLength(p)] != ".." && DotFree(p[SegmentLength(p)..])
  {
  }

  /** The loop ends when the input is empty. */
  lemma RemoveDotsEnd(output: string)
    ensures RemoveDots("", output) == output
  {
  }

  /** A path without a segment to remove is copied to the output unchanged. */
  lemma {:induction false} RemoveDotsDotFree(input: string, output: string)
    ensures DotFree(input) ==> RemoveDots(input, output) == output + input
    decreases |input|
  {
    hide RemoveDots, DotFree, SegmentLength;
    if input == "" {
      RemoveDotsEnd(output);
    } else if DotFree(input) {
      var n := SegmentLength(input);
      DotFreeFirst(input);
      RemoveDotsMovesSegment(input, output);
      RemoveDotsDotFree(input[n..], output + input[..n]);
      assert (output + input[..n]) + input[n..] == output + input by {
        assert input[..n] + input[n..] == input;
      }
    }
  }

  /** Putting `/x` in front of a dot-free path keeps it dot-free when `x` is a segment other than `.` and `..`. */
  lemma DotFreeCons(x: string, p: string)
    requires '/' !in x && x != "." && x != ".."
    requires DotFree(p)
    ensures DotFree("/" + x + p)
  {
    var q := "/" + x + p;
    var n := 1 + |x|;
    assert q[1..][..|x|] == x && q[n..] == p;
    assert SegmentLength(q) == n by {
      assert p != "" ==> q[1..][|x|] == '/';
    }
  }

  /** Removing dot segments only moves and deletes characters, and it adds none but `/`. */
  lemma {:induction false} RemoveDotsExcludes(input: string, output: string, bad: set<char>)
    requires '/' !in bad
    requires Excludes(input, bad) && Excludes(output, bad)
    ensures Excludes(RemoveDots(input, output), bad)
    decreases |input|
  {
    if input == "" {
    } else if StartsWith(input, "../") {
      ExcludesSlice(input, 3, |input|, bad);
      RemoveDotsExcludes(input[3..], output, bad);
    } else if StartsWith(input, "./") || StartsWith(input, "/./") {
      ExcludesSlice(input, 2, |input|, bad);
      RemoveDotsExcludes(input[2..], output, bad);
    } else if input == "/." {
      RemoveDotsExcludes("/", output, bad);
    } else if StartsWith(input, "/../") {
      ExcludesSlice(input, 3, |input|, bad);
      var o := DropLastSegment(output);
      ExcludesSlice(output, 0, |o|, bad);
      RemoveDotsExcludes(input[3..], o, bad);
    } else if input == "/.." {
      var o := DropLastSegment(output);
      ExcludesSlice(output, 0, |o|, bad);
      RemoveDotsExcludes("/", o, bad);
    } else if input == "." || input == ".." {
    } else {
      var n := SegmentLength(input);
      ExcludesSlice(input, n, |input|, bad);
      ExcludesSlice(input, 0, n, bad);
      ExcludesConcat(output, input[..n], bad);
      RemoveDotsExcludes(input[n..], output + input[..n], bad);
    }
  }

  /**
   * `urljoin`'s test for a reference without a path, `not path and not params` on the
   * record `urlparse` gives: for a scheme with parameters the path `;` counts as empty,
   * since both its path and its parameters are empty.
   */
  predicate EmptyReference(scheme: string, path: string)
  {
    path == "" || (path == ";" && scheme in UsesParams)
  }

  /** A reference that `urljoin` resolves against the base: no other scheme, no network location, and a relative-capable scheme. */
  predicate Relative(base: Parts, ref: Parts)
  {
    ref.netloc == "" && (ref.scheme == "" || ref.scheme == base.scheme) && base.scheme in UsesRelative
  }

  /**
   * `urljoin` on the records `urlsplit` gives (parameters stay in the path until the
   * result is parsed again): a reference with another scheme, or one naming a network
   * location, is taken as it is; an empty path keeps the base path (and the base query
   * when the reference has none); any other path is merged with the base path and its
   * dot segments are removed. The fragment is always the reference's.
   */
  function Resolve(base: Parts, ref: Parts): (r: Parts)
    ensures r.fragment == ref.fragment
    ensures ref.netloc != "" ==> r.netloc == ref.netloc && r.path == ref.path && r.query == ref.query
    ensures ref.scheme != "" && ref.scheme != base.scheme ==> r == ref
    ensures Relative(base, ref) ==> r.scheme == base.scheme && r.netloc == base.netloc
    ensures Relative(base, ref) && EmptyReference(base.scheme, ref.path) ==>
              r.path == base.path && r.query == (if ref.query == "" then base.query else ref.query)
    ensures Relative(base, ref) && !EmptyReference(base.scheme, ref.path) ==>
              r.query == ref.query && r.path != "" &&
              var merged := if ref.path[0] == '/' then ref.path else Merge(base, ref.path);
              DotFree(merged) ==> r.path == merged
  {
    var scheme := if ref.scheme == "" then base.scheme else ref.scheme;
    if scheme != base.scheme || scheme !in UsesRelative then ref
    else if ref.netloc != "" then ref.(scheme := scheme)
    else if EmptyReference(scheme, ref.path) then
      Parts(scheme, base.netloc, base.path, if ref.query == "" then base.query else ref.query, ref.fragment)
    else
      var merged := if ref.path[0] == '/' then ref.path else Merge(base, ref.path);
      var resolved := RemoveDotSegments(merged);
      Parts(scheme, base.netloc, if resolved == "" then "/" else resolved, ref.query, ref.fragment)
  }

  /** Step B of the loop: a leading `/./` becomes `/`. */
  lemma RemoveDotsSkipDot(t: string, output: string)
    ensures RemoveDots("/./" + t, output) == RemoveDots("/" + t, output)
  {
    var input := "/./" + t;
    assert StartsWith(input, "/./") && !StartsWith(input, "../") && !StartsWith(input, "./");
    assert input[2..] == "/" + t;
  }

  /** The references of the crawler's tests against `https://example.com/`: `./a`, `/a` and `/a#frag` all name the page `/a`. */
  lemma ResolveRootExamples()
    ensures Resolve(Parts("https", "example.com", "/", "", ""), Parts("", "", "./a", "", "")).path == "/a"
    ensures Resolve(Parts("https", "example.com", "/", "", ""), Parts("", "", "/a", "", "")).path == "/a"
    ensures Resolve(Parts("https", "example.com", "/", "", ""), Parts("", "", "/a", "", "frag")) ==
              Parts("https", "example.com", "/a", "", "frag")
  {
    var base := Parts("https", "example.com", "/", "", "");
    DotFreeCons("a", "");
    assert "/" + "a" + "" == "/a";
    assert Merge(base, "./a") == "/./a";
    RemoveDotsSkipDot("a", "");
    assert "/./" + "a" == "/./a";
    RemoveDotsDotFree("/a", "");
    hide RemoveDots, Merge, DotFree;
    assert RemoveDotSegments("/./a") == "/a";
  }

  /** `about#team` against `/blog/` is `/blog/about`, with the fragment `team`. */
  lemma ResolveDirectoryExample()
    ensures Resolve(Parts("https", "example.com", "/blog/", "", ""), Parts("", "", "about", "", "team")) ==
              Parts("https", "example.com", "/blog/about", "", "team")
  {
    hide Resolve, RemoveDotSegments, RemoveDots, Merge, DotFree, FindLast, Find;
    MergeDirectoryExample();
    DotFreeDirectoryExample();
  }

  lemma MergeDirectoryExample()
    ensures Merge(Parts("https", "example.com", "/blog/", "", ""), "about") == "/blog/about"
  {
    assert FindLast("/blog/", '/') == 5;
  }

  lemma DotFreeDirectoryExample()
    ensures DotFree("/blog/about")
  {
    hide DotFree, SegmentLength, Find;
    DotFreeCons("about", "");
    assert "/" + "about" + "" == "/about";
    DotFreeCons("blog", "/about");
    assert "/" + "about" + "" == "/about" && "/" + "blog" + "/about" == "/blog/about";
  }

  /** The reference `;` keeps both the path and the query of the base. */
  lemma ResolveSemicolonExample()
    ensures Resolve(Parts("https", "e.com", "/a/b", "q=1", ""), Parts("", "", ";", "", "")) ==
              Parts("https", "e.com", "/a/b", "q=1", "")
  {
  }

  /** Resolution keeps every component free of the delimiters that end it. */
  lemma ResolveWellFormed(base: Parts, ref: Parts)
    requires WellFormed(base) && WellFormed(ref)
    ensures WellFormed(Resolve(base, ref))
  {
    var scheme := if ref.scheme == "" then base.scheme else ref.scheme;
    if scheme == base.scheme && scheme in UsesRelative && ref.netloc == "" && !EmptyReference(scheme, ref.path) {
      if ref.path[0] != '/' { MergeExcludes(base, ref.path); }
      var merged := if ref.path[0] == '/' then ref.path else Merge(base, ref.path);
      RemoveDotsExcludes(merged, "", {'?', '#'});
    }
  }

  /** `urlparse(urljoin(base, href))`. */
  function Join(base: string, href: string): (r: Parts)
    ensures WellFormed(r)
    ensures r.scheme in UsesParams ==> NoParams(r.path)
  {
    if base == "" then Split(href)
    else if href == "" then Split(base)
    else
      ResolveWellFormed(SplitUrl(base), SplitUrl(href));
      ParamsOff(Resolve(SplitUrl(base), SplitUrl(href)))
  }

  /** `urlunparse((scheme, netloc, path, "", query, ""))` for an http(s) record whose path starts with `/`. */
  function Unparse(scheme: string, netloc: string, path: string, query: string): (r: string)
    requires scheme == "http" || scheme == "https"
    requires path != "" && path[0] == '/'
  {
    scheme + "://" + netloc + path + (if query == "" then "" else "?" + query)
  }

  lemma SplitSchemeWeb(scheme: string, rest: string)
    requires scheme == "http" || scheme == "https"
    ensures SplitScheme(scheme + ":" + rest) == (scheme, rest)
  {
    var s := scheme + ":" + rest;
    assert s[|scheme|] == ':';
    assert forall j :: 0 <= j < |scheme| ==> s[j] == scheme[j] && s[j] != ':' && IsSchemeChar(s[j]);
    assert Find(s, ':') == |scheme|;
    assert s[..|scheme|] == scheme && IsLower(scheme);
    assert s[|scheme| + 1..] == rest;
  }

  lemma SplitNetlocBeforePath(netloc: string, after: string)
    requires Excludes(netloc, NetlocEnd)
    requires after != "" && after[0] == '/'
    ensures SplitNetloc("//" + netloc + after) == (netloc, after)
  {
    var rest := "//" + netloc + after;
    assert rest[2..] == netloc + after;
    assert (netloc + after)[|netloc|] == '/';
    assert forall j :: 0 <= j < |netloc| ==> (netloc + after)[j] == netloc[j];
    assert FindAny(rest[2..], NetlocEnd) == |netloc|;
    assert rest[2..2 + |netloc|] == netloc;
    assert rest[2 + |netloc|..] == after;
  }

  lemma SplitOnceAt(a: string, c: char, b: string)
    requires c !in a
    ensures SplitOnce(a + [c] + b, c) == (a, b)
  {
    var s := a + [c] + b;
    assert s[|a|] == c;
    assert forall j :: 0 <= j < |a| ==> s[j] == a[j];
    assert Find(s, c) == |a|;
    assert s[..|a|] == a;
    assert s[|a| + 1..] == b;
  }

  /** Parsing what `Unparse` wrote gives back the same components and no fragment. */
  lemma SplitUnparse(scheme: string, netloc: string, path: string, query: string)
    requires scheme == "http" || scheme == "https"
    requires Excludes(netloc, NetlocEnd)
    requires path != "" && path[0] == '/' && Excludes(path, {'?', '#'}) && NoParams(path)
    requires Excludes(query, {'#'})
    ensures SplitUrl(Unparse(scheme, netloc, path, query)) == Parts(scheme, netloc, path, query, "")
    ensures Split(Unparse(scheme, netloc, path, query)) == Parts(scheme, netloc, path, query, "")
  {
    var tailQ := if query == "" then "" else "?" + query;
    var after := path + tailQ;
    var rest := "//" + netloc + after;
    assert Unparse(scheme, netloc, path, query) == scheme + ":" + rest;
    SplitSchemeWeb(scheme, rest);
    SplitNetlocBeforePath(netloc, after);
    ExcludesConcat(path, tailQ, {'#'});
    if query != "" { ExcludesConcat("?", query, {'#'}); }
    assert '#' !in after;
    assert SplitOnce(after, '#') == (after, "");
    if query == "" {
      assert after == path && '?' !in path;
    } else {
      assert after == path + ['?'] + query;
      SplitOnceAt(path, '?', query);
    }
    assert SplitUrl(Unparse(scheme, netloc, path, query)) == Parts(scheme, netloc, path, query, "");
  }

  /** A reference without a scheme, a network location or a query: `urlsplit` gives its path and its fragment. */
  lemma SplitRelative(path: string, fragment: string)
    requires Excludes(path, {':', '?', '#'}) && ':' !in fragment && !StartsWith(path, "//")
    ensures SplitUrl(path) == Parts("", "", path, "", "")
    ensures SplitUrl(path + "#" + fragment) == Parts("", "", path, "", fragment)
  {
    assert ':' !in path;
    assert SplitScheme(path) == ("", path);
    var s := path + "#" + fragment;
    assert s[..|path|] == path;
    assert ':' !in s by {
      ExcludesConcat(path, "#", {':'});
      ExcludesConcat(path + "#", fragment, {':'});
    }
    assert SplitScheme(s) == ("", s);
    assert !StartsWith(s, "//") by {
      if |path| < 2 {
        assert s[|path|] == '#';
      } else {
        assert s[..2] == path[..2];
      }
    }
    assert '#' !in path;
    SplitOnceAt(path, '#', fragment);
  }

  /** `urlsplit("https://example.com/")`. */
  lemma SplitRootExample()
    ensures SplitUrl("https://example.com/") == Parts("https", "example.com", "/", "", "")
  {
    assert Unparse("https", "example.com", "/", "") == "https://example.com/";
    SplitUnparse("https", "example.com", "/", "");
  }

  /** The references of the crawler's tests against `https://example.com/`, parsed and resolved: `./a`, `/a` and `/a#frag` all name the page `/a`. */
  lemma JoinRootExamples()
    ensures Join("https://example.com/", "./a") == Parts("https", "example.com", "/a", "", "")
    ensures Join("https://example.com/", "/a") == Parts("https", "example.com", "/a", "", "")
    ensures Join("https://example.com/", "/a#frag") == Parts("https", "example.com", "/a", "", "frag")
  {
    hide SplitUrl, Resolve, DropParams, Unparse;
    SplitRootExample();
    assert "./a"[..2] == "./" && "/a"[..2] == "/a";
    SplitRelative("./a", "");
    SplitRelative("/a", "frag");
    assert "/a" + "#" + "frag" == "/a#frag";
    ResolveRootExamples();
    assert NoParams("/a");
  }

  /** `urlsplit("https://example.com/blog/")`. */
  lemma SplitDirectoryExample()
    ensures SplitUrl("https://example.com/blog/") == Parts("https", "example.com", "/blog/", "", "")
  {
    assert Unparse("https", "example.com", "/blog/", "") == "https://example.com/blog/";
    SplitUnparse("https", "example.com", "/blog/", "");
  }

  /** `urlsplit("https://e.com/a/b?q=1")`. */
  lemma SplitQueryExample()
    ensures SplitUrl("https://e.com/a/b?q=1") == Parts("https", "e.com", "/a/b", "q=1", "")
  {
    assert Unparse("https", "e.com", "/a/b", "q=1") == "https://e.com/a/b?q=1";
    SplitUnparse("https", "e.com", "/a/b", "q=1");
  }

  /** `about#team` against `https://example.com/blog/`, parsed and resolved. */
  lemma JoinDirectoryExample()
    ensures Join("https://example.com/blog/", "about#team") == Parts("https", "example.com", "/blog/about", "", "team")
  {
    hide SplitUrl, Resolve, DropParams, Unparse;
    SplitDirectoryExample();
    assert "about"[..2] == "ab";
    SplitRelative("about", "team");
    assert "about" + "#" + "team" == "about#team";
    ResolveDirectoryExample();
    NoParamsNoSemicolon("/blog/about");
  }

  /** The reference `;` against `https://e.com/a/b?q=1`: the base path and query are kept. */
  lemma JoinSemicolonExample()
    ensures Join("https://e.com/a/b?q=1", ";") == Parts("https", "e.com", "/a/b", "q=1", "")
  {
    hide SplitUrl, Resolve, DropParams, Unparse;
    SplitQueryExample();
    SplitRelative(";", "");
    ResolveSemicolonExample();
    NoParamsNoSemicolon("/a/b");
  }

  /** A path without any `;` has no parameters. */
  lemma NoParamsNoSemicolon(path: string)
    requires ';' !in path
    ensures NoParams(path)
  {
  }
}
