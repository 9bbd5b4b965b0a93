/** The URL canonicaliser: `normalise_url`, `canonicalize_start`, `same_subdomain` and `_collapse_slashes`. */
module UrlUtils {
  import opened Wrappers
  import opened Text
  import opened UrlParse

  predicate NoDoubleSlash(s: string)
  {
    forall i :: 0 <= i < |s| - 1 ==> !(s[i] == '/' && s[i + 1] == '/')
  }

  /** The characters of `s` other than `/`, in their order. */
  function NonSlash(s: string): (r: string)
    ensures |r| <= |s|
    ensures '/' !in r
    ensures '/' !in s ==> r == s
  {
    if s == "" then ""
    else if s[0] == '/' then NonSlash(s[1..])
    else [s[0]] + NonSlash(s[1..])
  }

  /** `re.sub(r"/{2,}", "/", s)`: every run of two or more slashes becomes one slash. */
  function CollapseRuns(s: string): (r: string)
    ensures NoDoubleSlash(r)
    ensures NoDoubleSlash(s) ==> r == s
    ensures NonSlash(r) == NonSlash(s)
    ensures s != "" ==> r != "" && r[0] == s[0]
    ensures |r| <= |s|
    ensures forall i :: 0 <= i < |r| ==> r[i] in s
  {
    if |s| <= 1 then s
    else if s[0] == '/' && s[1] == '/' then CollapseRuns(s[1..])
    else
      var t := CollapseRuns(s[1..]);
      assert ([s[0]] + t)[1..] == t;
      [s[0]] + t
  }

  /** `_collapse_slashes`: slash runs collapsed, and a leading `/` guaranteed. */
  function CollapseSlashes(path: string): (r: string)
    ensures r != "" && r[0] == '/'
    ensures NoDoubleSlash(r)
    ensures path != "" && path[0] == '/' && NoDoubleSlash(path) ==> r == path
    ensures NonSlash(r) == NonSlash(path)
    ensures forall i :: 0 <= i < |r| ==> r[i] == '/' || r[i] in path
  {
    if path == "" then "/"
    else
      var collapsed := CollapseRuns(path);
      if StartsWith(collapsed, "/") then collapsed else "/" + collapsed
  }

  /** `//x//y` becomes `/x/y`. */
  lemma CollapseSlashesExample()
    ensures CollapseSlashes("//x//y") == "/x/y"
  {
    hide CollapseSlashes, CollapseRuns, NonSlash, NoDoubleSlash;
    CollapseSlashesRooted("//x//y");
    assert "//x//y" == "//" + "x//y" && "x//y" == ['x'] + "//y" && "//y" == "//" + "y";
    CollapseRunsDouble("x//y");
    CollapseRunsKeep('/', "x//y");
    CollapseRunsKeep('x', "//y");
    CollapseRunsDouble("y");
    CollapseRunsKeep('/', "y");
    CollapseRunsShort("y");
  }

  /** A run `//` at the front counts as one slash. */
  lemma CollapseRunsDouble(t: string)
    ensures CollapseRuns("//" + t) == CollapseRuns("/" + t)
  {
    assert ("//" + t)[1..] == "/" + t;
  }

  /** A character that does not start a run is kept in front. */
  lemma CollapseRunsKeep(c: char, t: string)
    requires t != "" && !(c == '/' && t[0] == '/')
    ensures CollapseRuns([c] + t) == [c] + CollapseRuns(t)
  {
    assert ([c] + t)[1..] == t;
  }

  /** A string of at most one character has no runs. */
  lemma CollapseRunsShort(s: string)
    requires |s| <= 1
    ensures CollapseRuns(s) == s
  {
  }

  /** A path that starts with `/` only has its runs collapsed. */
  lemma CollapseSlashesRooted(path: string)
    requires path != "" && path[0] == '/'
    ensures CollapseSlashes(path) == CollapseRuns(path)
  {
  }

  /** Collapsing twice is collapsing once. */
  lemma CollapseSlashesIdempotent(path: string)
    ensures CollapseSlashes(CollapseSlashes(path)) == CollapseSlashes(path)
  {
  }

  /** A collapsed path keeps the absence of any character other than `/`. */
  lemma CollapseSlashesExcludes(path: string, bad: set<char>)
    requires '/' !in bad && Excludes(path, bad)
    ensures Excludes(CollapseSlashes(path), bad)
  {
    var r := CollapseSlashes(path);
    forall i | 0 <= i < |r| ensures r[i] !in bad {
      if r[i] != '/' {
        assert r[i] in path;
        var k :| 0 <= k < |path| && path[k] == r[i];
      }
    }
  }

  /** Collapsing slash runs keeps a slash when there was one. */
  lemma {:induction false} CollapseRunsKeepsSlash(s: string)
    requires '/' in s
    ensures '/' in CollapseRuns(s)
  {
    if |s| > 1 && s[0] != '/' {
      assert s == [s[0]] + s[1..];
      CollapseRunsKeepsSlash(s[1..]);
      assert CollapseRuns(s) == [s[0]] + CollapseRuns(s[1..]);
    } else if |s| > 1 && s[1] == '/' {
      CollapseRunsKeepsSlash(s[1..]);
    }
  }

  /** Dropping the first character keeps a path free of parameters. */
  lemma NoParamsTail(s: string)
    requires s != [] && NoParams(s)
    ensures NoParams(s[1..])
  {
    var t := s[1..];
    forall i | 0 <= i < |t| && t[i] == ';' ensures '/' in t[i + 1..] {
      assert s[i + 1] == ';' && s[i + 2..] == t[i + 1..];
    }
  }

  /** Putting a character in front keeps a path free of parameters, unless it is a `;` with no `/` after it. */
  lemma NoParamsCons(x: char, t: string)
    requires NoParams(t) && (x == ';' ==> '/' in t)
    ensures NoParams([x] + t)
  {
    var r := [x] + t;
    forall i | 0 <= i < |r| && r[i] == ';' ensures '/' in r[i + 1..] {
      if i == 0 {
        assert r[1..] == t;
      } else {
        assert r[i + 1..] == t[i..] && t[i - 1] == ';';
      }
    }
  }

  /** Collapsing slash runs keeps every `;` followed by a later `/`. */
  lemma {:induction false} CollapseRunsNoParams(s: string)
    requires NoParams(s)
    ensures NoParams(CollapseRuns(s))
  {
    if |s| > 1 {
      var t := s[1..];
      NoParamsTail(s);
      CollapseRunsNoParams(t);
      if !(s[0] == '/' && s[1] == '/') {
        assert CollapseRuns(s) == [s[0]] + CollapseRuns(t);
        if s[0] == ';' {
          assert s[0 + 1..] == t;
          CollapseRunsKeepsSlash(t);
        }
        NoParamsCons(s[0], CollapseRuns(t));
      }
    }
  }

  /** A path with no parameters in its last segment has none after collapsing either. */
  lemma CollapseSlashesNoParams(path: string)
    requires NoParams(path)
    ensures NoParams(CollapseSlashes(path))
  {
    if path != "" {
      CollapseRunsNoParams(path);
      NoParamsCons('/', CollapseRuns(path));
    }
  }

  /** `s.rsplit(c, 1)[0]`: everything before the last `c`, or all of `s` when `c` does not occur. */
  function BeforeLast(s: string, c: char): (r: string)
    ensures |r| <= |s| && r == s[..|r|]
    ensures c !in s ==> r == s
    ensures c in s ==> |r| < |s| && s[|r|] == c && c !in s[|r| + 1..]
  {
    var k := FindLast(s, c);
    if k == |s| then s else s[..k]
  }

  /** The default-port rule of `normalise_url`: a suffix test on the (already lower-cased) network location. */
  function StripDefaultPort(scheme: string, netloc: string): (r: string)
    ensures |r| <= |netloc| && r == netloc[..|r|]
  {
    if (scheme == "http" && EndsWith(netloc, ":80")) || (scheme == "https" && EndsWith(netloc, ":443"))
    then BeforeLast(netloc, ':')
    else netloc
  }

  lemma BeforeLastSuffix(s: string, port: string)
    requires ':' !in port
    ensures BeforeLast(s + ":" + port, ':') == s
  {
    var t := s + ":" + port;
    assert t[|s|] == ':';
    assert forall j :: |s| < j < |t| ==> t[j] == port[j - |s| - 1];
    assert FindLast(t, ':') == |s|;
    assert t[..|s|] == s;
  }

  /**
   * `:80` is dropped only from an http location and `:443` only from an https one;
   * every other location, whatever port it names, is kept as it is.
   */
  lemma StripDefaultPortSpec(scheme: string, netloc: string)
    ensures scheme == "http" && EndsWith(netloc, ":80") ==>
              StripDefaultPort(scheme, netloc) == netloc[..|netloc| - 3]
    ensures scheme == "https" && EndsWith(netloc, ":443") ==>
              StripDefaultPort(scheme, netloc) == netloc[..|netloc| - 4]
    ensures !(scheme == "http" && EndsWith(netloc, ":80")) && !(scheme == "https" && EndsWith(netloc, ":443")) ==>
              StripDefaultPort(scheme, netloc) == netloc
  {
    if scheme == "http" && EndsWith(netloc, ":80") {
      var host := netloc[..|netloc| - 3];
      assert netloc == host + ":" + "80";
      BeforeLastSuffix(host, "80");
    } else if scheme == "https" && EndsWith(netloc, ":443") {
      var host := netloc[..|netloc| - 4];
      assert netloc == host + ":" + "443";
      BeforeLastSuffix(host, "443");
    }
  }

  /** Stripping a port keeps a prefix of the location, so it stays lower-case and delimiter-free. */
  lemma StripDefaultPortKeeps(scheme: string, netloc: string)
    requires IsLower(netloc) && Excludes(netloc, NetlocEnd)
    ensures IsLower(StripDefaultPort(scheme, netloc))
    ensures Excludes(StripDefaultPort(scheme, netloc), NetlocEnd)
  {
    var r := StripDefaultPort(scheme, netloc);
    assert r == netloc[..|r|];
    ExcludesSlice(netloc, 0, |r|, NetlocEnd);
  }

  predicate IsWebScheme(s: string)
  {
    s == "http" || s == "https"
  }

  /**
   * A canonical URL: it parses to an http(s) record with a lower-case location, a path
   * that starts with `/` and has no `//`, no fragment, and it is the rendering of that record.
   */
  predicate IsCanonical(u: string)
  {
    var q := Split(u);
    && IsWebScheme(q.scheme)
    && IsLower(q.netloc)
    && q.path != "" && q.path[0] == '/' && NoDoubleSlash(q.path)
    && q.fragment == ""
    && u == Unparse(q.scheme, q.netloc, q.path, q.query)
  }

  /**
   * `normalise_url(base_url, href)`: `None` for an empty href or a resolved scheme other
   * than http and https; otherwise the resolved URL with a lower-cased location, its
   * default port removed, slashes collapsed, the query kept and the fragment dropped.
   */
  function NormaliseUrl(baseUrl: string, href: string): (r: Option<string>)
  {
    if href == "" then None
    else
      var p := Join(baseUrl, href);
      if !IsWebScheme(p.scheme) then None
      else
        var netloc := StripDefaultPort(p.scheme, Lower(p.netloc));
        var path := CollapseSlashes(if p.path == "" then "/" else p.path);
        Some(Unparse(p.scheme, netloc, path, p.query))
  }

  /**
   * What `normalise_url` returns: nothing for an empty href or a non-web scheme, and
   * otherwise a canonical URL whose parts are the resolved ones with the location
   * lower-cased and stripped of its default port, the path collapsed (and `/` when
   * empty), the query unchanged and no fragment.
   */
  lemma NormaliseUrlSpec(baseUrl: string, href: string)
    ensures href == "" ==> NormaliseUrl(baseUrl, href) == None
    ensures href != "" ==> (NormaliseUrl(baseUrl, href).Some? <==> IsWebScheme(Join(baseUrl, href).scheme))
    ensures NormaliseUrl(baseUrl, href).Some? ==> IsCanonical(NormaliseUrl(baseUrl, href).value)
    ensures NormaliseUrl(baseUrl, href).Some? ==> NormaliseUrl(baseUrl, href).value != ""
    ensures NormaliseUrl(baseUrl, href).Some? ==>
              var p, q := Join(baseUrl, href), Split(NormaliseUrl(baseUrl, href).value);
              && q.scheme == p.scheme
              && q.netloc == StripDefaultPort(p.scheme, Lower(p.netloc))
              && q.path == CollapseSlashes(if p.path == "" then "/" else p.path)
              && q.query == p.query
              && q.fragment == ""
  {
    if href != "" {
      var p := Join(baseUrl, href);
      if IsWebScheme(p.scheme) {
        NormalisedParts(p, StripDefaultPort(p.scheme, Lower(p.netloc)), CollapseSlashes(if p.path == "" then "/" else p.path));
      }
    }
  }

  /**
   * A resolved URL that is already normal (a web scheme, a lower-case location without
   * its default port, a path that starts with `/` and has no `//`) is rendered as it is,
   * without its fragment.
   */
  lemma NormaliseUrlOfNormal(baseUrl: string, href: string, p: Parts)
    requires href != "" && Join(baseUrl, href) == p
    requires IsWebScheme(p.scheme) && IsLower(p.netloc) && !EndsWith(p.netloc, ":80") && !EndsWith(p.netloc, ":443")
    requires p.path != "" && p.path[0] == '/' && NoDoubleSlash(p.path)
    ensures NormaliseUrl(baseUrl, href) == Some(Unparse(p.scheme, p.netloc, p.path, p.query))
  {
    StripDefaultPortSpec(p.scheme, p.netloc);
  }

  /** The location `example.com` and the paths `/a` and `/blog/about` are already normal. */
  lemma ExampleComParts()
    ensures IsLower("example.com") && !EndsWith("example.com", ":80") && !EndsWith("example.com", ":443")
    ensures NoDoubleSlash("/a") && NoDoubleSlash("/blog/about")
  {
  }

  /** The location `e.com` and the path `/a/b` are already normal. */
  lemma EComParts()
    ensures IsLower("e.com") && !EndsWith("e.com", ":80") && !EndsWith("e.com", ":443")
    ensures NoDoubleSlash("/a/b")
  {
  }

  /** The references of the crawler's tests against `https://example.com/`: `./a`, `/a` and `/a#frag` all give `https://example.com/a`. */
  lemma NormaliseUrlRootExamples()
    ensures NormaliseUrl("https://example.com/", "./a") == Some("https://example.com/a")
    ensures NormaliseUrl("https://example.com/", "/a") == Some("https://example.com/a")
    ensures NormaliseUrl("https://example.com/", "/a#frag") == Some("https://example.com/a")
  {
    hide Join, NormaliseUrl, IsLower, EndsWith, NoDoubleSlash, Unparse;
    JoinRootExamples();
    ExampleComParts();
    var p := Parts("https", "example.com", "/a", "", "");
    NormaliseUrlOfNormal("https://example.com/", "./a", p);
    NormaliseUrlOfNormal("https://example.com/", "/a", p);
    NormaliseUrlOfNormal("https://example.com/", "/a#frag", p.(fragment := "frag"));
    UnparseRootExample();
  }

  /** `about#team` against `https://example.com/blog/` gives `https://example.com/blog/about`. */
  lemma NormaliseUrlDirectoryExample()
    ensures NormaliseUrl("https://example.com/blog/", "about#team") == Some("https://example.com/blog/about")
  {
    hide Join, NormaliseUrl, IsLower, EndsWith, NoDoubleSlash, Unparse;
    JoinDirectoryExample();
    ExampleComParts();
    NormaliseUrlOfNormal("https://example.com/blog/", "about#team", Parts("https", "example.com", "/blog/about", "", "team"));
    UnparseDirectoryExample();
  }

  /** The href `;` gives the base URL back, query included. */
  lemma NormaliseUrlSemicolonExample()
    ensures NormaliseUrl("https://e.com/a/b?q=1", ";") == Some("https://e.com/a/b?q=1")
  {
    hide Join, NormaliseUrl, IsLower, EndsWith, NoDoubleSlash, Unparse;
    JoinSemicolonExample();
    EComParts();
    NormaliseUrlOfNormal("https://e.com/a/b?q=1", ";", Parts("https", "e.com", "/a/b", "q=1", ""));
    UnparseSemicolonExample();
  }

  /** The URL the root examples render. */
  lemma UnparseRootExample()
    ensures Unparse("https", "example.com", "/a", "") == "https://example.com/a"
  {
  }

  /** The URL the directory example renders. */
  lemma UnparseDirectoryExample()
    ensures Unparse("https", "example.com", "/blog/about", "") == "https://example.com/blog/about"
  {
  }

  /** The URL the `;` example renders. */
  lemma UnparseSemicolonExample()
    ensures Unparse("https", "e.com", "/a/b", "q=1") == "https://e.com/a/b?q=1"
  {
  }

  /** The record `normalise_url` renders is well formed, so parsing its output gives it back. */
  lemma NormalisedParts(p: Parts, netloc: string, path: string)
    requires WellFormed(p) && IsWebScheme(p.scheme) && NoParams(p.path)
    requires netloc == StripDefaultPort(p.scheme, Lower(p.netloc))
    requires path == CollapseSlashes(if p.path == "" then "/" else p.path)
    ensures IsLower(netloc) && Excludes(netloc, NetlocEnd)
    ensures Split(Unparse(p.scheme, netloc, path, p.query)) == Parts(p.scheme, netloc, path, p.query, "")
  {
    hide CollapseSlashes, CollapseRuns, NonSlash;
    LowerExcludes(p.netloc, NetlocEnd);
    StripDefaultPortKeeps(p.scheme, Lower(p.netloc));
    CollapseSlashesExcludes(if p.path == "" then "/" else p.path, {'?', '#'});
    CollapseSlashesNoParams(if p.path == "" then "/" else p.path);
    SplitUnparse(p.scheme, netloc, path, p.query);
  }

  /**
   * `canonicalize_start(url)`: the seed normalised against itself; an error exactly
   * when normalisation rejects it, and otherwise a canonical URL with a non-empty path.
   */
  function CanonicalizeStart(url: string): (r: Result<string, string>)
    ensures r.Failure? <==> NormaliseUrl(url, url).None?
    ensures r.Success? ==> r.value == NormaliseUrl(url, url).value
    ensures r.Success? ==> IsCanonical(r.value) && Split(r.value).path != ""
  {
    var n := NormaliseUrl(url, url);
    NormaliseUrlSpec(url, url);
    if n.None? then Failure("Invalid start URL: " + url)
    else
      var p := Split(n.value);
      var path := if p.path == "" then "/" else p.path;
      Success(Unparse(p.scheme, p.netloc, path, p.query))
  }

  /** `same_subdomain(url, root_netloc)`: exact equality of the lower-cased locations; it never fails. */
  function SameSubdomain(url: string, rootNetloc: string): (r: bool)
  {
    Lower(Split(url).netloc) == Lower(rootNetloc)
  }

  /** On a canonical URL the test is equality of its location with the lower-cased root. */
  lemma SameSubdomainCanonical(url: string, rootNetloc: string)
    requires IsCanonical(url)
    ensures SameSubdomain(url, rootNetloc) <==> Split(url).netloc == Lower(rootNetloc)
  {
  }

  /** The test ignores case on both sides, and every URL is in the scope of its own location. */
  lemma SameSubdomainIgnoresCase(url: string, rootNetloc: string)
    ensures SameSubdomain(url, rootNetloc) == SameSubdomain(url, Lower(rootNetloc))
    ensures SameSubdomain(url, Split(url).netloc)
  {
  }

  /** A subdomain of the root, or any location with a label in front of it, is never in scope. */
  lemma SameSubdomainRejectsSubdomains(url: string, sub: string, rootNetloc: string)
    requires Split(url).netloc == sub + "." + rootNetloc
    ensures !SameSubdomain(url, rootNetloc)
  {
    assert |Lower(Split(url).netloc)| == |sub| + 1 + |rootNetloc|;
  }
}
