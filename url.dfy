/**
 * URLs as the crawler sees them through `urllib.parse`: `urlparse` is the
 * component split of RFC 3986 (Appendix B), the inverse recomposition is
 * section 5.3, and `urljoin` is reference resolution as in section 5.2
 * (with the dot-segment removal of section 5.2.4).
 */
module UrlParse {
  import opened Wrappers
  import opened Text

  /** The five components of a URI reference (section 3 of RFC 3986). A missing component is `None`. */
  datatype Url = Url(
    scheme: Option<string>,
    authority: Option<string>,
    path: string,
    query: Option<string>,
    fragment: Option<string>)

  const SchemeStops: set<char> := {':', '/', '?', '#'}
  const AuthorityStops: set<char> := {'/', '?', '#'}
  const PathStops: set<char> := {'?', '#'}

  // ---------------------------------------------------------------------------
  // Parsing (urlparse)
  // ---------------------------------------------------------------------------

  /** `scheme ":"` when the string starts with a non-empty run of non-delimiters followed by a colon. */
  function SplitScheme(s: string): (Option<string>, string)
  {
    var i := IndexOfAny(s, SchemeStops);
    if 0 < i < |s| && s[i] == ':' then (Some(s[..i]), s[i + 1..]) else (None, s)
  }

  /** `"//" authority`, the authority running up to the next `/`, `?` or `#`. */
  function SplitAuthority(s: string): (Option<string>, string)
  {
    if |s| >= 2 && s[0] == '/' && s[1] == '/' then
      var t := s[2..];
      var j := IndexOfAny(t, AuthorityStops);
      (Some(t[..j]), t[j..])
    else (None, s)
  }

  /** The path runs up to the first `?` or `#`. */
  function SplitPath(s: string): (string, string)
  {
    var k := IndexOfAny(s, PathStops);
    (s[..k], s[k..])
  }

  /** `"?" query`, the query running up to the first `#`. */
  function SplitQuery(s: string): (Option<string>, string)
  {
    if |s| > 0 && s[0] == '?' then
      var t := s[1..];
      var m := IndexOfAny(t, {'#'});
      (Some(t[..m]), t[m..])
    else (None, s)
  }

  /** `"#" fragment`, the fragment being the rest of the string. */
  function SplitFragment(s: string): Option<string>
  {
    if |s| > 0 && s[0] == '#' then Some(s[1..]) else None
  }

  /** `urlparse`: split a string into its five components. */
  function Parse(s: string): Url
  {
    var r1 := SplitScheme(s);
    var r2 := SplitAuthority(r1.1);
    var r3 := SplitPath(r2.1);
    var r4 := SplitQuery(r3.1);
    Url(r1.0, r2.0, r3.0, r4.0, SplitFragment(r4.1))
  }

  /** `urlparse(s).netloc`: the authority, or the empty string when there is none. */
  function Netloc(s: string): string
  {
    match Parse(s).authority
    case Some(a) => a
    case None => ""
  }

  // ---------------------------------------------------------------------------
  // Recomposition (section 5.3 of RFC 3986)
  // ---------------------------------------------------------------------------

  function SchemePart(u: Url): string
  {
    match u.scheme case Some(s) => s + ":" case None => ""
  }

  function AuthorityPart(u: Url): string
  {
    match u.authority case Some(a) => "//" + a case None => ""
  }

  function QueryPart(u: Url): string
  {
    match u.query case Some(q) => "?" + q case None => ""
  }

  function FragmentPart(u: Url): string
  {
    match u.fragment case Some(f) => "#" + f case None => ""
  }

  function Recompose(u: Url): string
  {
    SchemePart(u) + AuthorityPart(u) + u.path + QueryPart(u) + FragmentPart(u)
  }

  /**
   * The components that parsing can produce: each component free of the
   * delimiters that end it, a path that cannot be mistaken for an authority
   * or a scheme, and a path that starts with `/` when an authority precedes it.
   */
  ghost predicate WellFormed(u: Url)
  {
    && (u.scheme.Some? ==> u.scheme.value != [] && NoneIn(u.scheme.value, SchemeStops))
    && (u.authority.Some? ==> NoneIn(u.authority.value, AuthorityStops))
    && NoneIn(u.path, PathStops)
    && (u.query.Some? ==> NoneIn(u.query.value, {'#'}))
    && (u.authority.Some? ==> u.path == [] || u.path[0] == '/')
    && (u.authority.None? ==> !(|u.path| >= 2 && u.path[0] == '/' && u.path[1] == '/'))
    && (u.scheme.None? && u.authority.None? ==> !LooksLikeScheme(u.path))
  }

  /** The path would be read back as starting with a scheme. */
  predicate LooksLikeScheme(p: string)
  {
    var i := IndexOfAny(p, SchemeStops);
    0 < i < |p| && p[i] == ':'
  }

  function Prefixed(delim: string, o: Option<string>): string
  {
    match o case Some(x) => delim + x case None => ""
  }

  // The four remainders left by the successive stages of `Parse`.
  function Rest1(s: string): string { SplitScheme(s).1 }
  function Rest2(s: string): string { SplitAuthority(Rest1(s)).1 }
  function Rest3(s: string): string { SplitPath(Rest2(s)).1 }
  function Rest4(s: string): string { SplitQuery(Rest3(s)).1 }

  lemma SchemeStageRejoins(s: string)
    ensures SchemePart(Parse(s)) + Rest1(s) == s
  {
    var i := IndexOfAny(s, SchemeStops);
    if 0 < i < |s| && s[i] == ':' {
      assert s[..i] + ":" + s[i + 1..] == s;
    }
  }

  lemma AuthorityStageRejoins(s: string)
    ensures AuthorityPart(Parse(s)) + Rest2(s) == Rest1(s)
  {
    var r := Rest1(s);
    if |r| >= 2 && r[0] == '/' && r[1] == '/' {
      var t := r[2..];
      var j := IndexOfAny(t, AuthorityStops);
      assert "//" + t[..j] + t[j..] == r;
    }
  }

  lemma PathStageRejoins(s: string)
    ensures Parse(s).path + Rest3(s) == Rest2(s)
  {
    var r := Rest2(s);
    assert Parse(s).path + Rest3(s) == SplitPath(r).0 + SplitPath(r).1;
    SplitPathRejoins(r);
  }

  lemma SplitPathRejoins(r: string)
    ensures SplitPath(r).0 + SplitPath(r).1 == r
  {
    var k := IndexOfAny(r, PathStops);
    assert r[..k] + r[k..] == r;
  }

  lemma QueryStageRejoins(s: string)
    ensures QueryPart(Parse(s)) + FragmentPart(Parse(s)) == Rest3(s)
  {
    var u := Parse(s);
    var r3 := Rest3(s);
    assert QueryPart(u) == Prefixed("?", SplitQuery(r3).0);
    assert FragmentPart(u) == Prefixed("#", SplitFragment(SplitQuery(r3).1));
    PathStageWellFormed(Rest2(s));
    QueryAndFragmentRejoin(r3);
  }

  lemma QueryAndFragmentRejoin(r: string)
    requires r == [] || r[0] in PathStops
    ensures Prefixed("?", SplitQuery(r).0) + Prefixed("#", SplitFragment(SplitQuery(r).1)) == r
  {
    SplitQueryRejoins(r);
    var rest := SplitQuery(r).1;
    assert rest == [] || rest[0] == '#';
    if rest != [] {
      assert "#" + rest[1..] == rest;
    }
  }

  lemma SplitQueryRejoins(s: string)
    ensures Prefixed("?", SplitQuery(s).0) + SplitQuery(s).1 == s
  {
    if |s| > 0 && s[0] == '?' {
      var t := s[1..];
      var m := IndexOfAny(t, {'#'});
      assert "?" + t[..m] + t[m..] == s;
    }
  }

  lemma RecomposeFromParts(s: string, u: Url, r1: string, r2: string, r3: string)
    requires SchemePart(u) + r1 == s
    requires AuthorityPart(u) + r2 == r1
    requires u.path + r3 == r2
    requires QueryPart(u) + FragmentPart(u) == r3
    ensures Recompose(u) == s
  {
  }

  /** Recomposing the parsed components gives back the original string. */
  lemma RecomposeParse(s: string)
    ensures Recompose(Parse(s)) == s
  {
    SchemeStageRejoins(s);
    AuthorityStageRejoins(s);
    PathStageRejoins(s);
    QueryStageRejoins(s);
    RecomposeFromParts(s, Parse(s), Rest1(s), Rest2(s), Rest3(s));
  }

  lemma SchemeStageWellFormed(s: string)
    ensures SplitScheme(s).0.Some? ==>
      SplitScheme(s).0.value != [] && NoneIn(SplitScheme(s).0.value, SchemeStops)
  {
  }

  lemma AuthorityStageWellFormed(r: string)
    ensures SplitAuthority(r).0.Some? ==> NoneIn(SplitAuthority(r).0.value, AuthorityStops)
    ensures SplitAuthority(r).0.Some? ==> Rooted(SplitPath(SplitAuthority(r).1).0)
    ensures SplitAuthority(r).0.None? ==> SplitAuthority(r).1 == r
  {
    if |r| >= 2 && r[0] == '/' && r[1] == '/' {
      var t := r[2..];
      var j := IndexOfAny(t, AuthorityStops);
      var rest := t[j..];
      assert rest == [] || rest[0] in AuthorityStops;
    }
  }

  lemma PathStageWellFormed(r: string)
    ensures NoneIn(SplitPath(r).0, PathStops)
    ensures SplitPath(r).1 == [] || SplitPath(r).1[0] in PathStops
    ensures SplitPath(r).0 <= r
  {
  }

  lemma QueryStageWellFormed(r: string)
    ensures SplitQuery(r).0.Some? ==> NoneIn(SplitQuery(r).0.value, {'#'})
  {
  }

  /** Without a scheme and an authority, the path is not mistaken for either. */
  lemma BarePathWellFormed(s: string)
    requires SplitScheme(s).0.None? && SplitAuthority(s).0.None?
    ensures !LooksLikeScheme(SplitPath(s).0)
    ensures var p := SplitPath(s).0; !(|p| >= 2 && p[0] == '/' && p[1] == '/')
  {
    var k := IndexOfAny(s, PathStops);
    IndexOfAnyPrefix(s, k, SchemeStops);
    var p := s[..k];
    if |p| >= 2 {
      assert p[0] == s[0] && p[1] == s[1];
    }
  }

  /** Without an authority, the path does not start with `//`. */
  lemma NoAuthorityPath(r: string)
    requires SplitAuthority(r).0.None?
    ensures var p := SplitPath(r).0; !(|p| >= 2 && p[0] == '/' && p[1] == '/')
  {
    var p := SplitPath(r).0;
    if |p| >= 2 {
      assert p[0] == r[0] && p[1] == r[1];
    }
  }

  /** Whatever string is parsed, the components are well formed. */
  lemma ParseWellFormed(s: string)
    ensures WellFormed(Parse(s))
  {
    SchemeStageWellFormed(s);
    AuthorityStageWellFormed(Rest1(s));
    PathStageWellFormed(Rest2(s));
    QueryStageWellFormed(Rest3(s));
    if SplitAuthority(Rest1(s)).0.None? {
      NoAuthorityPath(Rest1(s));
      if SplitScheme(s).0.None? {
        BarePathWellFormed(s);
      }
    }
  }

  lemma RecomposeAssoc(u: Url)
    ensures Recompose(u) == SchemePart(u) + (AuthorityPart(u) + (u.path + (QueryPart(u) + FragmentPart(u))))
  {
  }

  /** Parsing the recomposition of well-formed components gives them back. */
  lemma ParseRecompose(u: Url)
    requires WellFormed(u)
    ensures Parse(Recompose(u)) == u
  {
    RecomposeAssoc(u);
    SplitSchemeOf(u);
    SplitAuthorityOf(u);
    SplitPathOf(u);
    SplitQueryOf(u);
  }

  lemma SplitSchemeOf(u: Url)
    requires WellFormed(u)
    ensures SplitScheme(SchemePart(u) + (AuthorityPart(u) + (u.path + (QueryPart(u) + FragmentPart(u)))))
         == (u.scheme, AuthorityPart(u) + (u.path + (QueryPart(u) + FragmentPart(u))))
  {
    var tail := QueryPart(u) + FragmentPart(u);
    var rest1 := AuthorityPart(u) + (u.path + tail);
    match u.scheme
    case Some(sc) =>
      assert SchemePart(u) + rest1 == sc + ":" + rest1;
      SchemeFollowedBy(sc, rest1);
    case None =>
      assert SchemePart(u) + rest1 == rest1;
      if u.authority.Some? {
        assert rest1[0] == '/';
        RootedHasNoScheme(rest1);
      } else {
        assert rest1 == u.path + tail;
        TailStartsWithStop(u);
        BarePathHasNoScheme(u.path, tail);
      }
  }

  /** A scheme is read up to the colon that ends it. */
  lemma SchemeFollowedBy(sc: string, rest: string)
    requires sc != [] && NoneIn(sc, SchemeStops)
    ensures SplitScheme(sc + ":" + rest) == (Some(sc), rest)
  {
    var s := sc + ":" + rest;
    assert s == sc + (":" + rest);
    IndexOfAnyAppend(sc, ":" + rest, SchemeStops);
    assert s[..|sc|] == sc;
    assert s[|sc| + 1..] == rest;
  }

  /** A string that starts with `/` has no scheme. */
  lemma RootedHasNoScheme(s: string)
    requires s != [] && s[0] == '/'
    ensures SplitScheme(s) == (None, s)
  {
    assert IndexOfAny(s, SchemeStops) == 0;
  }

  /** A path that does not look like a scheme, followed by a query or fragment, has no scheme. */
  lemma BarePathHasNoScheme(path: string, tail: string)
    requires !LooksLikeScheme(path)
    requires tail == [] || tail[0] in PathStops
    ensures SplitScheme(path + tail) == (None, path + tail)
  {
    var s := path + tail;
    var i := IndexOfAny(path, SchemeStops);
    if i < |path| {
      assert s[..|path|] == path;
      IndexOfAnyPrefix(s, |path|, SchemeStops);
      assert s[i] == path[i];
    } else {
      IndexOfAnyAppend(path, tail, SchemeStops);
      assert |path| < |s| ==> s[|path|] == tail[0];
    }
  }

  lemma SplitAuthorityOf(u: Url)
    requires WellFormed(u)
    ensures SplitAuthority(AuthorityPart(u) + (u.path + (QueryPart(u) + FragmentPart(u))))
         == (u.authority, u.path + (QueryPart(u) + FragmentPart(u)))
  {
    var tail := QueryPart(u) + FragmentPart(u);
    TailStartsWithStop(u);
    match u.authority
    case Some(a) =>
      assert AuthorityPart(u) + (u.path + tail) == "//" + a + (u.path + tail);
      AuthorityFollowedByPath(a, u.path, tail);
    case None =>
      assert AuthorityPart(u) + (u.path + tail) == u.path + tail;
      NoAuthorityAhead(u.path, tail);
  }

  /** What follows the path of a recomposed URL is empty or starts with `?` or `#`. */
  lemma TailStartsWithStop(u: Url)
    ensures var tail := QueryPart(u) + FragmentPart(u); tail == [] || tail[0] in PathStops
  {
  }

  /** An authority is read up to the rooted path (or query, or fragment) that follows it. */
  lemma AuthorityFollowedByPath(a: string, path: string, tail: string)
    requires NoneIn(a, AuthorityStops)
    requires path == [] || path[0] == '/'
    requires tail == [] || tail[0] in PathStops
    ensures SplitAuthority("//" + a + (path + tail)) == (Some(a), path + tail)
  {
    var rest := path + tail;
    var s := "//" + a + rest;
    assert s[2..] == a + rest;
    assert rest == [] || rest[0] in AuthorityStops by {
      if path == [] {
        assert rest == tail;
      } else {
        assert rest[0] == path[0];
      }
    }
    IndexOfAnyAppend(a, rest, AuthorityStops);
    assert IndexOfAny(rest, AuthorityStops) == 0;
    assert (a + rest)[..|a|] == a;
    assert (a + rest)[|a|..] == rest;
  }

  /** A path that does not start with `//` is not read as an authority. */
  lemma NoAuthorityAhead(path: string, tail: string)
    requires !(|path| >= 2 && path[0] == '/' && path[1] == '/')
    requires tail == [] || tail[0] in PathStops
    ensures SplitAuthority(path + tail) == (None, path + tail)
  {
    var rest := path + tail;
    if |path| >= 2 {
      assert rest[0] == path[0] && rest[1] == path[1];
    } else if |path| == 1 && |tail| > 0 {
      assert rest[1] == tail[0];
    } else if |path| == 0 {
      assert rest == tail;
    }
  }

  lemma SplitPathOf(u: Url)
    requires WellFormed(u)
    ensures SplitPath(u.path + (QueryPart(u) + FragmentPart(u))) == (u.path, QueryPart(u) + FragmentPart(u))
  {
    var rest3 := QueryPart(u) + FragmentPart(u);
    IndexOfAnyAppend(u.path, rest3, PathStops);
    assert rest3 == [] || rest3[0] in PathStops;
    assert (u.path + rest3)[..|u.path|] == u.path;
    assert (u.path + rest3)[|u.path|..] == rest3;
  }

  lemma SplitQueryOf(u: Url)
    requires WellFormed(u)
    ensures SplitQuery(QueryPart(u) + FragmentPart(u)) == (u.query, FragmentPart(u))
    ensures SplitFragment(FragmentPart(u)) == u.fragment
  {
    var f := FragmentPart(u);
    match u.query
    case Some(q) =>
      var s := "?" + q + f;
      assert s[1..] == q + f;
      IndexOfAnyAppend(q, f, {'#'});
      assert f == [] || f[0] == '#';
      assert (q + f)[..|q|] == q;
      assert (q + f)[|q|..] == f;
    case None =>
      assert QueryPart(u) + f == f;
  }

  // ---------------------------------------------------------------------------
  // Cleaning: `absolute_url.split("#")[0].split("?")[0]`
  // ---------------------------------------------------------------------------

  function Clean(s: string): string
  {
    Before(Before(s, '#'), '?')
  }

  /** The components of `u` with its query and fragment dropped. */
  function WithoutQueryAndFragment(u: Url): Url
  {
    u.(query := None, fragment := None)
  }

  /**
   * Cleaning cuts the URL at its first `#` or `?`: it removes exactly the
   * query and the fragment, and keeps scheme, authority and path.
   */
  lemma CleanRemovesQueryAndFragment(s: string)
    ensures Parse(Clean(s)) == WithoutQueryAndFragment(Parse(s))
    ensures Clean(s) == Recompose(WithoutQueryAndFragment(Parse(s)))
  {
    var u := Parse(s);
    ParseWellFormed(s);
    RecomposeParse(s);
    HeadAndTail(u);
    CleanCutsAt(Recompose(WithoutQueryAndFragment(u)), QueryPart(u) + FragmentPart(u));
    ParseRecompose(WithoutQueryAndFragment(u));
  }

  /** A well-formed URL is its query-and-fragment-free head followed by `?query#fragment`. */
  lemma HeadAndTail(u: Url)
    requires WellFormed(u)
    ensures WellFormed(WithoutQueryAndFragment(u))
    ensures Recompose(u) == Recompose(WithoutQueryAndFragment(u)) + (QueryPart(u) + FragmentPart(u))
    ensures NoneIn(Recompose(WithoutQueryAndFragment(u)), PathStops)
    ensures var tail := QueryPart(u) + FragmentPart(u); tail == [] || tail[0] in PathStops
  {
    HeadWellFormed(u);
    HeadThenTail(u);
    HeadHasNoStops(u);
    TailStartsWithStop(u);
  }

  lemma HeadWellFormed(u: Url)
    requires WellFormed(u)
    ensures WellFormed(WithoutQueryAndFragment(u))
  {
  }

  lemma HeadThenTail(u: Url)
    ensures Recompose(u) == Recompose(WithoutQueryAndFragment(u)) + (QueryPart(u) + FragmentPart(u))
  {
  }

  lemma HeadHasNoStops(u: Url)
    requires WellFormed(u)
    ensures NoneIn(Recompose(WithoutQueryAndFragment(u)), PathStops)
  {
    assert Recompose(WithoutQueryAndFragment(u)) == SchemePart(u) + AuthorityPart(u) + u.path;
    SchemePartNoPathStops(u);
    AuthorityPartNoPathStops(u);
    NoneInConcat(SchemePart(u), AuthorityPart(u), PathStops);
    NoneInConcat(SchemePart(u) + AuthorityPart(u), u.path, PathStops);
  }

  lemma SchemePartNoPathStops(u: Url)
    requires WellFormed(u)
    ensures NoneIn(SchemePart(u), PathStops)
  {
    if u.scheme.Some? {
      var sc := u.scheme.value;
      forall i | 0 <= i < |sc| ensures sc[i] !in PathStops {
        assert sc[i] !in SchemeStops;
      }
      NoneInConcat(sc, ":", PathStops);
    }
  }

  lemma AuthorityPartNoPathStops(u: Url)
    requires WellFormed(u)
    ensures NoneIn(AuthorityPart(u), PathStops)
  {
    if u.authority.Some? {
      var a := u.authority.value;
      forall i | 0 <= i < |a| ensures a[i] !in PathStops {
        assert a[i] !in AuthorityStops;
      }
      NoneInConcat("//", a, PathStops);
    }
  }

  /** Cutting `head + tail` at its first `#` and then at its first `?` leaves `head`. */
  lemma CleanCutsAt(head: string, tail: string)
    requires NoneIn(head, PathStops)
    requires tail == [] || tail[0] in PathStops
    ensures Clean(head + tail) == head
  {
    var s := head + tail;
    var b := Before(s, '#');
    IndexOfAnyAppend(head, tail, {'#'});
    assert head <= b;
    assert b == head || (tail[0] == '?' && b == head + Before(tail, '#')) by {
      assert s[..|head|] == head;
      if tail != [] && tail[0] == '#' {
        assert IndexOfAny(tail, {'#'}) == 0;
      } else if tail != [] {
        var k := IndexOfAny(tail, {'#'});
        assert b == s[..|head| + k];
        assert s[..|head| + k] == head + tail[..k];
      }
    }
    IndexOfAnyAppend(head, b[|head|..], {'?'});
    assert b == head + b[|head|..];
    assert b[|head|..] == [] || b[|head|] == '?';
    assert b[..|head|] == head;
  }

  /** The consequences the crawler relies on. */
  lemma CleanProperties(s: string)
    ensures NoneIn(Clean(s), {'#', '?'})
    ensures Clean(Clean(s)) == Clean(s)
    ensures Netloc(Clean(s)) == Netloc(s)
    ensures Parse(Clean(s)).path == Parse(s).path
  {
    CleanRemovesQueryAndFragment(s);
    var c := Clean(s);
    assert NoneIn(c, {'#', '?'}) by {
      assert NoneIn(Before(s, '#'), {'#'});
      forall i | 0 <= i < |c| ensures c[i] !in {'#', '?'} {
        assert c[i] == Before(s, '#')[i];
      }
    }
    BeforeNoOp(c, '#');
    BeforeNoOp(c, '?');
  }

  // ---------------------------------------------------------------------------
  // Reference resolution (urljoin)
  // ---------------------------------------------------------------------------

  /** Drop the last segment of the output buffer together with the `/` before it. */
  function DropLastSegment(out: string): (r: string)
    ensures r <= out
  {
    var i := LastIndexOf(out, '/');
    if i < 0 then "" else out[..i]
  }

  /** The first segment of the input buffer, including its leading `/` if it has one. */
  function FirstSegment(input: string): (seg: string)
    requires input != []
    ensures seg != [] && seg <= input
  {
    if input[0] == '/' then "/" + Before(input[1..], '/')
    else
      var b := Before(input, '/');
      if b == [] then input[..1] else b
  }

  /** `remove_dot_segments` of section 5.2.4 of RFC 3986, with explicit input and output buffers. */
  function RemoveDots(input: string, output: string): string
    decreases |input|
  {
    if input == [] then output
    else if StartsWith(input, "../") then RemoveDots(input[3..], output)
    else if StartsWith(input, "./") then RemoveDots(input[2..], output)
    else if StartsWith(input, "/./") then RemoveDots(input[2..], output)
    else if input == "/." then RemoveDots("/", output)
    else if StartsWith(input, "/../") then RemoveDots(input[3..], DropLastSegment(output))
    else if input == "/.." then RemoveDots("/", DropLastSegment(output))
    else if input == "." || input == ".." then output
    else
      var seg := FirstSegment(input);
      RemoveDots(input[|seg|..], output + seg)
  }

  function RemoveDotSegments(path: string): string
  {
    RemoveDots(path, "")
  }

  /** Dot removal only moves characters of its buffers around and adds `/`. */
  lemma {:induction false} RemoveDotsChars(input: string, output: string, stops: set<char>)
    requires '/' !in stops
    requires NoneIn(input, stops) && NoneIn(output, stops)
    ensures NoneIn(RemoveDots(input, output), stops)
    decreases |input|
  {
    if input == [] {
    } else if StartsWith(input, "../") {
      RemoveDotsChars(input[3..], output, stops);
    } else if StartsWith(input, "./") || StartsWith(input, "/./") {
      RemoveDotsChars(input[2..], output, stops);
    } else if input == "/." {
      RemoveDotsChars("/", output, stops);
    } else if StartsWith(input, "/../") {
      RemoveDotsChars(input[3..], DropLastSegment(output), stops);
    } else if input == "/.." {
      RemoveDotsChars("/", DropLastSegment(output), stops);
    } else if input == "." || input == ".." {
    } else {
      var seg := FirstSegment(input);
      assert NoneIn(seg, stops) by {
        forall i | 0 <= i < |seg| ensures seg[i] !in stops {
          assert seg[i] == input[i];
        }
      }
      RemoveDotsChars(input[|seg|..], output + seg, stops);
    }
  }

  predicate Rooted(p: string)
  {
    p == [] || p[0] == '/'
  }

  /** An absolute path stays absolute (or becomes empty) under dot removal. */
  lemma {:induction false} RemoveDotsRooted(input: string, output: string)
    requires Rooted(input) && Rooted(output)
    ensures Rooted(RemoveDots(input, output))
    decreases |input|
  {
    if input == [] {
    } else if StartsWith(input, "/./") {
      RemoveDotsRooted(input[2..], output);
    } else if input == "/." {
      RemoveDotsRooted("/", output);
    } else if StartsWith(input, "/../") {
      RemoveDotsRooted(input[3..], DropLastSegment(output));
    } else if input == "/.." {
      RemoveDotsRooted("/", DropLastSegment(output));
    } else {
      var seg := FirstSegment(input);
      var rest := input[|seg|..];
      assert Rooted(rest) by {
        var b := Before(input[1..], '/');
        assert seg == "/" + b;
        if |b| < |input[1..]| {
          assert input[1..][|b|] == '/';
        }
      }
      RemoveDotsRooted(rest, output + seg);
    }
  }

  /** Merge a relative path with the base path (section 5.2.3 of RFC 3986). */
  function Merge(base: Url, refPath: string): string
  {
    if base.authority.Some? && base.path == [] then "/" + refPath
    else base.path[..LastIndexOf(base.path, '/') + 1] + refPath
  }

  /** Transform References (section 5.2.2 of RFC 3986, strict parser). */
  function Resolve(base: Url, r: Url): Url
  {
    if r.scheme.Some? then
      Url(r.scheme, r.authority, RemoveDotSegments(r.path), r.query, r.fragment)
    else if r.authority.Some? then
      Url(base.scheme, r.authority, RemoveDotSegments(r.path), r.query, r.fragment)
    else if r.path == [] then
      Url(base.scheme, base.authority, base.path, if r.query.Some? then r.query else base.query, r.fragment)
    else if r.path[0] == '/' then
      Url(base.scheme, base.authority, RemoveDotSegments(r.path), r.query, r.fragment)
    else
      Url(base.scheme, base.authority, RemoveDotSegments(Merge(base, r.path)), r.query, r.fragment)
  }

  /** `urljoin(base, href)`; an empty argument returns the other one unchanged. */
  function Join(base: string, href: string): string
  {
    if base == [] then href
    else if href == [] then base
    else Recompose(Resolve(Parse(base), Parse(href)))
  }

  /** A resolved reference that has an authority is well formed. */
  lemma ResolveWellFormed(base: Url, r: Url)
    requires WellFormed(base) && WellFormed(r)
    requires Resolve(base, r).authority.Some?
    ensures WellFormed(Resolve(base, r))
  {
    var t := Resolve(base, r);
    if r.scheme.Some? || r.authority.Some? || (r.path != [] && r.path[0] == '/') {
      RemoveDotsChars(r.path, "", PathStops);
      RemoveDotsRooted(r.path, "");
    } else if r.path != [] {
      var m := Merge(base, r.path);
      assert NoneIn(m, PathStops) by {
        if base.authority.Some? && base.path == [] {
          assert m == "/" + r.path;
        } else {
          var p := base.path[..LastIndexOf(base.path, '/') + 1];
          assert m == p + r.path;
          assert NoneIn(p, PathStops) by {
            forall i | 0 <= i < |p| ensures p[i] !in PathStops { assert p[i] == base.path[i]; }
          }
        }
      }
      assert Rooted(m) by {
        if !(base.path == []) {
          assert base.path[0] == '/';
          assert LastIndexOf(base.path, '/') >= 0;
        }
      }
      RemoveDotsChars(m, "", PathStops);
      RemoveDotsRooted(m, "");
    }
  }

  /** A reference with neither scheme nor authority stays on the page's host. */
  lemma JoinKeepsHost(page: string, href: string)
    requires Parse(page).authority.Some?
    requires Parse(href).scheme.None? && Parse(href).authority.None?
    ensures Netloc(Join(page, href)) == Netloc(page)
  {
    if page != [] && href != [] {
      ParseWellFormed(page);
      ParseWellFormed(href);
      ResolveWellFormed(Parse(page), Parse(href));
      ParseRecompose(Resolve(Parse(page), Parse(href)));
    }
  }

  /** A reference that names an authority (`//host/...` or `scheme://host/...`) goes to that host. */
  lemma JoinTakesAuthority(page: string, href: string)
    requires page != []
    requires Parse(href).authority.Some?
    ensures Netloc(Join(page, href)) == Netloc(href)
  {
    ParseWellFormed(page);
    ParseWellFormed(href);
    ResolveWellFormed(Parse(page), Parse(href));
    ParseRecompose(Resolve(Parse(page), Parse(href)));
  }
}
