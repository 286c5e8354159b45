/**
 * The documentation downloader: it starts at the base URL, saves the main
 * content of every page it can fetch as a text (or Markdown) file whose path
 * is derived from the URL, and follows every link that stays on the base
 * URL's host, depth first, fetching each URL at most once.
 */
module ChainlitDocs {
  import opened Wrappers
  import opened Text
  import opened UrlParse
  import opened PosixPath
  import opened Html

  const BASE_URL: string := "https://docs.chainlit.io/"
  const OUTPUT_DIR: string := "chainlit_docs"
  const OUTPUT_FORMAT: string := "txt"

  /**
   * The module-level settings, and the optional `html2text` converter
   * (`None` when the package is not installed).
   */
  datatype Config = Config(
    baseUrl: string,
    outputDir: string,
    outputFormat: string,
    html2text: Option<Document -> string>)

  const Defaults: Config := Config(BASE_URL, OUTPUT_DIR, OUTPUT_FORMAT, None)

  /** The exceptions that abort saving a page. */
  datatype SaveError = ImportError | ValueError | OSError

  // ---------------------------------------------------------------------------
  // File paths (sanitize_path)
  // ---------------------------------------------------------------------------

  function Extension(format: string): string
  {
    if format == "txt" then ".txt" else ".md"
  }

  /** A path ending in `/` names a directory, whose page is saved as `index`. */
  function IndexedPath(path: string): string
  {
    if EndsWith(path, "/") then path + "index" else path
  }

  /** `p` with its extension, if any, replaced by `ext`. */
  function WithExtension(p: string, ext: string): string
  {
    if SplitExt(p).1 == [] then p + ext else SplitExt(p).0 + ext
  }

  function DropLeadingSlash(p: string): string
  {
    if StartsWith(p, "/") then p[1..] else p
  }

  /** The output file for a URL path. */
  function FilePathFor(cfg: Config, path: string): string
  {
    PathJoin(cfg.outputDir, DropLeadingSlash(WithExtension(IndexedPath(path), Extension(cfg.outputFormat))))
  }

  /** `sanitize_path(url)`: only the path component of the URL matters. */
  function SanitizePath(cfg: Config, url: string): string
  {
    FilePathFor(cfg, Parse(url).path)
  }

  /** A path as found in a URL with an authority: rooted, and not starting with `//`. */
  predicate AbsolutePath(path: string)
  {
    |path| >= 1 && path[0] == '/' && (|path| == 1 || path[1] != '/')
  }

  /** An output directory that `os.path.join` extends with a single `/`. */
  predicate PlainDirectory(dir: string)
  {
    dir != [] && dir[|dir| - 1] != '/'
  }

  /** Every saved file carries the extension of the output format. */
  lemma FileHasExtension(cfg: Config, path: string)
    ensures EndsWith(FilePathFor(cfg, path), Extension(cfg.outputFormat))
  {
    var ext := Extension(cfg.outputFormat);
    var withExt := WithExtension(IndexedPath(path), ext);
    var relative := DropLeadingSlash(withExt);
    WithExtensionEnds(IndexedPath(path), ext);
    DropLeadingSlashEnds(withExt, ext);
    EndsWithTrans(PathJoin(cfg.outputDir, relative), relative, ext);
  }

  lemma WithExtensionEnds(p: string, ext: string)
    ensures EndsWith(WithExtension(p, ext), ext)
  {
    var r := WithExtension(p, ext);
    assert r[|r| - |ext|..] == ext;
  }

  /** Dropping a leading `/` keeps a suffix that starts with `.`. */
  lemma DropLeadingSlashEnds(w: string, ext: string)
    requires EndsWith(w, ext) && ext != [] && ext[0] == '.'
    ensures EndsWith(DropLeadingSlash(w), ext)
  {
    if StartsWith(w, "/") {
      assert w[0] == '/';
      assert w[|w| - |ext|] == '.';
      assert w[1..][|w| - 1 - |ext|..] == w[|w| - |ext|..];
    }
  }

  /** A name with no `.` in its last component has no extension. */
  lemma SplitExtNoDot(p: string)
    requires forall k :: LastIndexOf(p, '/') < k < |p| ==> p[k] != '.'
    ensures SplitExt(p) == (p, "")
  {
  }

  /** The last component of `p + name` is inside `name` when `name` has no `/`. */
  lemma LastSlashIn(p: string, name: string)
    requires NoneIn(name, {'/'})
    ensures LastIndexOf(p + name, '/') == LastIndexOf(p, '/')
  {
    var s := p + name;
    var i := LastIndexOf(p, '/');
    forall k | i < k < |s| ensures s[k] != '/' {
      if k >= |p| { assert s[k] == name[k - |p|]; } else { assert s[k] == p[k]; }
    }
    LastIndexOfUnique(s, '/', i);
  }

  /** Dropping the leading slash of an absolute path and joining it to the output directory. */
  lemma JoinAbsolute(cfg: Config, path: string, tail: string)
    requires PlainDirectory(cfg.outputDir) && AbsolutePath(path)
    requires |path| >= 2 || tail == [] || tail[0] != '/'
    ensures PathJoin(cfg.outputDir, (path + tail)[1..]) == cfg.outputDir + path + tail
  {
    var rel := (path + tail)[1..];
    if |path| >= 2 {
      assert rel[0] == path[1];
    } else {
      assert rel == tail;
    }
    assert path + tail == "/" + rel;
  }

  lemma ConcatAssoc(a: string, b: string, c: string)
    ensures a + b + c == a + (b + c)
  {
  }

  /** A path that ends in `/` is saved as `<dir><path>index<ext>`. */
  lemma FileForDirectory(cfg: Config, path: string)
    requires PlainDirectory(cfg.outputDir)
    requires AbsolutePath(path) && EndsWith(path, "/")
    ensures FilePathFor(cfg, path) == cfg.outputDir + path + "index" + Extension(cfg.outputFormat)
  {
    var ext := Extension(cfg.outputFormat);
    IndexHasNoExtension(path, ext);
    JoinAbsolute(cfg, path, "index" + ext);
    ConcatAssoc(cfg.outputDir + path, "index", ext);
  }

  lemma IndexHasNoExtension(path: string, ext: string)
    requires EndsWith(path, "/")
    ensures WithExtension(IndexedPath(path), ext) == path + ("index" + ext)
  {
    var indexed := path + "index";
    assert SplitExt(indexed) == (indexed, "") by {
      LastSlashIn(path, "index");
      assert path[|path| - 1] == '/';
      forall k | LastIndexOf(indexed, '/') < k < |indexed| ensures indexed[k] != '.' {
        assert indexed[k] == "index"[k - |path|];
      }
      SplitExtNoDot(indexed);
    }
    ConcatAssoc(path, "index", ext);
  }

  /** A path whose last component has an extension is saved with the output extension instead. */
  lemma FileReplacesExtension(cfg: Config, path: string)
    requires PlainDirectory(cfg.outputDir)
    requires AbsolutePath(path) && SplitExt(path).1 != []
    ensures FilePathFor(cfg, path) == cfg.outputDir + SplitExt(path).0 + Extension(cfg.outputFormat)
  {
    var ext := Extension(cfg.outputFormat);
    var e := SplitExt(path).1;
    var stem := SplitExt(path).0;
    assert stem != [] by {
      assert path[0] == '/' && e[0] == '.';
    }
    assert AbsolutePath(stem) by {
      assert stem[0] == path[0];
      if |stem| >= 2 { assert stem[1] == path[1]; }
    }
    JoinAbsolute(cfg, stem, ext);
  }

  /** A path whose last component has no extension is saved with the output extension appended. */
  lemma FileAddsExtension(cfg: Config, path: string)
    requires PlainDirectory(cfg.outputDir)
    requires AbsolutePath(path) && !EndsWith(path, "/") && SplitExt(path).1 == []
    ensures FilePathFor(cfg, path) == cfg.outputDir + path + Extension(cfg.outputFormat)
  {
    JoinAbsolute(cfg, path, Extension(cfg.outputFormat));
  }

  /** With a non-empty output directory, the saved file always has a parent directory to create. */
  lemma FileHasDirectory(cfg: Config, path: string)
    requires cfg.outputDir != []
    ensures Dirname(FilePathFor(cfg, path)) != []
  {
    var relative := DropLeadingSlash(WithExtension(IndexedPath(path), Extension(cfg.outputFormat)));
    var r := PathJoin(cfg.outputDir, relative);
    if StartsWith(relative, "/") {
      DirnameNonEmpty(r, 0);
    } else if EndsWith(cfg.outputDir, "/") {
      DirnameNonEmpty(r, |cfg.outputDir| - 1);
    } else {
      DirnameNonEmpty(r, |cfg.outputDir|);
    }
  }

  /** The query and the fragment never influence the file name. */
  lemma SanitizeIgnoresQueryAndFragment(cfg: Config, url: string)
    ensures SanitizePath(cfg, Clean(url)) == SanitizePath(cfg, url)
  {
    CleanProperties(url);
  }

  /** The path of an `https` URL with a plain host. */
  lemma ParseOfHttpsUrl(host: string, path: string)
    requires NoneIn(host, AuthorityStops)
    requires AbsolutePath(path) || path == []
    requires NoneIn(path, PathStops)
    ensures Parse("https:" + "//" + host + path).path == path
  {
    var u := Url(Some("https"), Some(host), path, None, None);
    assert Recompose(u) == "https:" + "//" + host + path;
    ParseRecompose(u);
  }

  /** The path of a URL on the documentation host. */
  lemma ParseOfSiteUrl(url: string, path: string)
    requires url == "https://docs.chainlit.io" + path
    requires AbsolutePath(path) || path == []
    requires NoneIn(path, PathStops)
    ensures Parse(url).path == path
  {
    var host := "docs.chainlit.io";
    assert NoneIn(host, AuthorityStops);
    assert "https:" + "//" + host == "https://docs.chainlit.io";
    ParseOfHttpsUrl(host, path);
  }

  /** The site root is saved as `chainlit_docs/index.txt`. */
  lemma RootPageFile()
    ensures SanitizePath(Defaults, BASE_URL) == "chainlit_docs/index.txt"
  {
    ParseOfSiteUrl(BASE_URL, "/");
    RootFile();
  }

  lemma RootFile()
    ensures FilePathFor(Defaults, "/") == "chainlit_docs/index.txt"
  {
    FileForDirectory(Defaults, "/");
  }

  /**
   * `/a/b.html` and `/a/b` are saved to the same file, so whichever of the
   * two is crawled later replaces the other.
   */
  lemma ExtensionCollision()
    ensures SanitizePath(Defaults, "https://docs.chainlit.io/a/b.html")
         == SanitizePath(Defaults, "https://docs.chainlit.io/a/b")
         == "chainlit_docs/a/b.txt"
  {
    HtmlPageFile();
    BarePageFile();
  }

  lemma HtmlPageFile()
    ensures SanitizePath(Defaults, "https://docs.chainlit.io/a/b.html") == "chainlit_docs/a/b.txt"
  {
    ParseOfSiteUrl("https://docs.chainlit.io/a/b.html", "/a/b.html");
    HtmlFile();
  }

  lemma BarePageFile()
    ensures SanitizePath(Defaults, "https://docs.chainlit.io/a/b") == "chainlit_docs/a/b.txt"
  {
    ParseOfSiteUrl("https://docs.chainlit.io/a/b", "/a/b");
    BareFile();
  }

  lemma HtmlFile()
    ensures FilePathFor(Defaults, "/a/b.html") == "chainlit_docs/a/b.txt"
  {
    HtmlExtension();
    FileReplacesExtension(Defaults, "/a/b.html");
  }

  lemma HtmlExtension()
    ensures SplitExt("/a/b.html") == ("/a/b", ".html")
  {
    var p := "/a/b.html";
    LastIndexOfUnique(p, '/', 2);
    LastIndexOfUnique(p, '.', 4);
    assert p[3] != '.';
    assert p[..4] == "/a/b";
    assert p[4..] == ".html";
  }

  lemma BareFile()
    ensures FilePathFor(Defaults, "/a/b") == "chainlit_docs/a/b.txt"
  {
    assert LastIndexOf("/a/b", '/') == 2 by {
      LastIndexOfUnique("/a/b", '/', 2);
    }
    SplitExtNoDot("/a/b");
    FileAddsExtension(Defaults, "/a/b");
  }

  /** A URL with an empty path (no slash after the host) is saved as the hidden file `.txt`. */
  lemma EmptyPathFile()
    ensures SanitizePath(Defaults, "https://docs.chainlit.io") == "chainlit_docs/.txt"
  {
    ParseOfSiteUrl("https://docs.chainlit.io", "");
    EmptyFile();
  }

  lemma EmptyHasNoExtension(p: string)
    requires p == []
    ensures WithExtension(IndexedPath(p), ".txt") == ".txt"
  {
    assert SplitExt(p) == (p, "");
  }

  lemma EmptyFile()
    ensures FilePathFor(Defaults, "") == "chainlit_docs/.txt"
  {
    EmptyHasNoExtension("");
    assert Extension(Defaults.outputFormat) == ".txt";
    var name := DropLeadingSlash(WithExtension(IndexedPath(""), ".txt"));
    HiddenNameRelative();
    assert name == ".txt";
    OutputDirJoin(".txt");
    assert FilePathFor(Defaults, "") == PathJoin(OUTPUT_DIR, name);
  }

  lemma HiddenNameRelative()
    ensures DropLeadingSlash(".txt") == ".txt"
  {
    assert ".txt"[0] != "/"[0];
  }

  /** A relative name goes below the default output directory. */
  lemma OutputDirJoin(rel: string)
    requires !StartsWith(rel, "/")
    ensures PathJoin(OUTPUT_DIR, rel) == OUTPUT_DIR + "/" + rel
  {
    assert !EndsWith(OUTPUT_DIR, "/") by {
      assert OUTPUT_DIR[12..][0] == 's';
    }
  }

  // ---------------------------------------------------------------------------
  // Content conversion (convert_content)
  // ---------------------------------------------------------------------------

  /** The content-area node when the page has one, otherwise the whole page. */
  function ContentRegion(doc: Document): Document
  {
    match FindContentArea(doc)
    case Some(div) => [div]
    case None => doc
  }

  /** `convert_content`: the region's text nodes one per line, or its Markdown rendering. */
  function ConvertContent(cfg: Config, doc: Document): (r: Result<string, SaveError>)
    ensures r.Success? <==> cfg.outputFormat == "txt" || (cfg.outputFormat == "md" && cfg.html2text.Some?)
    ensures r == Failure(ImportError) <==> cfg.outputFormat == "md" && cfg.html2text.None?
    ensures r == Failure(ValueError) <==> cfg.outputFormat != "txt" && cfg.outputFormat != "md"
  {
    var region := ContentRegion(doc);
    if cfg.outputFormat == "txt" then
      Success(GetText(region, "\n"))
    else if cfg.outputFormat == "md" then
      match cfg.html2text
      case None => Failure(ImportError)
      case Some(render) => Success(render(region))
    else
      Failure(ValueError)
  }

  /** Whatever lies outside the content area does not reach the saved file. */
  lemma ConvertOnlyContentArea(cfg: Config, doc1: Document, doc2: Document)
    requires FindContentArea(doc1).Some? && FindContentArea(doc1) == FindContentArea(doc2)
    ensures ConvertContent(cfg, doc1) == ConvertContent(cfg, doc2)
  {
  }

  /**
   * In text format the saved file splits back, line by line, into the text
   * nodes of the region in document order, when no text node spans lines.
   */
  lemma {:induction false} ConvertTextLines(cfg: Config, doc: Document)
    requires cfg.outputFormat == "txt"
    requires var texts := TextsOf(Preorder(ContentRegion(doc)));
      |texts| >= 1 && forall k :: 0 <= k < |texts| ==> NoneIn(texts[k], {'\n'})
    ensures ConvertContent(cfg, doc).Success?
    ensures SplitOn(ConvertContent(cfg, doc).value, '\n') == TextsOf(Preorder(ContentRegion(doc)))
  {
    SplitOnJoin(TextsOf(Preorder(ContentRegion(doc))), '\n');
  }

  // ---------------------------------------------------------------------------
  // Link extraction (get_internal_links)
  // ---------------------------------------------------------------------------

  /** The union of `f(x)` over the elements `x` of `xs`. */
  function UnionOver(xs: seq<string>, f: string -> set<string>): set<string>
  {
    if xs == [] then {} else UnionOver(xs[..|xs| - 1], f) + f(xs[|xs| - 1])
  }

  lemma {:induction false} UnionOverMember(xs: seq<string>, f: string -> set<string>, y: string)
    ensures y in UnionOver(xs, f) <==> exists i :: 0 <= i < |xs| && y in f(xs[i])
  {
    if xs != [] {
      var init := xs[..|xs| - 1];
      UnionOverMember(init, f, y);
      if y in UnionOver(init, f) {
        var i :| 0 <= i < |init| && y in f(init[i]);
        assert xs[i] == init[i];
      }
      if exists i :: 0 <= i < |xs| && y in f(xs[i]) {
        var i :| 0 <= i < |xs| && y in f(xs[i]);
        if i < |init| {
          assert init[i] == xs[i];
        }
      }
    }
  }

  lemma UnionOverSnoc(xs: seq<string>, i: nat, f: string -> set<string>)
    requires i < |xs|
    ensures UnionOver(xs[..i + 1], f) == UnionOver(xs[..i], f) + f(xs[i])
  {
    assert xs[..i + 1][..i] == xs[..i];
  }

  lemma UnionOverSingle(x: string, f: string -> set<string>)
    ensures UnionOver([x], f) == f(x)
  {
    assert [x][..0] == [];
  }

  /** What one href contributes: its cleaned absolute form, when that lies on the base URL's host. */
  function LinkOf(cfg: Config, url: string, href: string): set<string>
  {
    var absolute := Join(url, href);
    if Netloc(absolute) == Netloc(cfg.baseUrl) then {Clean(absolute)} else {}
  }

  /** The internal links of a page at `url` whose anchors carry `hrefs`. */
  function LinkTargets(cfg: Config, url: string, hrefs: seq<string>): set<string>
  {
    UnionOver(hrefs, h => LinkOf(cfg, url, h))
  }

  /** `get_internal_links(url, content)`. */
  method GetInternalLinks(cfg: Config, url: string, doc: Document) returns (links: set<string>)
    ensures links == LinkTargets(cfg, url, FindAllHrefs(doc))
  {
    var hrefs := FindAllHrefs(doc);
    links := {};
    var i := 0;
    while i < |hrefs|
      invariant 0 <= i <= |hrefs|
      invariant links == LinkTargets(cfg, url, hrefs[..i])
    {
      var absolute := Join(url, hrefs[i]);
      if Netloc(absolute) == Netloc(cfg.baseUrl) {
        links := links + {Clean(absolute)};
      }
      LinkTargetsSnoc(cfg, url, hrefs, i);
      i := i + 1;
    }
    assert hrefs[..i] == hrefs;
  }

  lemma LinkTargetsSnoc(cfg: Config, url: string, hrefs: seq<string>, i: nat)
    requires i < |hrefs|
    ensures LinkTargets(cfg, url, hrefs[..i + 1]) == LinkTargets(cfg, url, hrefs[..i]) + LinkOf(cfg, url, hrefs[i])
  {
    UnionOverSnoc(hrefs, i, h => LinkOf(cfg, url, h));
  }

  /** A URL is an internal link exactly when some href contributes it. */
  lemma LinkTargetsMember(cfg: Config, url: string, hrefs: seq<string>, l: string)
    ensures l in LinkTargets(cfg, url, hrefs) <==> exists i :: 0 <= i < |hrefs| && l in LinkOf(cfg, url, hrefs[i])
  {
    UnionOverMember(hrefs, h => LinkOf(cfg, url, h), l);
  }

  /** Every link found is on the base host and carries neither query nor fragment. */
  lemma LinkTargetsAreClean(cfg: Config, url: string, hrefs: seq<string>, l: string)
    requires l in LinkTargets(cfg, url, hrefs)
    ensures Netloc(l) == Netloc(cfg.baseUrl) && NoneIn(l, {'#', '?'}) && Clean(l) == l
  {
    LinkTargetsMember(cfg, url, hrefs, l);
    var i :| 0 <= i < |hrefs| && l in LinkOf(cfg, url, hrefs[i]);
    LinkOfMember(cfg, url, hrefs[i], l);
    CleanedOnHost(Join(url, hrefs[i]), cfg.baseUrl);
  }

  lemma LinkOfMember(cfg: Config, url: string, h: string, l: string)
    requires l in LinkOf(cfg, url, h)
    ensures l == Clean(Join(url, h)) && Netloc(Join(url, h)) == Netloc(cfg.baseUrl)
  {
  }

  lemma CleanedOnHost(a: string, base: string)
    requires Netloc(a) == Netloc(base)
    ensures Netloc(Clean(a)) == Netloc(base) && NoneIn(Clean(a), {'#', '?'}) && Clean(Clean(a)) == Clean(a)
  {
    CleanProperties(a);
  }

  /** A relative href (no scheme, no host) on a page of the site is always followed. */
  lemma RelativeLinksFollowed(cfg: Config, url: string, hrefs: seq<string>, i: nat)
    requires Parse(url).authority.Some? && Netloc(url) == Netloc(cfg.baseUrl)
    requires i < |hrefs| && Parse(hrefs[i]).scheme.None? && Parse(hrefs[i]).authority.None?
    ensures Clean(Join(url, hrefs[i])) in LinkTargets(cfg, url, hrefs)
  {
    JoinKeepsHost(url, hrefs[i]);
    LinkTargetsMember(cfg, url, hrefs, Clean(Join(url, hrefs[i])));
  }

  /** An href naming another host is dropped. */
  lemma ForeignLinksDropped(cfg: Config, url: string, h: string)
    requires url != [] && Parse(h).authority.Some? && Netloc(h) != Netloc(cfg.baseUrl)
    ensures LinkTargets(cfg, url, [h]) == {}
  {
    JoinTakesAuthority(url, h);
    LinkTargetsSingle(cfg, url, h);
  }

  lemma LinkTargetsSingle(cfg: Config, url: string, h: string)
    ensures LinkTargets(cfg, url, [h]) == LinkOf(cfg, url, h)
  {
    UnionOverSingle(h, h' => LinkOf(cfg, url, h'));
  }

  /** Repeating an href adds no link. */
  lemma DuplicateHrefsCollapse(cfg: Config, url: string, hrefs: seq<string>, i: nat)
    requires i < |hrefs|
    ensures LinkTargets(cfg, url, hrefs + [hrefs[i]]) == LinkTargets(cfg, url, hrefs)
  {
    var h := hrefs[i];
    assert (hrefs + [h])[..|hrefs|] == hrefs;
    forall l | l in LinkOf(cfg, url, h) ensures l in LinkTargets(cfg, url, hrefs) {
      LinkTargetsMember(cfg, url, hrefs, l);
    }
  }

  // ---------------------------------------------------------------------------
  // Saved files
  // ---------------------------------------------------------------------------

  /** One file write of `save_page`: the page URL, the file path, the text written. */
  datatype Write = Write(url: string, path: string, text: string)

  /** The file system after a sequence of writes, each replacing the file at its path. */
  function ApplyWrites(files: map<string, string>, ws: seq<Write>): map<string, string>
  {
    if ws == [] then files
    else ApplyWrites(files, ws[..|ws| - 1])[ws[|ws| - 1].path := ws[|ws| - 1].text]
  }

  /** A file holds the text of the last write to its path, or its initial content when there was none. */
  lemma {:induction false} LastWriteWins(files: map<string, string>, ws: seq<Write>, p: string)
    ensures p in ApplyWrites(files, ws) <==> p in files || exists k :: 0 <= k < |ws| && ws[k].path == p
    ensures forall k ::
      (0 <= k < |ws| && ws[k].path == p && (forall j :: k < j < |ws| ==> ws[j].path != p))
      ==> ApplyWrites(files, ws)[p] == ws[k].text
    ensures (forall k :: 0 <= k < |ws| ==> ws[k].path != p) && p in files
      ==> ApplyWrites(files, ws)[p] == files[p]
  {
    if ws != [] {
      var init := ws[..|ws| - 1];
      LastWriteWins(files, init, p);
      forall k | 0 <= k < |ws| - 1 ensures init[k] == ws[k] { }
    }
  }

  /** The URLs whose pages a sequence of writes saved. */
  function WrittenUrls(ws: seq<Write>): set<string>
  {
    if ws == [] then {} else WrittenUrls(ws[..|ws| - 1]) + {ws[|ws| - 1].url}
  }

  lemma WrittenUrlsAppend(ws: seq<Write>, w: Write)
    ensures WrittenUrls(ws + [w]) == WrittenUrls(ws) + {w.url}
  {
    assert (ws + [w])[..|ws|] == ws;
  }

  /** A URL is among those written exactly when some write names it. */
  lemma {:induction false} WrittenUrlsMember(ws: seq<Write>, u: string)
    ensures u in WrittenUrls(ws) <==> exists k :: 0 <= k < |ws| && ws[k].url == u
  {
    if ws != [] {
      var init := ws[..|ws| - 1];
      WrittenUrlsMember(init, u);
      if u in WrittenUrls(init) {
        var k :| 0 <= k < |init| && init[k].url == u;
        assert ws[k] == init[k];
      }
      if exists k :: 0 <= k < |ws| && ws[k].url == u {
        var k :| 0 <= k < |ws| && ws[k].url == u;
        if k < |init| {
          assert init[k] == ws[k];
        }
      }
    }
  }

  /** The elements of a sequence. */
  function Elems(s: seq<string>): set<string>
  {
    if s == [] then {} else Elems(s[..|s| - 1]) + {s[|s| - 1]}
  }

  /** No element occurs twice, stated element by element from the back. */
  predicate NoDup(s: seq<string>)
  {
    s == [] || (NoDup(s[..|s| - 1]) && s[|s| - 1] !in Elems(s[..|s| - 1]))
  }

  lemma ElemsAppend(s: seq<string>, x: string)
    ensures Elems(s + [x]) == Elems(s) + {x}
    ensures NoDup(s + [x]) <==> NoDup(s) && x !in Elems(s)
  {
    assert (s + [x])[..|s|] == s;
  }

  lemma {:induction false} ElemsMember(s: seq<string>, x: string)
    ensures x in Elems(s) <==> x in s
  {
    if s != [] {
      ElemsMember(s[..|s| - 1], x);
      assert s == s[..|s| - 1] + [s[|s| - 1]];
    }
  }

  /** `NoDup` is the usual distinctness of positions. */
  lemma {:induction false} NoDupDistinct(s: seq<string>)
    ensures NoDup(s) <==> forall i, j :: 0 <= i < j < |s| ==> s[i] != s[j]
  {
    if s != [] {
      var init := s[..|s| - 1];
      var last := s[|s| - 1];
      NoDupDistinct(init);
      ElemsMember(init, last);
      if NoDup(s) {
        forall i, j | 0 <= i < j < |s| ensures s[i] != s[j] {
          if j < |s| - 1 {
            assert s[i] == init[i] && s[j] == init[j];
          } else {
            assert s[i] == init[i];
          }
        }
      }
      if forall i, j :: 0 <= i < j < |s| ==> s[i] != s[j] {
        forall i, j | 0 <= i < j < |init| ensures init[i] != init[j] {
          assert init[i] == s[i] && init[j] == s[j];
        }
      }
    }
  }

  /** What saving `doc` as the page at `url` yields: the converted text, or the exception raised. */
  function SaveResult(cfg: Config, unwritable: set<string>, url: string, doc: Document): (r: Result<string, SaveError>)
    ensures r.Success? ==> ConvertContent(cfg, doc) == Success(r.value)
    ensures r.Success? <==>
      (ConvertContent(cfg, doc).Success? && Dirname(SanitizePath(cfg, url)) != [] && SanitizePath(cfg, url) !in unwritable)
    ensures ConvertContent(cfg, doc).Failure? ==> r == ConvertContent(cfg, doc)
  {
    match ConvertContent(cfg, doc)
    case Failure(e) => Failure(e)
    case Success(text) =>
      var path := SanitizePath(cfg, url);
      if Dirname(path) == [] || path in unwritable then Failure(OSError) else Success(text)
  }

  ghost function LinkTable(cfg: Config, web: map<string, Document>): map<string, set<string>>
  {
    map u | u in web :: LinkTargets(cfg, u, FindAllHrefs(web[u]))
  }

  ghost function SaveTable(cfg: Config, unwritable: set<string>, web: map<string, Document>): map<string, Result<string, SaveError>>
  {
    map u | u in web :: SaveResult(cfg, unwritable, u, web[u])
  }

  ghost function FileTable(cfg: Config, web: map<string, Document>): map<string, string>
  {
    map u | u in web :: SanitizePath(cfg, u)
  }

  // ---------------------------------------------------------------------------
  // The crawler (save_page, crawl)
  // ---------------------------------------------------------------------------

  class Crawler {
    const cfg: Config
    /** The parsed page `requests.get(url)` returns; a URL not in the map raises `RequestException`. */
    const web: map<string, Document>
    /** Paths where creating the directory or the file raises `OSError`. */
    const unwritable: set<string>
    ghost const initialFiles: map<string, string>

    /**
     * For each page that can be fetched: its internal links, the outcome of
     * saving it, and the file it is saved to. The tables are computed once
     * so that the crawl's invariants can speak of them without re-deriving
     * them page by page.
     */
    ghost const linksOf: map<string, set<string>>
    ghost const saveOf: map<string, Result<string, SaveError>>
    ghost const fileOf: map<string, string>

    /** The module-level `visited` set. */
    var visited: set<string>
    /** The files on disk. */
    var files: map<string, string>
    /** Every URL requested, in order. */
    ghost var requests: seq<string>
    /** Every file written, in order. */
    ghost var writes: seq<Write>

    /** The tables agree with the definitions at `u`. */
    ghost predicate Tabulated(u: string)
    {
      u in web ==>
        && u in linksOf && linksOf[u] == LinkTargets(cfg, u, FindAllHrefs(web[u]))
        && u in saveOf && saveOf[u] == SaveResult(cfg, unwritable, u, web[u])
        && u in fileOf && fileOf[u] == SanitizePath(cfg, u)
    }

    ghost predicate Tables()
    {
      && linksOf.Keys == web.Keys && saveOf.Keys == web.Keys && fileOf.Keys == web.Keys
      && forall u :: Tabulated(u)
    }

    ghost predicate Valid()
      reads this
    {
      && Tables()
      && NoDup(requests)
      && visited == Elems(requests)
      && files == ApplyWrites(initialFiles, writes)
    }

    constructor (cfg: Config, web: map<string, Document>, unwritable: set<string>, files: map<string, string>)
      ensures this.cfg == cfg && this.web == web && this.unwritable == unwritable
      ensures this.files == files && initialFiles == files
      ensures visited == {} && requests == [] && writes == []
      ensures Valid() && Faithful()
    {
      this.cfg := cfg;
      this.web := web;
      this.unwritable := unwritable;
      this.files := files;
      initialFiles := files;
      linksOf := LinkTable(cfg, web);
      saveOf := SaveTable(cfg, unwritable, web);
      fileOf := FileTable(cfg, web);
      visited := {};
      requests := [];
      writes := [];
      new;
      TablesBuilt();
    }

    lemma TablesBuilt()
      requires linksOf == LinkTable(cfg, web)
      requires saveOf == SaveTable(cfg, unwritable, web)
      requires fileOf == FileTable(cfg, web)
      ensures Tables()
    {
    }

    /** `save_page(url, content)`. */
    method SavePage(url: string, doc: Document) returns (outcome: Outcome<SaveError>)
      requires Valid()
      modifies this`files, this`writes
      ensures Valid()
      ensures SaveResult(cfg, unwritable, url, doc).Failure? ==>
        outcome == Fail(SaveResult(cfg, unwritable, url, doc).error) && files == old(files) && writes == old(writes)
      ensures SaveResult(cfg, unwritable, url, doc).Success? ==>
        && outcome == Pass
        && writes == old(writes) + [Write(url, SanitizePath(cfg, url), SaveResult(cfg, unwritable, url, doc).value)]
        && files == old(files)[SanitizePath(cfg, url) := SaveResult(cfg, unwritable, url, doc).value]
    {
      var converted := ConvertContent(cfg, doc);
      if converted.Failure? {
        return Fail(converted.error);
      }
      var path := SanitizePath(cfg, url);
      if Dirname(path) == [] || path in unwritable {
        return Fail(OSError);
      }
      WriteFile(url, path, converted.value);
      outcome := Pass;
    }

    /** `open(path, "w").write(text)` on behalf of page `url`. */
    method WriteFile(ghost url: string, path: string, text: string)
      requires Valid()
      modifies this`files, this`writes
      ensures Valid()
      ensures writes == old(writes) + [Write(url, path, text)]
      ensures files == old(files)[path := text]
    {
      var w := Write(url, path, text);
      assert (writes + [w])[..|writes|] == writes;
      files := files[path := text];
      writes := writes + [w];
    }

    /** `u` links to `v`: `u` can be fetched and `v` is among its internal links. */
    ghost predicate Edge(u: string, v: string)
    {
      u in linksOf && v in linksOf[u]
    }

    lemma EdgeIsLink(u: string, v: string)
      requires Tables()
      ensures Edge(u, v) <==> u in web && v in LinkTargets(cfg, u, FindAllHrefs(web[u]))
    {
      assert Tabulated(u);
    }

    ghost predicate IsPath(p: seq<string>)
    {
      |p| >= 1 && forall i :: 0 <= i < |p| - 1 ==> Edge(p[i], p[i + 1])
    }

    /** `v` can be reached from `seed` by following links. */
    ghost predicate Reachable(seed: string, v: string)
    {
      exists p :: IsPath(p) && p[0] == seed && p[|p| - 1] == v
    }

    /** Every URL the crawl from `seed` can ever be asked to visit. */
    ghost function Universe(seed: string): set<string>
    {
      {seed} + set u, v | u in linksOf && v in linksOf[u] :: v
    }

    /** All links of `u`, if it can be fetched, are in `s`. */
    ghost predicate ClosedIn(u: string, s: set<string>)
    {
      u in linksOf ==> linksOf[u] <= s
    }

    /** The write `w` saved the text of page `w.url` to that page's file. */
    ghost predicate SavedPage(w: Write)
    {
      w.url in saveOf && saveOf[w.url] == Success(w.text) && w.url in fileOf && fileOf[w.url] == w.path
    }

    lemma ReachableSelf(seed: string)
      ensures Reachable(seed, seed)
    {
      assert IsPath([seed]);
    }

    lemma ReachableStep(seed: string, u: string, v: string)
      requires Reachable(seed, u) && Edge(u, v)
      ensures Reachable(seed, v)
    {
      var p :| IsPath(p) && p[0] == seed && p[|p| - 1] == u;
      var q := p + [v];
      assert IsPath(q) by {
        forall i | 0 <= i < |q| - 1 ensures Edge(q[i], q[i + 1]) {
          if i < |p| - 1 { assert q[i] == p[i] && q[i + 1] == p[i + 1]; }
        }
      }
      assert q[0] == seed && q[|q| - 1] == v;
    }

    lemma ReachableInUniverse(seed: string, v: string)
      requires Reachable(seed, v)
      ensures v in Universe(seed)
    {
      var p :| IsPath(p) && p[0] == seed && p[|p| - 1] == v;
      if |p| > 1 {
        assert Edge(p[|p| - 2], v);
      }
    }

    /** A set that holds `seed` and every link of each of its pages holds everything reachable from `seed`. */
    lemma ClosedContainsReachable(seed: string, s: set<string>)
      requires seed in s && forall u :: u in s ==> ClosedIn(u, s)
      ensures forall v :: Reachable(seed, v) ==> v in s
    {
      forall v | Reachable(seed, v) ensures v in s {
        var p :| IsPath(p) && p[0] == seed && p[|p| - 1] == v;
        PathInside(p, s);
      }
    }

    lemma {:induction false} PathInside(p: seq<string>, s: set<string>)
      requires IsPath(p) && p[0] in s && forall u :: u in s ==> ClosedIn(u, s)
      ensures p[|p| - 1] in s
    {
      if |p| > 1 {
        var init := p[..|p| - 1];
        assert IsPath(init) by {
          forall i | 0 <= i < |init| - 1 ensures Edge(init[i], init[i + 1]) {
            assert init[i] == p[i] && init[i + 1] == p[i + 1];
          }
        }
        PathInside(init, s);
        assert Edge(p[|p| - 2], p[|p| - 1]);
      }
    }

    /** Every write of `ws` saved the page it names, to that page's file. */
    ghost predicate AllSaved(ws: seq<Write>)
    {
      ws == [] || (AllSaved(ws[..|ws| - 1]) && SavedPage(ws[|ws| - 1]))
    }

    lemma AllSavedAppend(ws: seq<Write>, w: Write)
      requires AllSaved(ws) && SavedPage(w)
      ensures AllSaved(ws + [w])
    {
      assert (ws + [w])[..|ws|] == ws;
    }

    /** A page among those written was saved by some write. */
    lemma {:induction false} SavedWriteFor(ws: seq<Write>, u: string)
      requires AllSaved(ws) && u in WrittenUrls(ws)
      ensures exists k :: 0 <= k < |ws| && ws[k].url == u && SavedPage(ws[k])
    {
      var init := ws[..|ws| - 1];
      if u in WrittenUrls(init) {
        SavedWriteFor(init, u);
        var k :| 0 <= k < |init| && init[k].url == u && SavedPage(init[k]);
        assert ws[k] == init[k];
      }
    }

    ghost predicate Faithful()
      reads this`writes
    {
      AllSaved(writes)
    }

    lemma SavedPageOf(url: string)
      requires Tables() && url in web && SaveResult(cfg, unwritable, url, web[url]).Success?
      ensures SavedPage(Write(url, SanitizePath(cfg, url), SaveResult(cfg, unwritable, url, web[url]).value))
    {
      assert Tabulated(url);
    }

    lemma LinksOf(url: string)
      requires Tables() && url in web
      ensures linksOf[url] == LinkTargets(cfg, url, FindAllHrefs(web[url]))
      ensures SaveResult(cfg, unwritable, url, web[url]).Failure? ==> saveOf[url] == SaveResult(cfg, unwritable, url, web[url])
    {
      assert Tabulated(url);
    }

    /** The part of `crawl`'s `try` block after a successful fetch: save the page, then extract its links. */
    method ProcessPage(url: string) returns (outcome: Outcome<SaveError>, links: set<string>)
      requires Valid() && Faithful() && url in web
      modifies this`files, this`writes
      ensures Valid() && Faithful()
      ensures outcome.Fail? ==> saveOf[url] == Failure(outcome.error) && writes == old(writes) && files == old(files)
      ensures outcome.Pass? ==> links == linksOf[url] && WrittenUrls(writes) == WrittenUrls(old(writes)) + {url}
      ensures outcome.Pass? ==>
        && saveOf[url].Success?
        && writes == old(writes) + [Write(url, fileOf[url], saveOf[url].value)]
        && files == old(files)[fileOf[url] := saveOf[url].value]
    {
      var doc := web[url];
      LinksOf(url);
      assert Tabulated(url);
      outcome := SavePage(url, doc);
      if outcome.Fail? {
        return outcome, {};
      }
      SavedPageOf(url);
      AllSavedAppend(old(writes), writes[|writes| - 1]);
      WrittenUrlsAppend(old(writes), writes[|writes| - 1]);
      links := GetInternalLinks(cfg, url, doc);
    }

    /** `visited.add(url)`, and the request for `url` that follows it. */
    method MarkVisited(url: string)
      requires Valid() && url !in visited
      modifies this`visited, this`requests
      ensures Valid()
      ensures visited == old(visited) + {url} && requests == old(requests) + [url]
    {
      ElemsAppend(requests, url);
      visited := visited + {url};
      requests := requests + [url];
    }

    /**
     * `crawl(url)`: visit `url` unless already visited, save it, then crawl
     * each of its internal links in turn. A failed request is swallowed; a
     * failed save aborts the whole crawl.
     */
    method Crawl(url: string, ghost seed: string) returns (outcome: Outcome<SaveError>)
      requires Valid() && Faithful()
      requires Reachable(seed, url)
      requires forall v :: v in visited ==> Reachable(seed, v)
      modifies this`visited, this`files, this`requests, this`writes
      decreases Universe(seed) - visited, 0
      ensures Valid() && Faithful()
      ensures old(visited) <= visited && url in visited
      ensures forall v :: v in visited ==> Reachable(seed, v)
      ensures WrittenUrls(old(writes)) <= WrittenUrls(writes)
      ensures url in old(visited) ==>
        visited == old(visited) && writes == old(writes) && outcome == Pass
      ensures url !in old(visited) && url !in web ==>
        visited == old(visited) + {url} && writes == old(writes) && outcome == Pass
      ensures outcome.Pass? ==> forall v :: v in visited - old(visited) ==>
        ClosedIn(v, visited) && (v in web ==> v in WrittenUrls(writes))
      ensures outcome.Fail? ==>
        exists v :: v in visited - old(visited) && v in saveOf && saveOf[v] == Failure(outcome.error)
      ensures outcome.Fail? ==>
        requests != [] && requests[|requests| - 1] in saveOf && saveOf[requests[|requests| - 1]] == Failure(outcome.error)
    {
      if url in visited {
        return Pass;
      }
      ReachableInUniverse(seed, url);
      MarkVisited(url);
      if url !in web {
        return Pass;
      }
      var links;
      outcome, links := ProcessPage(url);
      if outcome.Fail? {
        return;
      }
      outcome := CrawlLinks(url, links, seed);
    }

    /** The loop of `crawl` over the links of the page at `url`, skipping those already visited. */
    method CrawlLinks(url: string, links: set<string>, ghost seed: string) returns (outcome: Outcome<SaveError>)
      requires Valid() && Faithful()
      requires url in visited && Reachable(seed, url) && url in linksOf && links == linksOf[url]
      requires forall v :: v in visited ==> Reachable(seed, v)
      modifies this`visited, this`files, this`requests, this`writes
      decreases Universe(seed) - visited, 1
      ensures Valid() && Faithful()
      ensures old(visited) <= visited
      ensures forall v :: v in visited ==> Reachable(seed, v)
      ensures WrittenUrls(old(writes)) <= WrittenUrls(writes)
      ensures outcome.Pass? ==> links <= visited
      ensures outcome.Pass? ==> forall v :: v in visited - old(visited) ==>
        ClosedIn(v, visited) && (v in web ==> v in WrittenUrls(writes))
      ensures outcome.Fail? ==>
        exists v :: v in visited - old(visited) && v in saveOf && saveOf[v] == Failure(outcome.error)
      ensures outcome.Fail? ==>
        requests != [] && requests[|requests| - 1] in saveOf && saveOf[requests[|requests| - 1]] == Failure(outcome.error)
    {
      var remaining := links;
      while remaining != {}
        invariant Valid() && Faithful()
        invariant remaining <= links
        invariant old(visited) <= visited
        invariant links - remaining <= visited
        invariant forall v :: v in visited ==> Reachable(seed, v)
        invariant WrittenUrls(old(writes)) <= WrittenUrls(writes)
        invariant forall v :: v in visited - old(visited) ==>
          ClosedIn(v, visited) && (v in web ==> v in WrittenUrls(writes))
        decreases remaining
      {
        var link :| link in remaining;
        remaining := remaining - {link};
        if link !in visited {
          ReachableStep(seed, url, link);
          var result := Crawl(link, seed);
          if result.Fail? {
            return result;
          }
        }
      }
      outcome := Pass;
    }

    /**
     * The script's entry point, `crawl(BASE_URL)` from an empty `visited`
     * set. When no save fails, the crawl visits exactly the URLs reachable
     * from the base URL, fetches each once, and leaves a file for every one
     * of them that could be fetched.
     */
    method CrawlSite() returns (outcome: Outcome<SaveError>)
      requires Valid() && Faithful() && visited == {}
      modifies this`visited, this`files, this`requests, this`writes
      ensures Valid() && Faithful()
      ensures outcome.Pass? ==> forall v :: v in visited <==> Reachable(cfg.baseUrl, v)
      ensures outcome.Pass? ==> forall v :: Reachable(cfg.baseUrl, v) && v in web ==>
        && SaveResult(cfg, unwritable, v, web[v]).Success?
        && v in WrittenUrls(writes)
        && SanitizePath(cfg, v) in files
      ensures outcome.Fail? ==>
        exists v :: v in visited && v in web && SaveResult(cfg, unwritable, v, web[v]) == Failure(outcome.error)
      ensures outcome.Fail? ==>
        && requests != []
        && requests[|requests| - 1] in web
        && SaveResult(cfg, unwritable, requests[|requests| - 1], web[requests[|requests| - 1]]) == Failure(outcome.error)
    {
      ReachableSelf(cfg.baseUrl);
      outcome := Crawl(cfg.baseUrl, cfg.baseUrl);
      if outcome.Pass? {
        ClosedContainsReachable(cfg.baseUrl, visited);
        forall v | Reachable(cfg.baseUrl, v) && v in web
          ensures SaveResult(cfg, unwritable, v, web[v]).Success? && v in WrittenUrls(writes) && SanitizePath(cfg, v) in files
        {
          SavedWriteFor(writes, v);
          var k :| 0 <= k < |writes| && writes[k].url == v && SavedPage(writes[k]);
          assert Tabulated(v);
          LastWriteWins(initialFiles, writes, SanitizePath(cfg, v));
        }
      } else {
        ghost var v :| v in visited && v in saveOf && saveOf[v] == Failure(outcome.error);
        assert Tabulated(v);
        assert Tabulated(requests[|requests| - 1]);
      }
    }
  }
}
