/**
 * The current version of the converter (index.ts): asset localization to
 * `/<sanitized name>`, the two-pass stylesheet rewrite, stylesheet collection,
 * in-place image and background rewriting, and the crawl.
 */
module IndexTs {
  import opened Wrappers
  import opened Text
  import opened Paths
  import opened CssUrl
  import opened Site
  import opened PageRewrite

  // ---------------------------------------------------------------------
  // downloadAndSaveAsset
  // ---------------------------------------------------------------------

  /** A path `downloadAndSaveAsset` can return: a "data:" URL, or '/' and a sanitized name. */
  predicate IsLocalPath(r: string)
  {
    "data:" <= r || ("/" <= r && '/' !in r[1..] && '?' !in r[1..])
  }

  /**
   * The value `downloadAndSaveAsset(url)` returns, whether or not the download
   * succeeded: a "data:" URL unchanged, anything else '/' followed by the
   * sanitized name of the UNRESOLVED reference.
   */
  function LocalAsset(url: string): string
  {
    if "data:" <= url then url else "/" + SanitizeFilename(url)
  }

  /** What `LocalAsset` returns: a "data:" URL as it is, anything else a local path for the sanitized name. */
  lemma LocalAssetShape(url: string)
    ensures "data:" <= url ==> LocalAsset(url) == url
    ensures IsLocalPath(LocalAsset(url))
    ensures !("data:" <= url) ==> LocalAsset(url) == "/" + SanitizeFilename(url)
  {
    if !("data:" <= url) {
      var r := LocalAsset(url);
      SanitizeFilenameSpec(url);
      assert r[1..] == SanitizeFilename(url);
    }
  }

  /** The download `downloadAndSaveAsset` attempts: none for "data:", else the resolved URL into `public/<name>`. */
  function AssetDownload(siteUrl: string, url: string): (d: Option<Download>)
    ensures d.None? <==> "data:" <= url
    ensures d.Some? ==> d.value.file == "public" + LocalAsset(url)
  {
    if "data:" <= url then None
    else Some(Download(ResolveAsset(siteUrl, url), "public/" + SanitizeFilename(url)))
  }

  /** Every returned path is a fixed point: localizing it again gives it back. */
  lemma LocalPathIsFixed(r: string)
    requires IsLocalPath(r)
    ensures LocalAsset(r) == r
  {
    if !("data:" <= r) {
      var n := r[1..];
      assert r == "/" + n;
      SplitWithoutSeparator(r, '?');
      if n == [] {
        BasenameSpec(r);
      } else {
        BasenameAfterSlash("", n);
        assert "" + "/" + n == r;
      }
    }
  }

  /** Localizing is idempotent. */
  lemma LocalAssetIdempotent(url: string)
    ensures LocalAsset(LocalAsset(url)) == LocalAsset(url)
  {
    LocalAssetShape(url);
    LocalPathIsFixed(LocalAsset(url));
  }

  /** The query string does not reach the local name of a non-"data:" reference. */
  lemma LocalAssetDropsQuery(url: string, query: string)
    requires '?' !in url && !("data:" <= url)
    ensures LocalAsset(url + "?" + query) == LocalAsset(url)
  {
    NotDataWithQuery(url, query);
    SplitBeforeSeparator(url, '?', query);
    SplitWithoutSeparator(url, '?');
  }

  /** Appending a query cannot make a reference a "data:" URL. */
  lemma NotDataWithQuery(url: string, query: string)
    requires '?' !in url && !("data:" <= url)
    ensures !("data:" <= url + "?" + query)
  {
    var full := url + "?" + query;
    if |url| >= 5 {
      assert full[..5] == url[..5];
    } else {
      assert full[|url|] == '?';
    }
  }

  // ---------------------------------------------------------------------
  // downloadAndSaveCss
  // ---------------------------------------------------------------------

  /** The font pass, then the image pass over the font pass's output. */
  function RewrittenCss(css: string): string
  {
    Pass(Pass(css, LocalAsset), LocalAsset)
  }

  /**
   * The image pass leaves a stylesheet alone when every reference it matches
   * is already a returned path, as the font pass makes them.
   */
  lemma ImagePassKeepsLocalPaths(css: string)
    requires forall r :: r in UrlRefs(css) ==> IsLocalPath(r)
    ensures Pass(css, LocalAsset) == css
  {
    forall r | r in UrlRefs(css) ensures LocalAsset(r) == r {
      LocalPathIsFixed(r);
    }
    PassFixed(css, LocalAsset);
  }

  /** A plain file name is localized to '/' followed by itself. */
  lemma LocalAssetOfName(n: string)
    requires '/' !in n && '?' !in n && !("data:" <= n)
    ensures LocalAsset(n) == "/" + n
  {
    SanitizeFixedPoints(n);
  }

  /** A path that starts with "//" is localized to '/' and its name. */
  lemma LocalAssetOfDoubleSlash(n: string)
    requires n != [] && '/' !in n && '?' !in n
    ensures LocalAsset("//" + n) == "/" + n
  {
    var u := "//" + n;
    assert u == "/" + "/" + n;
    assert u[0] == '/';
    assert '?' !in u;
    SplitWithoutSeparator(u, '?');
    BasenameAfterSlash("/", n);
  }

  /**
   * A reference that occurs twice and is a substring of its own local path is
   * rewritten twice at its first url() and not at all at its second: in
   * "url(a.png)url(a.png)" both passes give "url(//a.png)url(a.png)", a
   * protocol-relative URL and the remote reference.
   */
  lemma RepeatedReferenceStaysRemote(r: string)
    requires r != [] && forall k :: 0 <= k < |r| ==> IsRefChar(r[k])
    requires '/' !in r && '?' !in r && r[0] !in "url(/" && !("data:" <= r)
    ensures UrlRefs("url(" + r + ")" + ("url(" + r + ")")) == [r, r]
    ensures Pass("url(" + r + ")" + ("url(" + r + ")"), LocalAsset) == "url(//" + r + ")" + ("url(" + r + ")")
    ensures RewrittenCss("url(" + r + ")" + ("url(" + r + ")")) == "url(//" + r + ")" + ("url(" + r + ")")
  {
    TwoUrlRefs(r, r);
    LocalAssetOfName(r);
    LocalAssetOfDoubleSlash(r);
    RepeatedFirstPass(r, LocalAsset);
    RepeatedSecondPass(r, LocalAsset);
  }

  /** The first pass over a repeated reference that its localizer prefixes with '/'. */
  lemma RepeatedFirstPass(r: string, localize: string -> string)
    requires r != [] && forall k :: 0 <= k < |r| ==> IsRefChar(r[k])
    requires r[0] !in "url(/" && localize(r) == "/" + r
    ensures Pass("url(" + r + ")" + ("url(" + r + ")"), localize) == "url(//" + r + ")" + ("url(" + r + ")")
  {
    var q := "url(" + r + ")";
    var t := "url(//" + r + ")" + q;
    assert UrlRefs(q + q) == [r, r] by {
      TwoUrlRefs(r, r);
    }
    assert ReplaceFirst(ReplaceFirst(q + q, r, "/" + r), r, "/" + r) == t by {
      assert q + q == "url(" + r + (")" + q);
      TwiceAtSlash(r, ")" + q);
      assert "url(//" + r + (")" + q) == t;
    }
    PassTwo(q + q, r, r, localize);
  }

  /** Replacing r by "/r" twice, from "url(r…", gives "url(//r…". */
  lemma TwiceAtSlash(r: string, b: string)
    requires r != [] && r[0] !in "url(/"
    ensures ReplaceFirst(ReplaceFirst("url(" + r + b, r, "/" + r), r, "/" + r) == "url(//" + r + b
  {
    ReplaceFirstAt("url(", r, b, "/" + r);
    assert "url(" + ("/" + r) + b == "url(/" + r + b;
    SlashAgain(r, b);
  }

  /** The second pass maps "//r" back to "/r" and then rewrites that "r" again, leaving the text as it was. */
  lemma RepeatedSecondPass(r: string, localize: string -> string)
    requires r != [] && forall k :: 0 <= k < |r| ==> IsRefChar(r[k])
    requires r[0] !in "url(/" && localize(r) == "/" + r && localize("//" + r) == "/" + r
    ensures Pass("url(//" + r + ")" + ("url(" + r + ")"), localize) == "url(//" + r + ")" + ("url(" + r + ")")
  {
    SecondPassRefs(r);
    SecondPassReplaces(r);
    PassTwo("url(//" + r + ")" + ("url(" + r + ")"), "//" + r, r, localize);
  }

  /** The matches of the text the first pass leaves. */
  lemma SecondPassRefs(r: string)
    requires r != [] && forall k :: 0 <= k < |r| ==> IsRefChar(r[k])
    ensures UrlRefs("url(//" + r + ")" + ("url(" + r + ")")) == ["//" + r, r]
  {
    var d := "//" + r;
    assert "url(//" + r + ")" + ("url(" + r + ")") == "url(" + d + ")" + ("url(" + r + ")");
    DoubleSlashIsRef(r);
    TwoUrlRefs(d, r);
  }

  /** The two replacements of the second pass restore the text. */
  lemma SecondPassReplaces(r: string)
    requires r != [] && r[0] !in "url(/"
    ensures var t := "url(//" + r + ")" + ("url(" + r + ")");
      ReplaceFirst(ReplaceFirst(t, "//" + r, "/" + r), r, "/" + r) == t
  {
    var b := ")" + ("url(" + r + ")");
    assert "url(//" + r + ")" + ("url(" + r + ")") == "url(//" + r + b;
    BackToSingleSlash(r, b);
    SlashAgain(r, b);
  }

  /** Replacing "//r" by "/r" in "url(//r…" gives "url(/r…". */
  lemma BackToSingleSlash(r: string, b: string)
    requires r != []
    ensures ReplaceFirst("url(//" + r + b, "//" + r, "/" + r) == "url(/" + r + b
  {
    assert "url(//" + r + b == "url(" + ("//" + r) + b;
    ReplaceFirstAt("url(", "//" + r, b, "/" + r);
    assert "url(" + ("/" + r) + b == "url(/" + r + b;
  }

  /** Replacing r by "/r" in "url(/r…" gives "url(//r…". */
  lemma SlashAgain(r: string, b: string)
    requires r != [] && r[0] !in "url(/"
    ensures ReplaceFirst("url(/" + r + b, r, "/" + r) == "url(//" + r + b
  {
    ReplaceFirstAt("url(/", r, b, "/" + r);
    assert "url(/" + ("/" + r) + b == "url(//" + r + b;
  }

  /** "//r" is made of reference characters when r is. */
  lemma DoubleSlashIsRef(r: string)
    requires forall k :: 0 <= k < |r| ==> IsRefChar(r[k])
    ensures var d := "//" + r; d != [] && forall k :: 0 <= k < |d| ==> IsRefChar(d[k])
  {
    var d := "//" + r;
    forall k | 0 <= k < |d| ensures IsRefChar(d[k]) {
      if k >= 2 {
        assert d[k] == r[k - 2];
      }
    }
  }

  /**
   * The first-occurrence replacement can hit text outside the `url(...)`:
   * in "a{b:url(a)}" each pass rewrites the selector's "a" and the url stays.
   */
  lemma FirstOccurrenceOutsideUrl(s: string)
    requires s == "a{b:url(a)}"
    ensures UrlRefs(s) == ["a"]
    ensures Pass(s, LocalAsset) == "/" + s
    ensures RewrittenCss(s) == "//" + s
  {
    SelectorRefs(s);
    LocalAssetOfName("a");
    TwoPassExample(s, LocalAsset);
  }

  /** Two passes of a localizer that prefixes '/' put "//" in front of the selector. */
  lemma TwoPassExample(s: string, localize: string -> string)
    requires s == "a{b:url(a)}"
    requires localize("a") == "/a"
    ensures Pass(s, localize) == "/" + s
    ensures Pass(Pass(s, localize), localize) == "//" + s
  {
    var t := "/" + s;
    assert Pass(s, localize) == t by {
      FirstPassExample(s, localize);
      assert s == [s[0]] + s[1..];
    }
    assert Pass(t, localize) == "//" + s by {
      SecondPassExample(t, localize);
      assert t[2..] == s[1..];
      assert s == [s[0]] + s[1..];
    }
  }

  /** The first pass replaces the selector's "a", whatever the localizer returns. */
  lemma FirstPassExample(s: string, localize: string -> string)
    requires s == "a{b:url(a)}"
    ensures Pass(s, localize) == localize("a") + s[1..]
  {
    SelectorRefs(s);
    PassSingle(s, "a", localize);
    assert OccursAt(s, "a", 0) by {
      assert s[0..1] == "a";
    }
  }

  /** After one '/' is put in front, the second pass still replaces the selector's "a". */
  lemma SecondPassExample(t: string, localize: string -> string)
    requires t == "/a{b:url(a)}"
    ensures Pass(t, localize) == "/" + localize("a") + t[2..]
  {
    SelectorRefsShifted(t);
    PassSingle(t, "a", localize);
    assert !OccursAt(t, "a", 0) by {
      assert t[0..1][0] == '/';
    }
    assert t[0..1] != "a";
    assert t[1..2] == "a";
    assert IndexFrom(t, "a", 1) == Some(1);
  }

  /** The one match in the example stylesheet. */
  lemma SelectorRefs(s: string)
    requires s == "a{b:url(a)}"
    ensures UrlRefs(s) == ["a"]
  {
    SelectorMatch(s, 4);
    SkipToMatch(s, 0, 4);
    SkipToMatch(s, 10, 11);
    assert RefsFrom(s, 4) == [s[8..9]] + RefsFrom(s, 10);
  }

  /** The one match in the example stylesheet after the first pass. */
  lemma SelectorRefsShifted(t: string)
    requires t == "/a{b:url(a)}"
    ensures UrlRefs(t) == ["a"]
  {
    SelectorMatch(t, 5);
    SkipToMatch(t, 0, 5);
    SkipToMatch(t, 11, 12);
    assert RefsFrom(t, 5) == [t[9..10]] + RefsFrom(t, 11);
  }

  /** The declaration "url(a)}" at `p` matches with the reference "a". */
  lemma SelectorMatch(s: string, p: nat)
    requires p + 7 == |s| && s[p..] == "url(a)}"
    ensures MatchAt(s, p) == Some(Match(p + 4, p + 5, p + 6))
    ensures s[p + 4..p + 5] == "a"
  {
    assert s[p..p + 4] == s[p..][..4];
    assert s[p + 4] == s[p..][4] && s[p + 5] == s[p..][5];
    assert RunEnd(s, p + 5) == p + 5;
    assert RunEnd(s, p + 4) == p + 5;
    assert s[p + 4..p + 5] == s[p..][4..5];
  }

  /**
   * One stylesheet: resolve the href, fetch it, rewrite it in two passes and
   * save it as `styles/<sanitized name>`; nothing when the fetch fails.
   */
  method SaveStylesheet(siteUrl: string, cssLink: string, fetchCss: string -> Option<string>)
    returns (file: Option<SavedFile>)
    ensures fetchCss(Resolve(siteUrl, cssLink)).None? ==> file.None?
    ensures fetchCss(Resolve(siteUrl, cssLink)).Some? ==>
      file == Some(SavedFile(SanitizeFilename(cssLink), RewrittenCss(fetchCss(Resolve(siteUrl, cssLink)).value)))
  {
    var cssUrl: string;
    if "http" <= cssLink {
      cssUrl := cssLink;
    } else if "//" <= cssLink {
      cssUrl := "https:" + cssLink;
    } else if "/" <= cssLink {
      cssUrl := siteUrl + cssLink;
    } else {
      cssUrl := siteUrl + "/" + cssLink;
    }
    assert cssUrl == Resolve(siteUrl, cssLink);
    var response := fetchCss(cssUrl);
    file := None;
    if response.Some? {
      var fontPass, fontRequests := RewritePass(response.value, LocalAsset);
      var imagePass, imageRequests := RewritePass(fontPass, LocalAsset);
      file := Some(SavedFile(SanitizeFilename(cssLink), imagePass));
    }
  }

  /**
   * `downloadAndSaveCss`: collect the present, non-empty stylesheet hrefs and
   * save each one. The returned list names only the stylesheets whose fetch
   * succeeded, in document order.
   */
  method DownloadAndSaveCss(siteUrl: string, hrefs: seq<Option<string>>, fetchCss: string -> Option<string>)
    returns (cssFiles: seq<string>, saved: seq<SavedFile>)
    ensures saved == SaveStylesheets(PresentHrefs(hrefs), ResolvedFetch(siteUrl, fetchCss), SanitizeFilename, RewrittenCss)
    ensures cssFiles == Names(saved)
  {
    var cssLinks := CollectCssLinks(hrefs);
    ghost var fetch := ResolvedFetch(siteUrl, fetchCss);
    cssFiles, saved := [], [];
    for i := 0 to |cssLinks|
      invariant saved == SaveStylesheets(cssLinks[..i], fetch, SanitizeFilename, RewrittenCss)
      invariant cssFiles == Names(saved)
    {
      var file := SaveStylesheet(siteUrl, cssLinks[i], fetchCss);
      assert fetch(cssLinks[i]) == fetchCss(Resolve(siteUrl, cssLinks[i]));
      SaveStylesheetsStep(cssLinks, i, fetch, SanitizeFilename, RewrittenCss);
      if file.Some? {
        NamesAppend(saved, file.value);
        saved := saved + [file.value];
        cssFiles := cssFiles + [file.value.name];
      }
    }
    assert cssLinks[..|cssLinks|] == cssLinks;
  }

  // ---------------------------------------------------------------------
  // convertSiteToNextJs
  // ---------------------------------------------------------------------

  /** The page conversion the crawl applies, with the run's stylesheet list and localizer. */
  function Converter(cssFiles: seq<string>, localize: string -> string): Page -> NextPage
  {
    page => ConvertedPage(page, cssFiles, localize)
  }

  /** The stylesheet list a run computes from the home page. */
  function CssFiles(siteUrl: string, home: Page, fetchCss: string -> Option<string>): seq<string>
  {
    Names(SaveStylesheets(PresentHrefs(home.stylesheetHrefs), ResolvedFetch(siteUrl, fetchCss), SanitizeFilename, RewrittenCss))
  }

  /** The pages a run writes, in order. */
  function CrawlWrites(siteUrl: string, fetchPage: string -> Option<Page>, fetchCss: string -> Option<string>): seq<PageWrite>
  {
    if !Fetched(fetchPage(siteUrl)) then []
    else
      var home := fetchPage(siteUrl).value;
      var cssFiles := CssFiles(siteUrl, home, fetchCss);
      [PageWrite("", ConvertedPage(home, cssFiles, LocalAsset))] + SubpageWrites(Subpages(siteUrl, home.anchors, fetchPage), Converter(cssFiles, LocalAsset))
  }

  /** The routes written are the crawl's routes: "" first, then the fetched page links. */
  lemma CrawlWritesRoutes(siteUrl: string, fetchPage: string -> Option<Page>, fetchCss: string -> Option<string>)
    ensures Routes(CrawlWrites(siteUrl, fetchPage, fetchCss)) == CrawlRoutes(siteUrl, siteUrl, fetchPage)
  {
    if Fetched(fetchPage(siteUrl)) {
      var home := fetchPage(siteUrl).value;
      var cssFiles := CssFiles(siteUrl, home, fetchCss);
      HomeThenSubpagesRoutes(ConvertedPage(home, cssFiles, LocalAsset), Subpages(siteUrl, home.anchors, fetchPage), Converter(cssFiles, LocalAsset));
    }
  }

  /** Every page the crawl writes imports the same stylesheets: those collected from the home page. */
  lemma CrawlWritesShareImports(siteUrl: string, fetchPage: string -> Option<Page>, fetchCss: string -> Option<string>)
    requires Fetched(fetchPage(siteUrl))
    ensures forall w :: w in CrawlWrites(siteUrl, fetchPage, fetchCss) ==>
      w.page.imports == ImportBlock(CssFiles(siteUrl, fetchPage(siteUrl).value, fetchCss))
  {
    var home := fetchPage(siteUrl).value;
    var cssFiles := CssFiles(siteUrl, home, fetchCss);
    SubpageWritesShareImports(Subpages(siteUrl, home.anchors, fetchPage), Converter(cssFiles, LocalAsset), ImportBlock(cssFiles));
  }

  /** One iteration of the crawl loop: the write for `link`, if it is a page link whose fetch returns a page. */
  method ConvertLink(siteUrl: string, link: string, fetchPage: string -> Option<Page>, cssFiles: seq<string>,
                     localize: string -> string)
    returns (written: seq<PageWrite>)
    ensures written == SubpageWrites(SubpageOf(siteUrl, link, fetchPage), Converter(cssFiles, localize))
  {
    written := [];
    if "/" <= link && link != "/" {
      var pageHtml := fetchPage(siteUrl + link);
      if pageHtml.Some? && pageHtml.value.text != "" {
        var route := Route(link);
        var pageContent, pageRequests := ConvertToNextPage(pageHtml.value, cssFiles, localize);
        written := [PageWrite(route, pageContent)];
        assert [Subpage(route, pageHtml.value)][..0] == [];
      }
    }
  }

  /** The crawl loop of `convertSiteToNextJs`: each internal link whose fetch returns a page is converted and written. */
  method ConvertSubpages(siteUrl: string, links: seq<string>, fetchPage: string -> Option<Page>, cssFiles: seq<string>,
                         localize: string -> string)
    returns (written: seq<PageWrite>)
    ensures written == SubpageWrites(Subpages(siteUrl, links, fetchPage), Converter(cssFiles, localize))
  {
    written := [];
    for i := 0 to |links|
      invariant written == SubpageWrites(Subpages(siteUrl, links[..i], fetchPage), Converter(cssFiles, localize))
    {
      assert links[..i + 1][..i] == links[..i];
      var w := ConvertLink(siteUrl, links[i], fetchPage, cssFiles, localize);
      SubpageWritesStep(Subpages(siteUrl, links[..i], fetchPage), SubpageOf(siteUrl, links[i], fetchPage), Converter(cssFiles, localize));
      written := written + w;
    }
    assert links[..|links|] == links;
  }

  /**
   * `convertSiteToNextJs`: fetch the home page (a failure ends the run with
   * nothing written), collect its stylesheets, write the home page at route
   * "", then each page link in document order whose fetch returns a page.
   */
  method ConvertSiteToNextJs(siteUrl: string, fetchPage: string -> Option<Page>, fetchCss: string -> Option<string>)
    returns (written: seq<PageWrite>, stylesheets: seq<SavedFile>)
    ensures written == CrawlWrites(siteUrl, fetchPage, fetchCss)
    ensures Fetched(fetchPage(siteUrl)) ==>
      stylesheets == SaveStylesheets(PresentHrefs(fetchPage(siteUrl).value.stylesheetHrefs), ResolvedFetch(siteUrl, fetchCss), SanitizeFilename, RewrittenCss)
    ensures !Fetched(fetchPage(siteUrl)) ==> stylesheets == []
  {
    written, stylesheets := [], [];
    var html := fetchPage(siteUrl);
    if html.None? || html.value.text == "" {
      return;
    }
    var home := html.value;
    var cssFiles;
    cssFiles, stylesheets := DownloadAndSaveCss(siteUrl, home.stylesheetHrefs, fetchCss);
    var homePageContent, homeRequests := ConvertToNextPage(home, cssFiles, LocalAsset);
    var subpages := ConvertSubpages(siteUrl, home.anchors, fetchPage, cssFiles, LocalAsset);
    written := [PageWrite("", homePageContent)] + subpages;
  }
}
