/**
 * The earliest version of the converter (convertSite.js): stylesheets are
 * saved unchanged under the basename of their href, the list of stylesheets
 * every page imports is computed from the hrefs whether or not their
 * download succeeded, pages are generated without any asset rewriting, and
 * the home page is fetched from the URL the run is started with while the
 * page links are fetched from the site URL.
 */
module ConvertSite {
  import opened Wrappers
  import opened Text
  import opened Paths
  import opened Site
  import PageRewrite

  // ---------------------------------------------------------------------
  // downloadAndSaveCss
  // ---------------------------------------------------------------------

  /** A stylesheet is written as it was downloaded. */
  function Verbatim(css: string): string
  {
    css
  }

  /** `cssLinks.map((link) => path.basename(link))`. */
  function Basenames(links: seq<string>): seq<string>
    decreases |links|
  {
    if links == [] then [] else Basenames(links[..|links| - 1]) + [Basename(links[|links| - 1])]
  }

  /** One more link adds its basename at the end. */
  lemma BasenamesStep(links: seq<string>, i: nat)
    requires i < |links|
    ensures Basenames(links[..i + 1]) == Basenames(links[..i]) + [Basename(links[i])]
  {
    assert links[..i + 1][..i] == links[..i];
  }

  /** The returned list has one entry per collected link: the basename of that link, in order. */
  lemma {:induction false} BasenamesPointwise(links: seq<string>)
    ensures |Basenames(links)| == |links|
    ensures forall i :: 0 <= i < |links| ==> Basenames(links)[i] == Basename(links[i])
    decreases |links|
  {
    if links != [] {
      var k := |links| - 1;
      BasenamesPointwise(links[..k]);
      BasenamesStep(links, k);
      assert links[..k + 1] == links;
    }
  }

  /** When every download succeeds, the returned list names exactly the files saved. */
  lemma {:induction false} AllFetchedNamesSaved(links: seq<string>, fetch: string -> Option<string>)
    requires forall i :: 0 <= i < |links| ==> fetch(links[i]).Some?
    ensures Names(SaveStylesheets(links, fetch, Basename, Verbatim)) == Basenames(links)
    decreases |links|
  {
    if links != [] {
      var k := |links| - 1;
      var init := links[..k];
      forall i | 0 <= i < |init| ensures fetch(init[i]).Some? {
        assert init[i] == links[i];
      }
      AllFetchedNamesSaved(init, fetch);
      SaveStylesheetsStep(links, k, fetch, Basename, Verbatim);
      NamesAppend(SaveStylesheets(init, fetch, Basename, Verbatim), SavedFile(Basename(links[k]), Verbatim(fetch(links[k]).value)));
      BasenamesStep(links, k);
      assert links[..k + 1] == links;
    }
  }

  /** No more files are saved than there are links. */
  lemma {:induction false} SavedAtMostLinks(links: seq<string>, fetch: string -> Option<string>)
    ensures |SaveStylesheets(links, fetch, Basename, Verbatim)| <= |links|
    decreases |links|
  {
    if links != [] {
      SavedAtMostLinks(links[..|links| - 1], fetch);
    }
  }

  /**
   * A failed download still appears in the returned list: the pages then
   * import more stylesheets than were saved.
   */
  lemma {:induction false} FailedDownloadStillImported(links: seq<string>, fetch: string -> Option<string>, j: nat)
    requires j < |links| && fetch(links[j]).None?
    ensures |SaveStylesheets(links, fetch, Basename, Verbatim)| < |Basenames(links)|
    decreases |links|
  {
    BasenamesPointwise(links);
    var k := |links| - 1;
    var init := links[..k];
    assert links[..k + 1] == links;
    SaveStylesheetsStep(links, k, fetch, Basename, Verbatim);
    if j == k {
      SavedAtMostLinks(init, fetch);
    } else {
      assert init[j] == links[j];
      FailedDownloadStillImported(init, fetch, j);
      BasenamesPointwise(init);
    }
  }

  /** One stylesheet: resolve the href, fetch it and save it unchanged as `styles/<basename>`; nothing when the fetch fails. */
  method SaveStylesheet(siteUrl: string, cssLink: string, fetchCss: string -> Option<string>)
    returns (file: Option<SavedFile>)
    ensures fetchCss(Resolve(siteUrl, cssLink)).None? ==> file.None?
    ensures fetchCss(Resolve(siteUrl, cssLink)).Some? ==>
      file == Some(SavedFile(Basename(cssLink), fetchCss(Resolve(siteUrl, cssLink)).value))
  {
    var cssUrl: string;
    if "http" <= cssLink {
      cssUrl := cssLink;
    } else if "//" <= cssLink {
      cssUrl := "https:" + cssLink;
    } else if "/" <= cssLink {
      cssUrl := siteUrl + cssLink;
    } else {
      cssUrl := siteUrl + "/" + cssLink;
    }
    assert cssUrl == Resolve(siteUrl, cssLink);
    var response := fetchCss(cssUrl);
    file := None;
    if response.Some? {
      file := Some(SavedFile(Basename(cssLink), response.value));
    }
  }

  /**
   * `downloadAndSaveCss`: collect the present, non-empty stylesheet hrefs,
   * save each one, and return the basename of every collected href, whether
   * or not its download succeeded.
   */
  method DownloadAndSaveCss(siteUrl: string, hrefs: seq<Option<string>>, fetchCss: string -> Option<string>)
    returns (cssFiles: seq<string>, saved: seq<SavedFile>)
    ensures saved == SaveStylesheets(PresentHrefs(hrefs), ResolvedFetch(siteUrl, fetchCss), Basename, Verbatim)
    ensures cssFiles == Basenames(PresentHrefs(hrefs))
  {
    var cssLinks := CollectCssLinks(hrefs);
    ghost var fetch := ResolvedFetch(siteUrl, fetchCss);
    saved := [];
    for i := 0 to |cssLinks|
      invariant saved == SaveStylesheets(cssLinks[..i], fetch, Basename, Verbatim)
    {
      var file := SaveStylesheet(siteUrl, cssLinks[i], fetchCss);
      assert fetch(cssLinks[i]) == fetchCss(Resolve(siteUrl, cssLinks[i]));
      SaveStylesheetsStep(cssLinks, i, fetch, Basename, Verbatim);
      if file.Some? {
        saved := saved + [file.value];
      }
    }
    cssFiles := [];
    for i := 0 to |cssLinks|
      invariant cssFiles == Basenames(cssLinks[..i])
    {
      BasenamesStep(cssLinks, i);
      cssFiles := cssFiles + [Basename(cssLinks[i])];
    }
    assert cssLinks[..|cssLinks|] == cssLinks;
  }

  // ---------------------------------------------------------------------
  // convertToNextPage
  // ---------------------------------------------------------------------

  /** The page `convertToNextPage` generates: the imports, the title and the body as fetched. */
  function ConvertedPage(page: Page, cssFiles: seq<string>): NextPage
  {
    NextPage(ImportBlock(cssFiles), page.title, page.imgSrcs, page.styles)
  }

  /** A localizer that returns every reference unchanged. */
  function Keep(url: string): string
  {
    url
  }

  /** Rewriting the image sources with a localizer that keeps every reference changes nothing. */
  lemma KeptSrcs(srcs: seq<Option<string>>)
    ensures PageRewrite.LocalizedSrcs(srcs, Keep) == srcs
  {
    PageRewrite.LocalizedSrcsPointwise(srcs, Keep);
  }

  /** Rewriting the background styles with a localizer that keeps every reference changes nothing. */
  lemma KeptStyles(styles: seq<string>)
    ensures PageRewrite.LocalizedStyles(styles, Keep) == styles
  {
    PageRewrite.LocalizedStylesPointwise(styles, Keep);
    forall i | 0 <= i < |styles| ensures PageRewrite.LocalizedStyle(styles[i], Keep) == styles[i] {
      match PageRewrite.BackgroundRef(styles[i])
      case Some(ref) => ReplaceFirstSelf(styles[i], ref);
      case None =>
    }
  }

  /**
   * This version generates what the later one generates with a localizer
   * that keeps every reference: the same imports and title, and the image
   * sources and styles unchanged.
   */
  lemma ConvertedPageKeepsReferences(page: Page, cssFiles: seq<string>)
    ensures ConvertedPage(page, cssFiles) == PageRewrite.ConvertedPage(page, cssFiles, Keep)
  {
    KeptSrcs(page.imgSrcs);
    KeptStyles(page.styles);
  }

  // ---------------------------------------------------------------------
  // convertSiteToNextJs
  // ---------------------------------------------------------------------

  /** The page conversion the crawl applies, with the run's stylesheet list. */
  function Converter(cssFiles: seq<string>): Page -> NextPage
  {
    page => ConvertedPage(page, cssFiles)
  }

  /** The stylesheet list a run computes from the home page: it does not depend on any download. */
  function CssFiles(home: Page): seq<string>
  {
    Basenames(PresentHrefs(home.stylesheetHrefs))
  }

  /** The pages a run started at `url` writes, in order. */
  function CrawlWrites(url: string, siteUrl: string, fetchPage: string -> Option<Page>): seq<PageWrite>
  {
    if !Fetched(fetchPage(url)) then []
    else
      var home := fetchPage(url).value;
      var cssFiles := CssFiles(home);
      [PageWrite("", ConvertedPage(home, cssFiles))] + SubpageWrites(Subpages(siteUrl, home.anchors, fetchPage), Converter(cssFiles))
  }

  /** The routes written are the crawl's routes: "" first, then the fetched page links. */
  lemma CrawlWritesRoutes(url: string, siteUrl: string, fetchPage: string -> Option<Page>)
    ensures Routes(CrawlWrites(url, siteUrl, fetchPage)) == CrawlRoutes(url, siteUrl, fetchPage)
  {
    if Fetched(fetchPage(url)) {
      var home := fetchPage(url).value;
      var cssFiles := CssFiles(home);
      HomeThenSubpagesRoutes(ConvertedPage(home, cssFiles), Subpages(siteUrl, home.anchors, fetchPage), Converter(cssFiles));
    }
  }

  /** Each subpage is written, in order, as the later version would with a localizer that keeps every reference. */
  lemma SubpageWritesKeepReferences(subs: seq<Subpage>, cssFiles: seq<string>)
    ensures |SubpageWrites(subs, Converter(cssFiles))| == |subs|
    ensures forall i :: 0 <= i < |subs| ==>
      SubpageWrites(subs, Converter(cssFiles))[i] == PageWrite(subs[i].route, PageRewrite.ConvertedPage(subs[i].page, cssFiles, Keep))
  {
    SubpageWritesPointwise(subs, Converter(cssFiles));
    forall i | 0 <= i < |subs|
      ensures ConvertedPage(subs[i].page, cssFiles) == PageRewrite.ConvertedPage(subs[i].page, cssFiles, Keep)
    {
      ConvertedPageKeepsReferences(subs[i].page, cssFiles);
    }
  }

  /** Every page the crawl writes imports one stylesheet per collected href of the home page. */
  lemma CrawlWritesShareImports(url: string, siteUrl: string, fetchPage: string -> Option<Page>)
    requires Fetched(fetchPage(url))
    ensures forall w :: w in CrawlWrites(url, siteUrl, fetchPage) ==>
      w.page.imports == ImportBlock(Basenames(PresentHrefs(fetchPage(url).value.stylesheetHrefs)))
  {
    var home := fetchPage(url).value;
    var cssFiles := CssFiles(home);
    SubpageWritesShareImports(Subpages(siteUrl, home.anchors, fetchPage), Converter(cssFiles), ImportBlock(cssFiles));
  }

  /** One iteration of the crawl loop: the write for `link`, if it is a page link whose fetch returns a page. */
  method ConvertLink(siteUrl: string, link: string, fetchPage: string -> Option<Page>, cssFiles: seq<string>)
    returns (written: seq<PageWrite>)
    ensures written == SubpageWrites(SubpageOf(siteUrl, link, fetchPage), Converter(cssFiles))
  {
    written := [];
    if "/" <= link && link != "/" {
      var pageHtml := fetchPage(siteUrl + link);
      if pageHtml.Some? && pageHtml.value.text != "" {
        var route := Route(link);
        written := [PageWrite(route, ConvertedPage(pageHtml.value, cssFiles))];
        assert [Subpage(route, pageHtml.value)][..0] == [];
      }
    }
  }

  /** The crawl loop of `convertSiteToNextJs`: each internal link whose fetch returns a page is converted and written. */
  method ConvertSubpages(siteUrl: string, links: seq<string>, fetchPage: string -> Option<Page>, cssFiles: seq<string>)
    returns (written: seq<PageWrite>)
    ensures written == SubpageWrites(Subpages(siteUrl, links, fetchPage), Converter(cssFiles))
  {
    written := [];
    for i := 0 to |links|
      invariant written == SubpageWrites(Subpages(siteUrl, links[..i], fetchPage), Converter(cssFiles))
    {
      assert links[..i + 1][..i] == links[..i];
      var w := ConvertLink(siteUrl, links[i], fetchPage, cssFiles);
      SubpageWritesStep(Subpages(siteUrl, links[..i], fetchPage), SubpageOf(siteUrl, links[i], fetchPage), Converter(cssFiles));
      written := written + w;
    }
    assert links[..|links|] == links;
  }

  /**
   * `convertSiteToNextJs(url)`: fetch the home page from `url` (a failure
   * ends the run with nothing written), save its stylesheets, write the home
   * page at route "", then each page link in document order whose fetch from
   * `siteUrl + link` returns a page.
   */
  method ConvertSiteToNextJs(url: string, siteUrl: string, fetchPage: string -> Option<Page>, fetchCss: string -> Option<string>)
    returns (written: seq<PageWrite>, stylesheets: seq<SavedFile>)
    ensures written == CrawlWrites(url, siteUrl, fetchPage)
    ensures Fetched(fetchPage(url)) ==>
      stylesheets == SaveStylesheets(PresentHrefs(fetchPage(url).value.stylesheetHrefs), ResolvedFetch(siteUrl, fetchCss), Basename, Verbatim)
    ensures !Fetched(fetchPage(url)) ==> stylesheets == []
  {
    written, stylesheets := [], [];
    var html := fetchPage(url);
    if html.None? || html.value.text == "" {
      return;
    }
    var home := html.value;
    var cssFiles;
    cssFiles, stylesheets := DownloadAndSaveCss(siteUrl, home.stylesheetHrefs, fetchCss);
    var homePageContent := ConvertedPage(home, cssFiles);
    var subpages := ConvertSubpages(siteUrl, home.anchors, fetchPage, cssFiles);
    written := [PageWrite("", homePageContent)] + subpages;
  }
}
