/**
 * The older version of the converter (index.js): an asset is localized to
 * `/<assetDir>/<basename>`, a stylesheet is rewritten by a font pass and then
 * an image pass, saved under the basename of its href, and the crawl writes
 * the home page and every fetched page link.
 *
 * Its `convertToNextPage` starts the image and background downloads in
 * `.each(async …)` callbacks it does not await. Each callback runs only up to
 * its first `await`, so the title and body are read, and the page generated,
 * before any callback sets an attribute: the page keeps every reference as
 * fetched, as in convertSite.js.
 */
module IndexJs {
  import opened Wrappers
  import opened Text
  import opened Paths
  import opened CssUrl
  import opened Site
  import PageRewrite
  import ConvertSite

  // ---------------------------------------------------------------------
  // downloadAndSaveAsset
  // ---------------------------------------------------------------------

  /**
   * The path `downloadAndSaveAsset(url, assetDir, …)` returns, whether or not
   * the download succeeded: the query string is kept and a "data:" URL is not
   * treated specially.
   */
  function AssetPath(assetDir: string, url: string): string
  {
    "/" + assetDir + "/" + Basename(url)
  }

  /** The download it attempts: the reference resolved against the site, written under `public` at the returned path. */
  function AssetDownload(siteUrl: string, assetDir: string, url: string): (d: Download)
    ensures d.url == Resolve(siteUrl, url)
    ensures d.file == "public" + AssetPath(assetDir, url)
  {
    Download(ResolveAsset(siteUrl, url), "public/" + assetDir + "/" + Basename(url))
  }

  /** The returned path is the asset directory followed by one name without '/'. */
  lemma AssetPathShape(assetDir: string, url: string)
    ensures "/" + assetDir + "/" <= AssetPath(assetDir, url)
    ensures '/' !in AssetPath(assetDir, url)[|assetDir| + 2..]
  {
    BasenameSpec(url);
    assert AssetPath(assetDir, url)[|assetDir| + 2..] == Basename(url);
  }

  /** The name is whatever follows the last '/': a query string or a "data:" payload is kept in it. */
  lemma AssetPathOfName(assetDir: string, dir: string, n: string)
    requires n != [] && '/' !in n
    ensures AssetPath(assetDir, dir + "/" + n) == "/" + assetDir + "/" + n
  {
    BasenameAfterSlash(dir, n);
  }

  /** A query string stays in the returned name ("/img/a.png?v=2" becomes "/images/a.png?v=2"). */
  lemma QueryKept(assetDir: string, dir: string, name: string, query: string)
    requires name != [] && '/' !in name && '/' !in query
    ensures AssetPath(assetDir, dir + "/" + name + "?" + query) == "/" + assetDir + "/" + (name + "?" + query)
  {
    var n := name + "?" + query;
    assert dir + "/" + name + "?" + query == dir + "/" + n;
    AssetPathOfName(assetDir, dir, n);
  }

  /**
   * A "data:" URL is not returned unchanged: its payload after the last '/'
   * becomes a file name ("data:image/png;base64,AA" becomes
   * "/images/png;base64,AA").
   */
  lemma DataUrlNotKept(assetDir: string, mime: string, payload: string)
    requires payload != [] && '/' !in payload
    ensures AssetPath(assetDir, "data:" + mime + "/" + payload) == "/" + assetDir + "/" + payload
    ensures AssetPath(assetDir, "data:" + mime + "/" + payload) != "data:" + mime + "/" + payload
  {
    AssetPathOfName(assetDir, "data:" + mime, payload);
    assert AssetPath(assetDir, "data:" + mime + "/" + payload)[0] == '/';
    assert ("data:" + mime + "/" + payload)[0] == 'd';
  }

  /** Localizing a returned path into another directory keeps the name and changes only the directory. */
  lemma AssetPathRelocates(dir1: string, dir2: string, url: string)
    requires Basename(url) != []
    ensures AssetPath(dir2, AssetPath(dir1, url)) == AssetPath(dir2, url)
  {
    BasenameSpec(url);
    var n := Basename(url);
    assert AssetPath(dir1, url) == ("/" + dir1) + "/" + n;
    AssetPathOfName(dir2, "/" + dir1, n);
  }

  // ---------------------------------------------------------------------
  // downloadAndSaveCss
  // ---------------------------------------------------------------------

  /** The localizer of the font pass. */
  function FontAsset(url: string): string
  {
    AssetPath("fonts", url)
  }

  /** The localizer of the image pass. */
  function ImageAsset(url: string): string
  {
    AssetPath("images", url)
  }

  /** The font pass, then the image pass over the font pass's output. */
  function RewrittenCss(css: string): string
  {
    Pass(Pass(css, FontAsset), ImageAsset)
  }

  /** A returned font path can itself be matched as a url() reference: it starts with '/' and has no quote or ')'. */
  lemma FontPathIsRef(r: string)
    requires forall k :: 0 <= k < |r| ==> IsRefChar(r[k])
    ensures var f := FontAsset(r);
      f != [] && f[0] == '/' && forall k :: 0 <= k < |f| ==> IsRefChar(f[k])
  {
    var n := Basename(r);
    BasenameSpec(r);
    var f := FontAsset(r);
    assert f == "/fonts/" + n;
    forall k | 0 <= k < |f| ensures IsRefChar(f[k]) {
      if k >= 7 {
        assert f[k] == n[k - 7];
        assert f[k] in r;
      }
    }
  }

  /**
   * A stylesheet with one url() (and no other 'u', no '/' before it): the
   * font pass points it at "/fonts/<name>", and the image pass, matching
   * that path again, points it at "/images/<name>".
   */
  lemma FontsEndUpInImages(pre: string, r: string, post: string)
    requires 'u' !in pre && 'u' !in post && '/' !in pre
    requires r != [] && forall k :: 0 <= k < |r| ==> IsRefChar(r[k])
    requires r[0] !in pre + "url("
    requires Basename(r) != []
    ensures Pass(pre + "url(" + r + ")" + post, FontAsset) == pre + "url(" + FontAsset(r) + ")" + post
    ensures RewrittenCss(pre + "url(" + r + ")" + post) == pre + "url(" + ImageAsset(r) + ")" + post
  {
    PassSingleUrl(pre, r, post, FontAsset);
    FontPathIsRef(r);
    PassSingleUrl(pre, FontAsset(r), post, ImageAsset);
    AssetPathRelocates("fonts", "images", r);
  }

  /**
   * One stylesheet: resolve the href, fetch it, rewrite it with the font pass
   * and then the image pass, and save it as `styles/<basename>`; nothing when
   * the fetch fails.
   */
  method SaveStylesheet(siteUrl: string, cssLink: string, fetchCss: string -> Option<string>)
    returns (file: Option<SavedFile>)
    ensures fetchCss(Resolve(siteUrl, cssLink)).None? ==> file.None?
    ensures fetchCss(Resolve(siteUrl, cssLink)).Some? ==>
      file == Some(SavedFile(Basename(cssLink), RewrittenCss(fetchCss(Resolve(siteUrl, cssLink)).value)))
  {
    var cssUrl: string;
    if "http" <= cssLink {
      cssUrl := cssLink;
    } else if "//" <= cssLink {
      cssUrl := "https:" + cssLink;
    } else if "/" <= cssLink {
      cssUrl := siteUrl + cssLink;
    } else {
      cssUrl := siteUrl + "/" + cssLink;
    }
    assert cssUrl == Resolve(siteUrl, cssLink);
    var response := fetchCss(cssUrl);
    file := None;
    if response.Some? {
      var fontPass, fontRequests := RewritePass(response.value, FontAsset);
      var imagePass, imageRequests := RewritePass(fontPass, ImageAsset);
      file := Some(SavedFile(Basename(cssLink), imagePass));
    }
  }

  /**
   * `downloadAndSaveCss`: collect the present, non-empty stylesheet hrefs and
   * save each one. The returned list names only the stylesheets whose fetch
   * succeeded, by the basename of their href, in document order.
   */
  method DownloadAndSaveCss(siteUrl: string, hrefs: seq<Option<string>>, fetchCss: string -> Option<string>)
    returns (cssFiles: seq<string>, saved: seq<SavedFile>)
    ensures saved == SaveStylesheets(PresentHrefs(hrefs), ResolvedFetch(siteUrl, fetchCss), Basename, RewrittenCss)
    ensures cssFiles == Names(saved)
  {
    var cssLinks := CollectCssLinks(hrefs);
    ghost var fetch := ResolvedFetch(siteUrl, fetchCss);
    cssFiles, saved := [], [];
    for i := 0 to |cssLinks|
      invariant saved == SaveStylesheets(cssLinks[..i], fetch, Basename, RewrittenCss)
      invariant cssFiles == Names(saved)
    {
      var file := SaveStylesheet(siteUrl, cssLinks[i], fetchCss);
      assert fetch(cssLinks[i]) == fetchCss(Resolve(siteUrl, cssLinks[i]));
      SaveStylesheetsStep(cssLinks, i, fetch, Basename, RewrittenCss);
      if file.Some? {
        NamesAppend(saved, file.value);
        saved := saved + [file.value];
        cssFiles := cssFiles + [file.value.name];
      }
    }
    assert cssLinks[..|cssLinks|] == cssLinks;
  }

  // ---------------------------------------------------------------------
  // convertSiteToNextJs
  // ---------------------------------------------------------------------

  /** The stylesheet list a run passes to every page: the names of the stylesheets saved. */
  function CssFiles(siteUrl: string, home: Page, fetchCss: string -> Option<string>): seq<string>
  {
    Names(SaveStylesheets(PresentHrefs(home.stylesheetHrefs), ResolvedFetch(siteUrl, fetchCss), Basename, RewrittenCss))
  }

  /** The pages a run writes, in order; each page keeps its references as fetched. */
  function CrawlWrites(siteUrl: string, fetchPage: string -> Option<Page>, fetchCss: string -> Option<string>): seq<PageWrite>
  {
    if !Fetched(fetchPage(siteUrl)) then []
    else
      var home := fetchPage(siteUrl).value;
      var cssFiles := CssFiles(siteUrl, home, fetchCss);
      [PageWrite("", ConvertSite.ConvertedPage(home, cssFiles))]
        + SubpageWrites(Subpages(siteUrl, home.anchors, fetchPage), ConvertSite.Converter(cssFiles))
  }

  /** The routes written are the crawl's routes: "" first, then the fetched page links. */
  lemma CrawlWritesRoutes(siteUrl: string, fetchPage: string -> Option<Page>, fetchCss: string -> Option<string>)
    ensures Routes(CrawlWrites(siteUrl, fetchPage, fetchCss)) == CrawlRoutes(siteUrl, siteUrl, fetchPage)
  {
    if Fetched(fetchPage(siteUrl)) {
      var home := fetchPage(siteUrl).value;
      var cssFiles := CssFiles(siteUrl, home, fetchCss);
      HomeThenSubpagesRoutes(ConvertSite.ConvertedPage(home, cssFiles), Subpages(siteUrl, home.anchors, fetchPage), ConvertSite.Converter(cssFiles));
    }
  }

  /**
   * Every page written is what index.ts would generate with a localizer that
   * keeps every reference: the home page first, then one page per subpage,
   * each with the names of the saved stylesheets as imports.
   */
  lemma CrawlWritesKeepReferences(siteUrl: string, fetchPage: string -> Option<Page>, fetchCss: string -> Option<string>)
    requires Fetched(fetchPage(siteUrl))
    ensures var home := fetchPage(siteUrl).value;
      var cssFiles := CssFiles(siteUrl, home, fetchCss);
      var subs := Subpages(siteUrl, home.anchors, fetchPage);
      var written := CrawlWrites(siteUrl, fetchPage, fetchCss);
      |written| == 1 + |subs| &&
      written[0] == PageWrite("", PageRewrite.ConvertedPage(home, cssFiles, ConvertSite.Keep)) &&
      forall i :: 0 <= i < |subs| ==>
        written[i + 1] == PageWrite(subs[i].route, PageRewrite.ConvertedPage(subs[i].page, cssFiles, ConvertSite.Keep))
  {
    var home := fetchPage(siteUrl).value;
    var cssFiles := CssFiles(siteUrl, home, fetchCss);
    var subs := Subpages(siteUrl, home.anchors, fetchPage);
    var head := PageWrite("", ConvertSite.ConvertedPage(home, cssFiles));
    var rest := SubpageWrites(subs, ConvertSite.Converter(cssFiles));
    assert CrawlWrites(siteUrl, fetchPage, fetchCss) == [head] + rest;
    ConvertSite.SubpageWritesKeepReferences(subs, cssFiles);
    ConvertSite.ConvertedPageKeepsReferences(home, cssFiles);
    forall i | 0 <= i < |subs| ensures ([head] + rest)[i + 1] == rest[i] {
    }
  }

  /**
   * `convertSiteToNextJs`: fetch the home page (a failure ends the run with
   * nothing written), save its stylesheets, write the home page at route "",
   * then each page link in document order whose fetch returns a page. The link
   * loop is the one of convertSite.js. Returns the pages written, in order,
   * and the stylesheets saved.
   */
  method ConvertSiteToNextJs(siteUrl: string, fetchPage: string -> Option<Page>, fetchCss: string -> Option<string>)
    returns (written: seq<PageWrite>, stylesheets: seq<SavedFile>)
    ensures written == CrawlWrites(siteUrl, fetchPage, fetchCss)
    ensures Fetched(fetchPage(siteUrl)) ==>
      stylesheets == SaveStylesheets(PresentHrefs(fetchPage(siteUrl).value.stylesheetHrefs), ResolvedFetch(siteUrl, fetchCss), Basename, RewrittenCss)
    ensures !Fetched(fetchPage(siteUrl)) ==> stylesheets == []
  {
    written, stylesheets := [], [];
    var html := fetchPage(siteUrl);
    if html.None? || html.value.text == "" {
      return;
    }
    var home := html.value;
    var cssFiles;
    cssFiles, stylesheets := DownloadAndSaveCss(siteUrl, home.stylesheetHrefs, fetchCss);
    var homePageContent := ConvertSite.ConvertedPage(home, cssFiles);
    var subpages := ConvertSite.ConvertSubpages(siteUrl, home.anchors, fetchPage, cssFiles);
    written := [PageWrite("", homePageContent)] + subpages;
  }
}
