/**
 * What the three versions of the converter share: the page as the parser
 * yields it, the stylesheet-collection and crawl specifications, and the
 * block of stylesheet imports every generated page starts with.
 */
module Site {
  import opened Wrappers
  import opened Text
  import opened Paths

  /**
   * A fetched HTML page, as the sequences the parser yields in document order:
   * the raw text, every `<a href>` value (anchors without one are dropped),
   * the `href` of every `<link rel='stylesheet'>`, the `src` of every `<img>`
   * (`None` when absent), every `style` attribute, and the title text.
   */
  datatype Page = Page(
    text: string,
    anchors: seq<string>,
    stylesheetHrefs: seq<Option<string>>,
    imgSrcs: seq<Option<string>>,
    styles: seq<string>,
    title: string)

  /** `if (html)`: the fetch returned something and its text is not empty. */
  predicate Fetched(r: Option<Page>)
  {
    r.Some? && r.value.text != []
  }

  /** A stylesheet or asset written to disk: its file name and content. */
  datatype SavedFile = SavedFile(name: string, content: string)

  /** An asset download: the URL requested and the output path it is written to. */
  datatype Download = Download(url: string, file: string)

  /** A generated page: its imports, title and the (possibly rewritten) body attributes. */
  datatype NextPage = NextPage(imports: string, title: string, imgSrcs: seq<Option<string>>, styles: seq<string>)

  /** A page written to `app/<route>/page.tsx`. */
  datatype PageWrite = PageWrite(route: string, page: NextPage)

  function Names(files: seq<SavedFile>): seq<string>
    decreases |files|
  {
    if files == [] then [] else Names(files[..|files| - 1]) + [files[|files| - 1].name]
  }

  /** Naming one more file appends its name. */
  lemma NamesAppend(files: seq<SavedFile>, f: SavedFile)
    ensures Names(files + [f]) == Names(files) + [f.name]
  {
    assert (files + [f])[..|files|] == files;
  }

  function Routes(writes: seq<PageWrite>): seq<string>
    decreases |writes|
  {
    if writes == [] then [] else Routes(writes[..|writes| - 1]) + [writes[|writes| - 1].route]
  }

  /** Writing one more page adds its route at the end. */
  lemma RoutesAppend(writes: seq<PageWrite>, w: PageWrite)
    ensures Routes(writes + [w]) == Routes(writes) + [w.route]
  {
    assert (writes + [w])[..|writes|] == writes;
  }

  /** The routes of two runs of writes, one after the other. */
  lemma {:induction false} RoutesConcat(a: seq<PageWrite>, b: seq<PageWrite>)
    ensures Routes(a + b) == Routes(a) + Routes(b)
    decreases |b|
  {
    if b == [] {
      assert a + b == a;
    } else {
      var k := |b| - 1;
      assert a + b == (a + b[..k]) + [b[k]];
      RoutesConcat(a, b[..k]);
      RoutesAppend(a + b[..k], b[k]);
      RoutesAppend(b[..k], b[k]);
      assert b[..k] + [b[k]] == b;
    }
  }

  // ---------------------------------------------------------------------
  // Stylesheet collection
  // ---------------------------------------------------------------------

  /** `if (href) cssLinks.push(href)`: the present, non-empty hrefs in document order. */
  function PresentHrefs(hrefs: seq<Option<string>>): (links: seq<string>)
    ensures |links| <= |hrefs|
    ensures forall l :: l in links ==> l != [] && Some(l) in hrefs
    decreases |hrefs|
  {
    if hrefs == [] then []
    else
      var k := |hrefs| - 1;
      var init := PresentHrefs(hrefs[..k]);
      assert forall h :: h in hrefs[..k] ==> h in hrefs;
      match hrefs[k]
      case Some(h) => if h != [] then init + [h] else init
      case None => init
  }

  /** Every present, non-empty href is collected. */
  lemma {:induction false} PresentHrefsComplete(hrefs: seq<Option<string>>)
    ensures forall l :: Some(l) in hrefs && l != [] ==> l in PresentHrefs(hrefs)
    decreases |hrefs|
  {
    if hrefs != [] {
      var k := |hrefs| - 1;
      PresentHrefsComplete(hrefs[..k]);
      assert hrefs == hrefs[..k] + [hrefs[k]];
    }
  }

  /** The first loop of `downloadAndSaveCss`, the same in every version: the present, non-empty stylesheet hrefs in document order. */
  method CollectCssLinks(hrefs: seq<Option<string>>) returns (cssLinks: seq<string>)
    ensures cssLinks == PresentHrefs(hrefs)
  {
    cssLinks := [];
    for i := 0 to |hrefs|
      invariant cssLinks == PresentHrefs(hrefs[..i])
    {
      assert hrefs[..i + 1][..i] == hrefs[..i];
      var href := hrefs[i];
      if href.Some? && href.value != "" {
        cssLinks := cssLinks + [href.value];
      }
    }
    assert hrefs[..|hrefs|] == hrefs;
  }

  /**
   * The fetch oracle seen from a link: the link is resolved against the site
   * first (`fetch` answers `None` when the request or the write throws).
   */
  function ResolvedFetch(siteUrl: string, fetch: string -> Option<string>): string -> Option<string>
  {
    link => fetch(Resolve(siteUrl, link))
  }

  /**
   * The stylesheets a collection loop writes: for each link in order that
   * `fetch` answers (see ResolvedFetch), the file `name(link)` holding
   * `rewrite(content)`. Failed links write nothing and the loop goes on.
   */
  function SaveStylesheets(links: seq<string>, fetch: string -> Option<string>,
                           name: string -> string, rewrite: string -> string): seq<SavedFile>
    decreases |links|
  {
    if links == [] then []
    else
      var k := |links| - 1;
      var init := SaveStylesheets(links[..k], fetch, name, rewrite);
      match fetch(links[k])
      case Some(content) => init + [SavedFile(name(links[k]), rewrite(content))]
      case None => init
  }

  /** One more iteration of the collection loop: the link's file is appended when its fetch succeeds. */
  lemma SaveStylesheetsStep(links: seq<string>, i: nat, fetch: string -> Option<string>,
                            name: string -> string, rewrite: string -> string)
    requires i < |links|
    ensures fetch(links[i]).None? ==>
      SaveStylesheets(links[..i + 1], fetch, name, rewrite) == SaveStylesheets(links[..i], fetch, name, rewrite)
    ensures fetch(links[i]).Some? ==>
      SaveStylesheets(links[..i + 1], fetch, name, rewrite) ==
        SaveStylesheets(links[..i], fetch, name, rewrite) + [SavedFile(name(links[i]), rewrite(fetch(links[i]).value))]
  {
    assert links[..i + 1][..i] == links[..i];
  }

  /**
   * A file is saved exactly when some link's fetch succeeded, under that
   * link's name and with that link's rewritten content.
   */
  lemma {:induction false} SaveStylesheetsMembership(links: seq<string>, fetch: string -> Option<string>,
                                                     name: string -> string, rewrite: string -> string, f: SavedFile)
    ensures f in SaveStylesheets(links, fetch, name, rewrite) <==>
      exists l :: l in links && fetch(l).Some? &&
        f == SavedFile(name(l), rewrite(fetch(l).value))
    decreases |links|
  {
    if links != [] {
      var k := |links| - 1;
      var init := links[..k];
      var last := links[k];
      SaveStylesheetsMembership(init, fetch, name, rewrite, f);
      assert links == init + [last];
      var rest := SaveStylesheets(init, fetch, name, rewrite);
      var r := fetch(last);
      if r.Some? && f == SavedFile(name(last), rewrite(r.value)) {
        assert f in SaveStylesheets(links, fetch, name, rewrite);
      } else {
        assert f in SaveStylesheets(links, fetch, name, rewrite) <==> f in rest;
        if f in rest {
          var l :| l in init && fetch(l).Some? &&
            f == SavedFile(name(l), rewrite(fetch(l).value));
          assert l in links;
        }
      }
    }
  }

  /** When every fetch succeeds, one file per link is saved, in link order. */
  lemma {:induction false} SaveStylesheetsAllFetched(links: seq<string>, fetch: string -> Option<string>,
                                                     name: string -> string, rewrite: string -> string)
    requires forall i :: 0 <= i < |links| ==> fetch(links[i]).Some?
    ensures var saved := SaveStylesheets(links, fetch, name, rewrite);
      |saved| == |links| &&
      forall i :: 0 <= i < |links| ==> saved[i] == SavedFile(name(links[i]), rewrite(fetch(links[i]).value))
    decreases |links|
  {
    if links != [] {
      var k := |links| - 1;
      var init := links[..k];
      forall i | 0 <= i < |init| ensures fetch(init[i]).Some? {
        assert init[i] == links[i];
      }
      SaveStylesheetsAllFetched(init, fetch, name, rewrite);
      SaveStylesheetsStep(links, k, fetch, name, rewrite);
      assert links[..k + 1] == links;
    }
  }

  /** When every fetch fails, nothing is saved. */
  lemma {:induction false} SaveStylesheetsNoneFetched(links: seq<string>, fetch: string -> Option<string>,
                                                      name: string -> string, rewrite: string -> string)
    requires forall l :: l in links ==> fetch(l).None?
    ensures SaveStylesheets(links, fetch, name, rewrite) == []
    decreases |links|
  {
    if links != [] {
      var k := |links| - 1;
      SaveStylesheetsNoneFetched(links[..k], fetch, name, rewrite);
    }
  }

  // ---------------------------------------------------------------------
  // The import block
  // ---------------------------------------------------------------------

  function ImportLine(file: string): string
  {
    "import '@/styles/" + file + "';"
  }

  /** `cssFiles.map((file) => `import '@/styles/${file}';`).join("\n")`. */
  function ImportBlock(files: seq<string>): string
  {
    Join(seq(|files|, i requires 0 <= i < |files| => ImportLine(files[i])), '\n')
  }

  /** The import block has exactly one line per file, in order (file names without line breaks). */
  lemma ImportBlockLines(files: seq<string>)
    requires |files| >= 1
    requires forall f :: f in files ==> '\n' !in f
    ensures Split(ImportBlock(files), '\n') == seq(|files|, i requires 0 <= i < |files| => ImportLine(files[i]))
  {
    var lines := seq(|files|, i requires 0 <= i < |files| => ImportLine(files[i]));
    forall k | 0 <= k < |lines| ensures '\n' !in lines[k] {
      assert files[k] in files;
      var prefix := "import '@/styles/";
      assert '\n' !in prefix;
      assert '\n' !in "';";
    }
    SplitJoin(lines, '\n');
  }

  // ---------------------------------------------------------------------
  // The crawl
  // ---------------------------------------------------------------------

  /** A page the crawl writes after the home page: its route and fetched content. */
  datatype Subpage = Subpage(route: string, page: Page)

  /**
   * The link loop: each link, in document order, that starts with '/' and is
   * not "/" is fetched from `siteUrl + link`; a fetched page is kept under
   * `Route(link)`, a failed one skipped. Repeated links are processed again.
   */
  function Subpages(siteUrl: string, links: seq<string>, fetch: string -> Option<Page>): seq<Subpage>
    decreases |links|
  {
    if links == [] then []
    else
      var k := |links| - 1;
      Subpages(siteUrl, links[..k], fetch) + SubpageOf(siteUrl, links[k], fetch)
  }

  /** One iteration of the link loop: the page kept for `link`, if any. */
  function SubpageOf(siteUrl: string, link: string, fetch: string -> Option<Page>): seq<Subpage>
  {
    if IsPageLink(link) && Fetched(fetch(siteUrl + link)) then
      [Subpage(Route(link), fetch(siteUrl + link).value)]
    else []
  }

  /** The routes of the given subpages, in order. */
  function SubpageRoutes(subs: seq<Subpage>): seq<string>
    decreases |subs|
  {
    if subs == [] then [] else SubpageRoutes(subs[..|subs| - 1]) + [subs[|subs| - 1].route]
  }

  /** One more subpage adds its route at the end. */
  lemma SubpageRoutesAppend(subs: seq<Subpage>, sp: Subpage)
    ensures SubpageRoutes(subs + [sp]) == SubpageRoutes(subs) + [sp.route]
  {
    assert (subs + [sp])[..|subs|] == subs;
  }

  /** One more iteration of the link loop: the route of a followed, fetched link is appended. */
  lemma SubpageRoutesStep(siteUrl: string, links: seq<string>, i: nat, fetch: string -> Option<Page>)
    requires i < |links|
    ensures IsPageLink(links[i]) && Fetched(fetch(siteUrl + links[i])) ==>
      SubpageRoutes(Subpages(siteUrl, links[..i + 1], fetch)) == SubpageRoutes(Subpages(siteUrl, links[..i], fetch)) + [Route(links[i])]
    ensures !(IsPageLink(links[i]) && Fetched(fetch(siteUrl + links[i]))) ==>
      Subpages(siteUrl, links[..i + 1], fetch) == Subpages(siteUrl, links[..i], fetch)
  {
    assert links[..i + 1] == links[..i] + [links[i]];
    SubpagesSnoc(siteUrl, links[..i], links[i], fetch);
    var subs := Subpages(siteUrl, links[..i], fetch);
    if IsPageLink(links[i]) && Fetched(fetch(siteUrl + links[i])) {
      SubpageRoutesAppend(subs, Subpage(Route(links[i]), fetch(siteUrl + links[i]).value));
    } else {
      assert subs + [] == subs;
    }
  }

  /**
   * The routes a run writes, in order: none when the home page (fetched from
   * `homeUrl`) fails; otherwise "" first and then the subpage routes.
   */
  function CrawlRoutes(homeUrl: string, siteUrl: string, fetch: string -> Option<Page>): seq<string>
  {
    if !Fetched(fetch(homeUrl)) then []
    else [""] + SubpageRoutes(Subpages(siteUrl, fetch(homeUrl).value.anchors, fetch))
  }

  /** The link `l` yields the subpage `sp`: it is followed, its fetch returns a non-empty page, and `sp` is that page at its route. */
  predicate WrittenFor(siteUrl: string, l: string, fetch: string -> Option<Page>, sp: Subpage)
  {
    IsPageLink(l) && Fetched(fetch(siteUrl + l)) && sp == Subpage(Route(l), fetch(siteUrl + l).value)
  }

  /** A subpage is written exactly for a followed link whose fetch returned a non-empty page. */
  lemma {:induction false} SubpagesMembership(siteUrl: string, links: seq<string>, fetch: string -> Option<Page>, sp: Subpage)
    ensures sp in Subpages(siteUrl, links, fetch) <==> exists l :: l in links && WrittenFor(siteUrl, l, fetch, sp)
    decreases |links|
  {
    if links != [] {
      var k := |links| - 1;
      SubpagesMembership(siteUrl, links[..k], fetch, sp);
      SubpagesMembershipStep(siteUrl, links, fetch, sp);
    }
  }

  /** One more link: the subpage is written for it or for an earlier link. */
  lemma SubpagesMembershipStep(siteUrl: string, links: seq<string>, fetch: string -> Option<Page>, sp: Subpage)
    requires links != []
    requires sp in Subpages(siteUrl, links[..|links| - 1], fetch) <==>
      exists l :: l in links[..|links| - 1] && WrittenFor(siteUrl, l, fetch, sp)
    ensures sp in Subpages(siteUrl, links, fetch) <==> exists l :: l in links && WrittenFor(siteUrl, l, fetch, sp)
  {
    var init, last := links[..|links| - 1], links[|links| - 1];
    assert forall l :: l in links <==> l in init || l == last by {
      assert links == init + [last];
    }
    assert sp in Subpages(siteUrl, links, fetch) <==> sp in Subpages(siteUrl, init, fetch) || sp in SubpageOf(siteUrl, last, fetch);
    assert sp in SubpageOf(siteUrl, last, fetch) <==> WrittenFor(siteUrl, last, fetch, sp);
  }

  /** One more link adds the page kept for it, if any, at the end. */
  lemma SubpagesSnoc(siteUrl: string, links: seq<string>, link: string, fetch: string -> Option<Page>)
    ensures Subpages(siteUrl, links + [link], fetch) == Subpages(siteUrl, links, fetch) + SubpageOf(siteUrl, link, fetch)
  {
    assert (links + [link])[..|links|] == links;
  }

  /** The loop is a fold over the links: no de-duplication, document order kept. */
  lemma {:induction false} SubpagesAppend(siteUrl: string, a: seq<string>, b: seq<string>, fetch: string -> Option<Page>)
    ensures Subpages(siteUrl, a + b, fetch) == Subpages(siteUrl, a, fetch) + Subpages(siteUrl, b, fetch)
    decreases |b|
  {
    if b == [] {
      assert a + b == a;
    } else {
      var k := |b| - 1;
      var init, last := b[..k], b[k];
      assert b == init + [last];
      assert a + b == (a + init) + [last];
      SubpagesSnoc(siteUrl, a + init, last, fetch);
      SubpagesSnoc(siteUrl, init, last, fetch);
      SubpagesAppend(siteUrl, a, init, fetch);
    }
  }

  /** The links followed, in order: those starting with '/' other than "/". */
  function PageLinks(links: seq<string>): (r: seq<string>)
    ensures |r| <= |links|
    ensures forall l :: l in r <==> l in links && IsPageLink(l)
    decreases |links|
  {
    if links == [] then []
    else
      var k := |links| - 1;
      if IsPageLink(links[k]) then PageLinks(links[..k]) + [links[k]] else PageLinks(links[..k])
  }

  /** The routes of the given links, in order. */
  function LinkRoutes(links: seq<string>): (routes: seq<string>)
    decreases |links|
  {
    if links == [] then []
    else LinkRoutes(links[..|links| - 1]) + [Route(links[|links| - 1])]
  }

  /** One more link adds its route at the end. */
  lemma LinkRoutesSnoc(links: seq<string>, link: string)
    ensures LinkRoutes(links + [link]) == LinkRoutes(links) + [Route(link)]
  {
    assert (links + [link])[..|links|] == links;
  }

  /** One more link keeps the routes written equal to the routes of the followed links. */
  lemma SubpagesAllFetchedStep(siteUrl: string, init: seq<string>, last: string, fetch: string -> Option<Page>)
    requires IsPageLink(last) ==> Fetched(fetch(siteUrl + last))
    requires SubpageRoutes(Subpages(siteUrl, init, fetch)) == LinkRoutes(PageLinks(init))
    ensures SubpageRoutes(Subpages(siteUrl, init + [last], fetch)) == LinkRoutes(PageLinks(init + [last]))
  {
    var links := init + [last];
    assert links[..|init|] == init;
    var subs := Subpages(siteUrl, init, fetch);
    SubpagesSnoc(siteUrl, init, last, fetch);
    if IsPageLink(last) {
      var sp := Subpage(Route(last), fetch(siteUrl + last).value);
      assert SubpageOf(siteUrl, last, fetch) == [sp];
      SubpageRoutesAppend(subs, sp);
      assert PageLinks(links) == PageLinks(init) + [last];
      LinkRoutesSnoc(PageLinks(init), last);
    } else {
      assert SubpageOf(siteUrl, last, fetch) == [];
      assert subs + [] == subs;
      assert PageLinks(links) == PageLinks(init);
    }
  }

  /** When every followed link fetches, each one is written, in order, under its route. */
  lemma {:induction false} SubpagesAllFetched(siteUrl: string, links: seq<string>, fetch: string -> Option<Page>)
    requires forall i :: 0 <= i < |links| && IsPageLink(links[i]) ==> Fetched(fetch(siteUrl + links[i]))
    ensures SubpageRoutes(Subpages(siteUrl, links, fetch)) == LinkRoutes(PageLinks(links))
    decreases |links|
  {
    if links == [] {
      assert SubpageRoutes([]) == [];
    } else {
      var k := |links| - 1;
      var init, last := links[..k], links[k];
      assert init + [last] == links;
      forall i | 0 <= i < |init| && IsPageLink(init[i]) ensures Fetched(fetch(siteUrl + init[i])) {
        assert init[i] == links[i];
      }
      SubpagesAllFetched(siteUrl, init, fetch);
      SubpagesAllFetchedStep(siteUrl, init, last, fetch);
    }
  }

  /** At most one page per followed link is written. */
  lemma {:induction false} SubpagesBound(siteUrl: string, links: seq<string>, fetch: string -> Option<Page>)
    ensures |Subpages(siteUrl, links, fetch)| <= |PageLinks(links)|
    decreases |links|
  {
    if links != [] {
      SubpagesBound(siteUrl, links[..|links| - 1], fetch);
    }
  }

  /** A run that writes anything writes the home route "" first. */
  lemma CrawlHomeFirst(homeUrl: string, siteUrl: string, fetch: string -> Option<Page>)
    ensures CrawlRoutes(homeUrl, siteUrl, fetch) == [] <==> !Fetched(fetch(homeUrl))
    ensures CrawlRoutes(homeUrl, siteUrl, fetch) != [] ==> CrawlRoutes(homeUrl, siteUrl, fetch)[0] == ""
  {
  }

  // ---------------------------------------------------------------------
  // The pages written
  // ---------------------------------------------------------------------

  /** The write for one subpage: its route and the page `convert` generates from its content. */
  function SubpageWrite(sp: Subpage, convert: Page -> NextPage): PageWrite
  {
    PageWrite(sp.route, convert(sp.page))
  }

  /** The writes of the subpages, in order, each converted the same way. */
  function SubpageWrites(subs: seq<Subpage>, convert: Page -> NextPage): seq<PageWrite>
    decreases |subs|
  {
    if subs == [] then []
    else
      var k := |subs| - 1;
      SubpageWrites(subs[..k], convert) + [SubpageWrite(subs[k], convert)]
  }

  /** Converting the subpages of one more link appends their writes. */
  lemma SubpageWritesStep(subs: seq<Subpage>, more: seq<Subpage>, convert: Page -> NextPage)
    requires |more| <= 1
    ensures SubpageWrites(subs + more, convert) == SubpageWrites(subs, convert) + SubpageWrites(more, convert)
  {
    if more == [] {
      assert subs + more == subs;
    } else {
      var all := subs + more;
      assert all[..|all| - 1] == subs;
      assert more[..0] == [];
    }
  }

  /** Converting one more subpage adds its route at the end. */
  lemma SubpageWritesRoutesStep(subs: seq<Subpage>, sp: Subpage, convert: Page -> NextPage)
    requires Routes(SubpageWrites(subs, convert)) == SubpageRoutes(subs)
    ensures Routes(SubpageWrites(subs + [sp], convert)) == SubpageRoutes(subs + [sp])
  {
    SubpageWritesStep(subs, [sp], convert);
    assert [sp][..0] == [];
    RoutesAppend(SubpageWrites(subs, convert), SubpageWrite(sp, convert));
    SubpageRoutesAppend(subs, sp);
  }

  /** Each subpage is written at its own route, in order. */
  lemma {:induction false} SubpageWritesRoutes(subs: seq<Subpage>, convert: Page -> NextPage)
    ensures Routes(SubpageWrites(subs, convert)) == SubpageRoutes(subs)
    decreases |subs|
  {
    if subs != [] {
      var k := |subs| - 1;
      assert subs[..k] + [subs[k]] == subs;
      SubpageWritesRoutes(subs[..k], convert);
      SubpageWritesRoutesStep(subs[..k], subs[k], convert);
    }
  }

  /** The home page at route "" and then the subpages: the routes are "" and then the subpage routes. */
  lemma HomeThenSubpagesRoutes(home: NextPage, subs: seq<Subpage>, convert: Page -> NextPage)
    ensures Routes([PageWrite("", home)] + SubpageWrites(subs, convert)) == [""] + SubpageRoutes(subs)
  {
    var head := [PageWrite("", home)];
    SubpageWritesRoutes(subs, convert);
    RoutesConcat(head, SubpageWrites(subs, convert));
    RoutesAppend([], head[0]);
    assert [] + head == head;
  }

  /** One write per subpage, in order: the i-th write is the i-th subpage at its route, converted. */
  lemma {:induction false} SubpageWritesPointwise(subs: seq<Subpage>, convert: Page -> NextPage)
    ensures |SubpageWrites(subs, convert)| == |subs|
    ensures forall i :: 0 <= i < |subs| ==> SubpageWrites(subs, convert)[i] == PageWrite(subs[i].route, convert(subs[i].page))
    decreases |subs|
  {
    if subs != [] {
      var k := |subs| - 1;
      SubpageWritesPointwise(subs[..k], convert);
    }
  }

  /** When every generated page carries the same imports, so does every subpage written. */
  lemma {:induction false} SubpageWritesShareImports(subs: seq<Subpage>, convert: Page -> NextPage, imports: string)
    requires forall p :: convert(p).imports == imports
    ensures forall w :: w in SubpageWrites(subs, convert) ==> w.page.imports == imports
    decreases |subs|
  {
    if subs != [] {
      SubpageWritesShareImports(subs[..|subs| - 1], convert, imports);
    }
  }
}
