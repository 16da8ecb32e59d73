# convert-site-to-nextjs, modelled in Dafny

The converter crawls a website one hop deep and turns it into a Next.js
project. It fetches the home page and saves the page's stylesheets, rewriting
the `url(...)` references inside them to local asset paths. It rewrites
`<img src>` values and background styles the same way. It then writes the home
page at route `""` and every internal link whose fetch returns a page at a
route derived from the link. Each generated page imports every saved
stylesheet.

The repository holds three versions of the script, and each gets its own
module:

- `index.ts` is the current version (`IndexTs`, with `PageRewrite` for the
  in-place image and background rewrite of `convertToNextPage`).
- `index.js` is the older version (`IndexJs`). Assets go to `/<assetDir>/<basename>`,
  and stylesheets get a font pass, then an image pass.
- `convertSite.js` is the earliest version (`ConvertSite`). Stylesheets are
  saved verbatim, and the list of imported stylesheets includes failed
  downloads.

The shared parts each have their own module:

- `Text` holds JavaScript `indexOf`, string `replace` (first occurrence only),
  `split` and `join`.
- `Paths` holds POSIX `path.basename`, `sanitizeFilename`, the four-way
  reference resolution, the link filter and the route regex.
- `CssUrl` holds a scanner for the pattern `url\(["']?([^"')]+)["']?\)` and
  one rewrite pass.
- `Site` holds the page as the parser yields it, stylesheet collection,
  the crawl, and the import block.

Each loop of the source is a `method` proved against a recursive
specification function, and the properties are lemmas about those functions.

These become parameters:

- The site URL, a module-level constant or command-line argument in the
  source.
- The HTTP fetches. They become oracles `string -> Option<…>`, where `None`
  stands for a request (or write) that threw.
- The asset localizer of the page rewrite.

A page is the sequences the HTML parser yields: the anchors' hrefs, the
stylesheet hrefs, the image sources, the style attributes, and the title.

Some behaviours of the code are easy to miss, and the model states each as a
lemma:

- `String.replace` with a string pattern replaces only the first occurrence
  of the reference, and that occurrence can lie outside the `url(...)`
  (`IndexTs.FirstOccurrenceOutsideUrl`).
- Identical references in one stylesheet are not all localized. A plain name
  is a substring of its own local path, so the second replacement lands inside
  the first url() again, and the later url() keeps the remote reference:
  "url(a.png)url(a.png)" is saved as "url(//a.png)url(a.png)"
  (`IndexTs.RepeatedReferenceStaysRemote`).
- The asset localizer's return value does not depend on whether the download
  succeeded: the code has no fallback to the original URL
  (`IndexTs.LocalAssetShape`, `IndexJs.AssetPath`).
- In `convertSite.js`, `convertSiteToNextJs(url)` fetches the home page from
  `url` and every other page from the module constant `siteUrl` followed by the
  link. The only call site, convertSite.js:142, passes that constant as `url`;
  the model keeps the two apart (`ConvertSite.CrawlWritesRoutes`).
- In `convertSite.js` a stylesheet whose download failed is still imported by
  every page (`ConvertSite.FailedDownloadStillImported`).
- `index.js` sends fonts to `/fonts/<n>`, but the image pass then moves them
  to `/images/<n>` (`IndexJs.FontsEndUpInImages`).
- The `convertToNextPage` of `index.js` does not await its download
  callbacks. Each runs only up to its first `await`, so the title and body are
  read before any attribute is set, and every page keeps its references as
  fetched (`IndexJs.CrawlWritesKeepReferences`).
- Route derivation keeps a second leading slash (`"//cdn/page"` gives
  `"/cdn/page"`). It strips only the last of two extensions
  (`Paths.RouteOfDoubleSlash`, `Paths.RouteOfDoubleExtension`).

## Model

| member | source | states |
|---|---|---|
| Text.ReplaceFirst | index.ts:95 | `s.replace(pat, rep)` with a string pattern: the first occurrence of `pat` is replaced by `rep` (its meaning is stated by `Text.ReplaceFirstSpec`) |
| Text.Split | index.ts:20 | `s.split(c)` for a one-character separator: always at least one piece |
| Text.Join | index.ts:158 | `parts.join(c)`: the parts with `c` between each two |
| Text.IndexOfIsFirst | index.ts:95 | the position `replace` searches for is the first occurrence of the pattern, and there is none when it reports none |
| Text.IndexFromAt | index.ts:95 | the search stops at an occurrence when no earlier character starts the pattern |
| Text.ReplaceFirstSpec | index.ts:95 | `s.replace(pat, rep)` keeps the text before the first occurrence, puts `rep` in its place and keeps the rest; with no occurrence the text is unchanged |
| Text.ReplaceFirstAt | index.ts:95 | when the pattern's first character does not occur before it, the first occurrence is the one at that position and only it is replaced |
| Text.ReplaceFirstSelf | index.ts:148 | replacing a text by itself changes nothing |
| Text.SplitPieces | index.ts:20 | no piece of `split(c)` holds `c`, and every character of a piece comes from the text |
| Text.SplitWithoutSeparator | index.ts:20 | a text without the separator splits into itself |
| Text.SplitAfterSeparator | index.ts:20 | the text after the last separator is the last piece |
| Text.SplitFirstPiece | index.ts:20 | appending text after a separator does not change the first piece |
| Text.SplitBeforeSeparator | index.ts:20 | the first piece is the text before the first separator |
| Text.SplitJoin | index.ts:158 | `split` undoes `join` when no part holds the separator |
| Paths.Basename | index.ts:20 | POSIX `path.basename`: the last segment after trailing '/' are trimmed (its meaning is stated by `Paths.BasenameSpec`) |
| Paths.SanitizeFilename | index.ts:19-21 | `sanitizeFilename`: the basename of the text before the first '?' |
| Paths.IsPageLink | index.ts:215 | a link is followed when it starts with '/' and is not "/" |
| Paths.Route | index.ts:218 | a link's route: one leading '/' removed, then the last extension cut (its meaning is stated by `Paths.RouteSpec`) |
| Paths.TrimTrailingSlashesSpec | index.ts:20 | only '/' are trimmed, all the trailing ones |
| Paths.LastSegmentSpec | index.ts:20 | the last segment is the suffix after the last '/', and holds no '/' |
| Paths.BasenameSpec | index.ts:20 | `basename` holds no '/', only characters of the path, and is empty exactly when the path is all '/' |
| Paths.LastPieceIsLastSegment | index.ts:20 | the last piece of `split("/")` is the last segment |
| Paths.BasenameIsLastNonEmptyPiece | index.ts:20 | `basename` is the last non-empty piece of `split("/")`, i.e. trailing '/' are ignored |
| Paths.BasenameOfName | index.ts:20 | a name without '/' is its own basename |
| Paths.BasenameAfterSlash | index.js:27 | the basename of `dir + "/" + n` is the name `n` |
| Paths.LastSegmentAfterSlash | index.js:27 | the last segment of `dir + "/" + n` is `n` |
| Paths.SanitizeFilenameSpec | index.ts:19-21 | a sanitized name holds neither '/' nor '?', only characters of the URL |
| Paths.SanitizeFixedPoints | index.ts:19-21 | a text is its own sanitized name exactly when it holds neither '/' nor '?' |
| Paths.SanitizeIdempotent | index.ts:19-21 | sanitizing twice is sanitizing once |
| Paths.Resolve | index.ts:72-80 | the reference ends the resolved URL; a site URL starting "http" gives a URL starting "http"; a relative reference is prefixed by the site; "//" becomes "https://" |
| Paths.ResolveAsset | index.ts:33-37 | the asset ternary with its `""`/`"/"` separator is the same four-way rule |
| Paths.StripLeadingSlash | index.ts:218 | `replace(/^\//, "")` removes exactly one leading '/' |
| Paths.NoExtensionAcross | index.ts:218 | no extension match spans a '/' or '.' |
| Paths.StripExtensionFrom | index.ts:218 | the scan removes a suffix that is an extension, or removes nothing when no suffix is one |
| Paths.StripExtension | index.ts:218 | `replace(/\.[^/.]+$/, "")` yields a prefix; it removes an extension, or nothing when there is none |
| Paths.StripExtensionExact | index.ts:218 | any extension suffix is exactly the one removed |
| Paths.RouteSpec | index.ts:218 | the route is the link without one leading '/', cut before its extension; it is unchanged exactly when no suffix is an extension, and an extension suffix is the one cut |
| Paths.RouteOfPage | index.ts:218 | "/about.html" gives the route "about" |
| Paths.RouteOfDoubleExtension | index.ts:218 | "/archive.tar.gz" gives "archive.tar" |
| Paths.RouteOfDottedDirectory | index.ts:218 | "/v1.2/intro" gives "v1.2/intro" |
| Paths.RouteOfDoubleSlash | index.ts:218 | "//cdn/page" gives "/cdn/page" |
| Paths.RouteHasNoLeadingSlash | index.ts:215-218 | a followed link not starting "//" yields a route without a leading '/' |
| CssUrl.UrlRefs | index.ts:89-90 | `css.match(/url\(["']?([^"')]+)["']?\)/g)`, each match reduced to its captured reference, left to right |
| CssUrl.FirstUrlRef | index.ts:144-146 | `style.match(…)` without /g: the captured reference of the leftmost match, if any |
| CssUrl.Pass | index.ts:89-98 | one rewrite pass: each match, in order, replaced at its first occurrence in the text so far (proved equal to the loop `CssUrl.RewritePass`) |
| CssUrl.RunEndSpec | index.ts:89 | the captured run is made of characters outside `"')` and is maximal |
| CssUrl.MatchAt | index.ts:89 | a match starts with "url(" and captures a non-empty reference inside the text |
| CssUrl.MatchAtSpec | index.ts:89 | the captured reference of a match is made of characters outside `"')` |
| CssUrl.RefsFrom | index.ts:89 | the matches do not overlap: each takes at least six characters |
| CssUrl.RefsFromSpec | index.ts:89 | every captured reference is non-empty and free of `"')` |
| CssUrl.SkipNonU | index.ts:89 | no match starts at a character other than 'u' |
| CssUrl.SkipToMatch | index.ts:89 | a stretch without 'u' contributes no match |
| CssUrl.RunEndAt | index.ts:89 | a run ending before a quote or ')' is the run the pattern captures |
| CssUrl.MatchAtClosing | index.ts:89 | "url(" followed by reference characters and ')' is a match of exactly that reference |
| CssUrl.IsMatchAt | index.ts:89 | the pattern `url\(["']?([^"')]+)["']?\)` at a position, spelled out: "url(", an optional quote, a non-empty run of reference characters, then ")" or a quote and ")" (used by `CssUrl.MatchAtIff`) |
| CssUrl.MatchAtIff | index.ts:89 | the scanner returns a match exactly when the pattern matches there, in all four quote forms: none, opening only, closing only, both |
| CssUrl.MixedQuoteExamples | index.ts:89 | "url(a')" and "url('a)" both capture "a", the first ending after the quote and ")" |
| CssUrl.MatchAtQuoted | index.ts:89 | "url(", a quote, reference characters, a quote and ")" is a match capturing the text between the quotes, even when the two quotes differ |
| CssUrl.QuotedExamples | index.ts:89 | "url('a')", "url(\"a\")" and "url('a\")" each match at 0, capturing "a" |
| CssUrl.OnlyMatch | index.ts:89 | a text with one such `url(...)` and no other 'u' has exactly that match |
| CssUrl.SingleUrlRefs | index.ts:89 | `pre + "url(" + r + ")" + post` with no other 'u' matches `[r]` |
| CssUrl.UrlRefFirstAt | index.ts:95 | the reference's first occurrence is inside the url() when no earlier character starts it |
| CssUrl.PassSingleUrl | index.ts:89-98 | such a stylesheet's pass replaces exactly the reference inside the url() by the localizer's value |
| CssUrl.NoUrlNoRefs | index.ts:89-90 | without "url(" there is no match |
| CssUrl.MatchThenRest | index.ts:89 | after a match, the scan resumes just past its ')' |
| CssUrl.TwoMatches | index.ts:89 | two adjacent url() forms that fill the text are exactly its two matches, in order |
| CssUrl.TwoUrlRefs | index.ts:89 | "url(r1)url(r2)" matches `[r1, r2]` |
| CssUrl.ReplaceEach | index.ts:91-97 | the loop body applied to each match in order, each replacing the first occurrence in the text rewritten so far (its meaning is stated by `CssUrl.PassTwo`, `CssUrl.ReplaceEachFixed` and `CssUrl.RewritePass`) |
| CssUrl.PassTwo | index.ts:91-97 | with two matches, the pass replaces the first occurrence of the first, then the first occurrence of the second in the result |
| CssUrl.PassSingle | index.ts:89-98 | with one match, the pass is one first-occurrence replacement |
| CssUrl.RewritePass | index.ts:89-98 | each match, in left-to-right order, is handed to the localizer exactly once, and its first occurrence in the text so far is replaced |
| CssUrl.PassWithoutUrl | index.ts:89-90 | a stylesheet without "url(" goes through a pass unchanged |
| CssUrl.ReplaceEachFixed | index.ts:91-97 | references the localizer maps to themselves are left alone |
| CssUrl.PassFixed | index.ts:101-110 | a pass whose every match is a fixed point of the localizer changes nothing |
| Site.Fetched | index.ts:200 | `if (!html)` / `if (pageHtml)`: a fetch counts only when it returned a non-empty text (used by `Site.SubpagesMembership` and `Site.CrawlHomeFirst`) |
| Site.ResolvedFetch | index.ts:72-85 | a stylesheet link is resolved against the site before it is fetched (used by the contracts of `IndexTs.DownloadAndSaveCss`, `IndexJs.DownloadAndSaveCss` and `ConvertSite.DownloadAndSaveCss`) |
| Site.SaveStylesheets | index.ts:70-118 | the stylesheets saved by the download loop, in order: one per link whose fetch succeeds |
| Site.ImportBlock | index.ts:158 | the import block: one `import '@/styles/<file>';` line per file, joined by line breaks |
| Site.Subpages | index.ts:214-222 | the pages the link loop writes after the home page, in document order |
| Site.CrawlRoutes | index.ts:199-223 | the routes a run writes: "" for the home page, then the subpage routes; none when the home fetch fails |
| Site.RoutesConcat | index.ts:210-223 | the routes of two runs of writes are concatenated |
| Site.PresentHrefs | index.ts:61-66 | only present, non-empty hrefs are collected, no more than there are |
| Site.PresentHrefsComplete | index.ts:61-66 | every present, non-empty href is collected |
| Site.CollectCssLinks | index.ts:59-66 | the collection loop yields the present, non-empty hrefs in document order |
| Site.SaveStylesheetsStep | index.ts:70-118 | one more link appends its file exactly when its fetch succeeds |
| Site.SaveStylesheetsMembership | index.ts:70-118 | a file is saved exactly when some link's fetch succeeded, under that link's name and with its rewritten content |
| Site.SaveStylesheetsAllFetched | index.ts:70-118 | when every fetch succeeds, one file per link is saved, in link order |
| Site.SaveStylesheetsNoneFetched | index.ts:115-117 | when every fetch fails, nothing is saved and the loop still ends |
| Site.ImportBlockLines | index.ts:158 | the import block has exactly one line `import '@/styles/<file>';` per file, in order |
| Site.SubpageRoutesStep | index.ts:214-222 | a followed, fetched link appends its route; any other link changes nothing |
| Site.SubpageOf | index.ts:215-221 | one iteration of the link loop: a page at the link's route exactly when the link is followed and its fetch succeeds (stated by `Site.SubpagesMembership` and `IndexTs.ConvertLink`) |
| Site.SubpagesMembership | index.ts:214-222 | a subpage is written exactly for a followed link whose fetch returned a non-empty page, under that link's route |
| Site.SubpagesMembershipStep | index.ts:214-222 | one more link: a subpage is written for it or for an earlier link |
| Site.SubpagesSnoc | index.ts:214-222 | one more link appends the page kept for it |
| Site.SubpagesAppend | index.ts:214-222 | the loop is a fold: no de-duplication, document order kept |
| Site.PageLinks | index.ts:215 | the links followed, in order: a link is kept exactly when it starts with '/' and is not "/", and no more are kept than there are links |
| Site.SubpagesAllFetchedStep | index.ts:214-222 | one more link keeps the written routes equal to the routes of the followed links |
| Site.SubpagesAllFetched | index.ts:214-222 | when every followed link fetches, each is written, in order, under its route |
| Site.SubpagesBound | index.ts:214-222 | at most one page per followed link is written |
| Site.CrawlHomeFirst | index.ts:199-211 | a run writes nothing exactly when the home fetch fails, and otherwise writes "" first |
| Site.SubpageWrites | index.ts:219-220 | each subpage converted and written at its route, in order (stated by `Site.SubpageWritesRoutes` and `Site.SubpageWritesPointwise`) |
| Site.SubpageWritesRoutesStep | index.ts:219-220 | converting one more subpage adds its route at the end |
| Site.SubpageWritesRoutes | index.ts:219-220 | each subpage is written at its own route, in order |
| Site.HomeThenSubpagesRoutes | index.ts:210-223 | the home page then the subpages are written at "" then the subpage routes |
| Site.SubpageWritesPointwise | index.ts:219-220 | one write per subpage, in order: the i-th write is the i-th subpage at its route, converted |
| Site.SubpageWritesShareImports | index.ts:219 | when every generated page carries the same imports, so does every subpage written |
| PageRewrite.LocalizedSrc | index.ts:134-137 | one `<img>` after the rewrite: a non-empty src becomes what the localizer returns for it |
| PageRewrite.BackgroundRef | index.ts:142-146 | only a style containing "background" is selected, and its leftmost url() capture is the reference (stated by `PageRewrite.LocalizedStylesPointwise` and `PageRewrite.BgRequestsCount`) |
| PageRewrite.LocalizedStyle | index.ts:143-148 | one style after the rewrite: the first occurrence of its background reference replaced by the localized path |
| PageRewrite.ConvertedPage | index.ts:130-176 | the generated page: the import block, the title and the rewritten image sources and styles |
| PageRewrite.LocalizedSrcs | index.ts:133-139 | one output per image |
| PageRewrite.LocalizedStyles | index.ts:142-150 | one output per style |
| PageRewrite.LocalizedSrcsPointwise | index.ts:133-139 | each image is rewritten on its own: a non-empty src becomes its localized path, anything else stays |
| PageRewrite.LocalizedStylesPointwise | index.ts:142-150 | each style is rewritten on its own: only the first occurrence of its first url() reference is replaced, and only when it contains "background" |
| PageRewrite.ImgRequestsPresent | index.ts:134-136 | only present, non-empty sources are handed to the localizer |
| PageRewrite.ImgRequestsComplete | index.ts:134-136 | every present, non-empty src is handed to the localizer |
| PageRewrite.ImgRequestsCount | index.ts:133-139 | the localizer is called exactly once per image whose src is present and non-empty |
| PageRewrite.BgRequestsCount | index.ts:142-150 | the localizer is called exactly once per style that contains "background" and has a url() match |
| PageRewrite.PositionsSnoc | index.ts:133-150 | one more element adds one selected position when it is selected, none otherwise |
| PageRewrite.LocalizeImages | index.ts:133-139 | the image array is rewritten in place to the localized sources; the localizer gets each non-empty src in order |
| PageRewrite.LocalizeStyle | index.ts:143-148 | one style's new value and the reference it hands to the localizer |
| PageRewrite.LocalizedStylesStep | index.ts:142-150 | one more style appends its rewrite and its request |
| PageRewrite.LocalizeBackgrounds | index.ts:142-150 | the style array is rewritten in place to the localized styles; the localizer gets each background reference in order |
| PageRewrite.ConvertToNextPage | index.ts:124-158 | every rewrite completes before the title is read; the page carries the import block, title and rewritten attributes, and the localizer is called for images first, then backgrounds |
| IndexTs.LocalAsset | index.ts:24-52 | `downloadAndSaveAsset`'s return value: a "data:" URL as it is, anything else '/' and its sanitized name (stated by `IndexTs.LocalAssetShape`) |
| IndexTs.RewrittenCss | index.ts:86-110 | a fetched stylesheet after the font pass and the image pass, both with the same localizer |
| IndexTs.LocalAssetShape | index.ts:29-51 | a "data:" URL is returned as it is; anything else returns '/' and its sanitized name, whether or not the download succeeded |
| IndexTs.AssetDownload | index.ts:33-44 | no download for "data:"; otherwise the resolved URL is written to `public/<sanitized name>` |
| IndexTs.LocalPathIsFixed | index.ts:29-51 | every returned path localizes to itself |
| IndexTs.LocalAssetIdempotent | index.ts:29-51 | localizing twice is localizing once |
| IndexTs.LocalAssetDropsQuery | index.ts:19-21 | a query string does not reach the local name of a non-"data:" reference |
| IndexTs.NotDataWithQuery | index.ts:29 | appending a query does not make a reference a "data:" URL |
| IndexTs.ImagePassKeepsLocalPaths | index.ts:101-110 | the image pass leaves a stylesheet alone when every match is already a returned path |
| IndexTs.LocalAssetOfName | index.ts:51 | a plain file name is localized to '/' and itself |
| IndexTs.FirstOccurrenceOutsideUrl | index.ts:89-110 | in "a{b:url(a)}" both passes rewrite the selector's "a" and the url() keeps "a" |
| IndexTs.RepeatedReferenceStaysRemote | index.ts:89-110 | "url(r)url(r)" has the matches `[r, r]`, and both the first pass and the two passes give "url(//r)url(r)": the second url() keeps the remote reference |
| IndexTs.RepeatedFirstPass | index.ts:89-98 | with a localizer that prefixes '/', the first pass replaces the first url()'s r twice, giving "url(//r)url(r)" |
| IndexTs.RepeatedSecondPass | index.ts:101-110 | the second pass maps "//r" back to "/r", then rewrites that r again, and leaves the text as it was |
| IndexTs.SecondPassRefs | index.ts:101 | "url(//r)url(r)" has the matches `["//r", r]` |
| IndexTs.SecondPassReplaces | index.ts:104-108 | the two replacements of the second pass restore "url(//r)url(r)" |
| IndexTs.TwiceAtSlash | index.ts:95 | replacing r by "/r" twice from "url(r…" gives "url(//r…" |
| IndexTs.BackToSingleSlash | index.ts:107 | replacing "//r" by "/r" in "url(//r…" gives "url(/r…" |
| IndexTs.SlashAgain | index.ts:107 | replacing r by "/r" in "url(/r…" gives "url(//r…" |
| IndexTs.DoubleSlashIsRef | index.ts:89 | "//r" is made of characters the pattern captures when r is |
| IndexTs.LocalAssetOfDoubleSlash | index.ts:19-51 | a protocol-relative "//name" is localized to "/name" |
| IndexTs.TwoPassExample | index.ts:89-110 | two passes of a localizer that prefixes '/' put "//" before the selector |
| IndexTs.FirstPassExample | index.ts:89-98 | the first pass replaces the selector's "a" whatever the localizer returns |
| IndexTs.SecondPassExample | index.ts:101-110 | the second pass again replaces the selector's "a" |
| IndexTs.SelectorRefs | index.ts:89 | "a{b:url(a)}" has the one match "a" |
| IndexTs.SelectorRefsShifted | index.ts:101 | "/a{b:url(a)}" has the one match "a" |
| IndexTs.SelectorMatch | index.ts:89 | "url(a)}" is a match capturing "a" |
| IndexTs.SaveStylesheet | index.ts:71-117 | a failed fetch saves nothing; otherwise the stylesheet is saved under its sanitized name with both passes applied |
| IndexTs.DownloadAndSaveCss | index.ts:55-121 | the saved files and the returned list are those of the collection specification: only successful fetches, in document order |
| IndexTs.CrawlWrites | index.ts:199-223 | the pages a run writes: the home page at "", then each followed, fetched link at its route, all importing the saved stylesheets |
| IndexTs.CrawlWritesRoutes | index.ts:199-223 | the routes written are "" and then the fetched page links' routes, in order |
| IndexTs.CrawlWritesShareImports | index.ts:205-220 | every page written imports the stylesheets collected from the home page |
| IndexTs.ConvertLink | index.ts:215-221 | one link yields a write exactly when it is followed and its fetch returns a page |
| IndexTs.ConvertSubpages | index.ts:214-223 | the link loop writes the converted subpages in order |
| IndexTs.ConvertSiteToNextJs | index.ts:190-226 | the run writes the crawl's pages and saves the collection specification's stylesheets; nothing when the home fetch fails |
| IndexJs.AssetPath | index.js:20-38 | `downloadAndSaveAsset`'s return value: `/<assetDir>/` and the basename of the URL, whatever the download did |
| IndexJs.FontAsset | index.js:77 | the font pass's localizer: "/fonts/" plus the URL's basename (stated by `IndexJs.AssetPathShape` and `IndexJs.FontsEndUpInImages`) |
| IndexJs.ImageAsset | index.js:87 | the image pass's localizer: "/images/" plus the URL's basename (stated by `IndexJs.FontsEndUpInImages`) |
| IndexJs.RewrittenCss | index.js:70-90 | a fetched stylesheet after the font pass and then the image pass |
| IndexJs.AssetDownload | index.js:20-27 | the resolved reference is written under `public` at the returned path |
| IndexJs.AssetPathShape | index.js:38 | the returned path is `/<assetDir>/` and one name without '/' |
| IndexJs.AssetPathOfName | index.js:38 | the name is what follows the last '/' |
| IndexJs.QueryKept | index.js:38 | a query string stays in the returned name |
| IndexJs.DataUrlNotKept | index.js:20-38 | a "data:" URL is not returned unchanged: its payload becomes a file name |
| IndexJs.AssetPathRelocates | index.js:77-87 | localizing a returned path into another directory keeps the name |
| IndexJs.FontPathIsRef | index.js:83-86 | a returned font path is matched again by the image pass |
| IndexJs.FontsEndUpInImages | index.js:73-90 | a single reference goes to "/fonts/<n>" in the font pass and to "/images/<n>" after the image pass |
| IndexJs.SaveStylesheet | index.js:55-97 | a failed fetch saves nothing; otherwise the stylesheet is saved under its basename after the font and image passes |
| IndexJs.DownloadAndSaveCss | index.js:42-101 | the saved files and the returned list are those of the collection specification, named by basename |
| IndexJs.CrawlWrites | index.js:176-201 | the pages a run writes: the home page at "", then each followed, fetched link at its route, each page as fetched with the saved stylesheets' names as imports |
| IndexJs.CrawlWritesRoutes | index.js:186-201 | the routes written are "" and then the routes of the followed, fetched links |
| IndexJs.CrawlWritesKeepReferences | index.js:104-131 | every page written is the index.ts page with a localizer that keeps every reference: image sources and styles stay as fetched |
| IndexJs.ConvertSiteToNextJs | index.js:166-204 | the pages written are `IndexJs.CrawlWrites` and the stylesheets those of the collection specification; nothing when the home fetch fails |
| ConvertSite.Basenames | convertSite.js:59 | `cssLinks.map((link) => path.basename(link))` |
| ConvertSite.BasenamesStep | convertSite.js:59 | one more link appends its basename |
| ConvertSite.BasenamesPointwise | convertSite.js:59 | the returned list has one entry per collected href: its basename, in order |
| ConvertSite.AllFetchedNamesSaved | convertSite.js:48-59 | when every download succeeds, the returned list names exactly the saved files |
| ConvertSite.SavedAtMostLinks | convertSite.js:31-57 | no more files are saved than there are links |
| ConvertSite.FailedDownloadStillImported | convertSite.js:50-59 | a failed download still appears in the returned list, which then names more stylesheets than were saved |
| ConvertSite.SaveStylesheet | convertSite.js:31-56 | a failed fetch saves nothing; otherwise the stylesheet is saved verbatim under its basename |
| ConvertSite.DownloadAndSaveCss | convertSite.js:22-60 | the saved files are those of the collection specification with no rewrite; the returned list is every collected href's basename |
| ConvertSite.KeptSrcs | convertSite.js:63-66 | image sources are not rewritten |
| ConvertSite.KeptStyles | convertSite.js:63-66 | styles are not rewritten |
| ConvertSite.ConvertedPageKeepsReferences | convertSite.js:63-93 | the page is the later version's page with a localizer that keeps every reference |
| ConvertSite.ConvertedPage | convertSite.js:63-93 | the generated page: the import block, the title and the body as fetched |
| ConvertSite.CrawlWrites | convertSite.js:109-136 | the pages a run writes: the home page from `url` at "", then each followed link fetched from the site URL at its route |
| ConvertSite.SubpageWritesKeepReferences | convertSite.js:126-136 | each subpage is written, in order, as index.ts would write it with a localizer that keeps every reference |
| ConvertSite.CrawlWritesRoutes | convertSite.js:103-136 | the routes written are "" and then the routes of the links fetched from the site URL |
| ConvertSite.CrawlWritesShareImports | convertSite.js:115-132 | every page imports one stylesheet per collected href of the home page |
| ConvertSite.ConvertLink | convertSite.js:127-134 | one link yields a write exactly when it is followed and its fetch returns a page |
| ConvertSite.ConvertSubpages | convertSite.js:126-136 | the link loop writes the converted subpages in order |
| ConvertSite.ConvertSiteToNextJs | convertSite.js:103-136 | the home page comes from `url` and the links from the site URL; writes and stylesheets follow the specifications; nothing when the home fetch fails |

## Left out

- HTTP (`axios.get`, `fetchPage`) becomes oracle parameters. Status codes and timeouts are not visible, and `None` stands for any request that throws.
- Filesystem effects (`fs.ensureDir`, `fs.writeFile`, `fs.emptyDir`) and the normalisation done by `path.join` are not modelled. A written page is its route, and a saved stylesheet is its name and content. The downloaded asset bytes are not modelled, and neither is the set of assets a run downloads: the rewrite methods return the references they hand to the localizer (`CssUrl.RewritePass`, `PageRewrite.LocalizeImages`, `PageRewrite.LocalizeBackgrounds`), but `ConvertSiteToNextJs` does not collect them into its result.
- HTML parsing with cheerio is not modelled. A page is given as the sequences the parser would yield, and the title and body serialisation are not modelled.
- The JSX page template and `prettier.format` are not modelled. A generated page is its import block, its title and its rewritten attributes.
- The model assumes that page generation and page writes never throw. In the code nothing catches them: a throw from `prettier.format` (index.js:155, convertSite.js:92), from `writeNextPage` (index.ts:211 and :220, index.js:188 and :198, convertSite.js:123 and :133) or from `fs.emptyDir`/`fs.ensureDir` (convertSite.js:105-107) rejects the run's promise (index.ts:235, index.js:213, convertSite.js:142), and no later page is written. A body holding a backtick, for instance, ends the generated template literal early in index.js and convertSite.js, so prettier throws on it. The written pages the model states (`Site.SubpagesMembership`, `IndexTs.CrawlWritesRoutes`, `IndexJs.CrawlWritesRoutes`, `ConvertSite.CrawlWritesRoutes`) are those of a run in which no such throw happens.
- Project scaffolding (`execSync("npx create-next-app …")`), `process.argv`, `process.exit` and console logging are not modelled.
- Promise timing is not modelled. The `Promise.all` of index.ts becomes a sequential loop, images first.
- The downloads that the `convertToNextPage` of index.js starts and never awaits are not modelled. Each callback sets its attribute only after the page has been generated, so they change no page written (`IndexJs.CrawlWritesKeepReferences`).
- `$` replacement patterns of `String.replace` are not modelled. Replacement texts are taken literally.
- `path.basename` is modelled for POSIX separators only. Windows `\` separators are not modelled.
- The model does not check whether a download actually succeeded. The asset localizer's return value does not depend on it in any version.
- Text is a sequence of Dafny `char`s, which are Unicode scalar values, while JavaScript `indexOf`, `split`, `replace` and the regular expression work on UTF-16 code units. The two differ only on text holding characters outside the Basic Multilingual Plane.
