/**
 * The asset rewrite of `convertToNextPage` in index.ts: every non-empty
 * `<img src>` and the first url() reference of every background style are
 * replaced, in place, by what the asset localizer returns for them; then the
 * title and body are read and the page module is generated.
 *
 * The localizer (`downloadAndSaveAsset` bound to its output directory) is a
 * parameter: the rewrite depends only on the values it returns.
 */
module PageRewrite {
  import opened Wrappers
  import opened Text
  import opened CssUrl
  import opened Site

  /** An `<img src>` after the rewrite: a non-empty src is localized, anything else stays. */
  function LocalizedSrc(src: Option<string>, localize: string -> string): Option<string>
  {
    match src
    case Some(s) => if s != [] then Some(localize(s)) else src
    case None => None
  }

  /**
   * The reference a style attribute hands to the localizer: only a style
   * containing "background" is selected, and only its leftmost url() match
   * is used.
   */
  function BackgroundRef(style: string): Option<string>
  {
    if Contains(style, "background") then FirstUrlRef(style) else None
  }

  /**
   * A `style` attribute after the rewrite: the first occurrence of the
   * background reference is replaced by its localized path.
   */
  function LocalizedStyle(style: string, localize: string -> string): string
  {
    match BackgroundRef(style)
    case Some(ref) => ReplaceFirst(style, ref, localize(ref))
    case None => style
  }

  /** The image sources after the rewrite, in document order. */
  function LocalizedSrcs(srcs: seq<Option<string>>, localize: string -> string): (out: seq<Option<string>>)
    ensures |out| == |srcs|
    decreases |srcs|
  {
    if srcs == [] then []
    else LocalizedSrcs(srcs[..|srcs| - 1], localize) + [LocalizedSrc(srcs[|srcs| - 1], localize)]
  }

  /** The style attributes after the rewrite, in document order. */
  function LocalizedStyles(styles: seq<string>, localize: string -> string): (out: seq<string>)
    ensures |out| == |styles|
    decreases |styles|
  {
    if styles == [] then []
    else LocalizedStyles(styles[..|styles| - 1], localize) + [LocalizedStyle(styles[|styles| - 1], localize)]
  }

  /** Each source is rewritten on its own: the i-th output depends only on the i-th input. */
  lemma {:induction false} LocalizedSrcsPointwise(srcs: seq<Option<string>>, localize: string -> string)
    ensures forall i :: 0 <= i < |srcs| ==> LocalizedSrcs(srcs, localize)[i] == LocalizedSrc(srcs[i], localize)
    decreases |srcs|
  {
    if srcs != [] {
      var k := |srcs| - 1;
      LocalizedSrcsPointwise(srcs[..k], localize);
      forall i | 0 <= i < k ensures LocalizedSrcs(srcs, localize)[i] == LocalizedSrcs(srcs[..k], localize)[i] {
      }
    }
  }

  /** Each style is rewritten on its own: the i-th output depends only on the i-th input. */
  lemma {:induction false} LocalizedStylesPointwise(styles: seq<string>, localize: string -> string)
    ensures forall i :: 0 <= i < |styles| ==> LocalizedStyles(styles, localize)[i] == LocalizedStyle(styles[i], localize)
    decreases |styles|
  {
    if styles != [] {
      var k := |styles| - 1;
      LocalizedStylesPointwise(styles[..k], localize);
      forall i | 0 <= i < k ensures LocalizedStyles(styles, localize)[i] == LocalizedStyles(styles[..k], localize)[i] {
      }
    }
  }

  /** The localizer calls the images make, in document order: one per non-empty src. */
  function ImgRequests(srcs: seq<Option<string>>): seq<string>
    decreases |srcs|
  {
    if srcs == [] then []
    else
      var k := |srcs| - 1;
      match srcs[k]
      case Some(s) => if s != [] then ImgRequests(srcs[..k]) + [s] else ImgRequests(srcs[..k])
      case None => ImgRequests(srcs[..k])
  }

  /** The localizer calls the background styles make, in document order. */
  function BgRequests(styles: seq<string>): seq<string>
    decreases |styles|
  {
    if styles == [] then []
    else
      var k := |styles| - 1;
      match BackgroundRef(styles[k])
      case Some(ref) => BgRequests(styles[..k]) + [ref]
      case None => BgRequests(styles[..k])
  }

  /** Only present, non-empty sources are handed to the localizer. */
  lemma {:induction false} ImgRequestsPresent(srcs: seq<Option<string>>)
    ensures forall r :: r in ImgRequests(srcs) ==> r != [] && Some(r) in srcs
    decreases |srcs|
  {
    if srcs != [] {
      var k := |srcs| - 1;
      ImgRequestsPresent(srcs[..k]);
      assert forall h :: h in srcs[..k] ==> h in srcs;
    }
  }

  /** Every present, non-empty source is handed to the localizer. */
  lemma {:induction false} ImgRequestsComplete(srcs: seq<Option<string>>)
    ensures forall r :: Some(r) in srcs && r != [] ==> r in ImgRequests(srcs)
    decreases |srcs|
  {
    if srcs != [] {
      var k := |srcs| - 1;
      ImgRequestsComplete(srcs[..k]);
      assert srcs == srcs[..k] + [srcs[k]];
    }
  }

  /** The positions of the elements that satisfy `p`. */
  function Positions<T>(xs: seq<T>, p: T -> bool): set<int>
  {
    set i | 0 <= i < |xs| && p(xs[i])
  }

  /** One more element adds one position when it satisfies `p`, none otherwise. */
  lemma PositionsSnoc<T>(xs: seq<T>, p: T -> bool)
    requires xs != []
    ensures |Positions(xs, p)| == |Positions(xs[..|xs| - 1], p)| + (if p(xs[|xs| - 1]) then 1 else 0)
  {
    var k := |xs| - 1;
    var before := Positions(xs[..k], p);
    var last := if p(xs[k]) then {k} else {};
    forall i ensures i in Positions(xs, p) <==> i in before + last {
      if 0 <= i < k {
        assert xs[..k][i] == xs[i];
      }
    }
    assert Positions(xs, p) == before + last;
    assert k !in before;
  }

  /** An image whose src the rewrite hands to the localizer. */
  predicate IsPresentSrc(src: Option<string>)
  {
    src.Some? && src.value != []
  }

  /** The localizer is called once per image whose src is present and non-empty. */
  lemma {:induction false} ImgRequestsCount(srcs: seq<Option<string>>)
    ensures |ImgRequests(srcs)| == |Positions(srcs, IsPresentSrc)|
    decreases |srcs|
  {
    if srcs != [] {
      ImgRequestsCount(srcs[..|srcs| - 1]);
      PositionsSnoc(srcs, IsPresentSrc);
    }
  }

  /** A style the rewrite hands to the localizer: it contains "background" and has a url() match. */
  predicate HasBackgroundRef(style: string)
  {
    BackgroundRef(style).Some?
  }

  /** The localizer is called once per style that contains "background" and has a url() match. */
  lemma {:induction false} BgRequestsCount(styles: seq<string>)
    ensures |BgRequests(styles)| == |Positions(styles, HasBackgroundRef)|
    decreases |styles|
  {
    if styles != [] {
      BgRequestsCount(styles[..|styles| - 1]);
      PositionsSnoc(styles, HasBackgroundRef);
    }
  }

  /** Rewrites every `<img>` src in place; returns the references handed to the localizer. */
  method LocalizeImages(srcs: array<Option<string>>, localize: string -> string) returns (requested: seq<string>)
    modifies srcs
    ensures srcs[..] == LocalizedSrcs(old(srcs[..]), localize)
    ensures requested == ImgRequests(old(srcs[..]))
  {
    ghost var before := srcs[..];
    requested := [];
    for i := 0 to srcs.Length
      invariant srcs[..i] == LocalizedSrcs(before[..i], localize)
      invariant srcs[i..] == before[i..]
      invariant requested == ImgRequests(before[..i])
    {
      assert before[..i + 1][..i] == before[..i];
      var src := srcs[i];
      assert src == before[i] by {
        assert srcs[i..][0] == before[i..][0];
      }
      if src.Some? && src.value != "" {
        var localSrc := localize(src.value);
        srcs[i] := Some(localSrc);
        requested := requested + [src.value];
      }
      assert srcs[..i + 1] == srcs[..i] + [LocalizedSrc(before[i], localize)];
    }
    assert before[..srcs.Length] == before;
    assert srcs[..srcs.Length] == srcs[..];
  }

  /** One background style: its new value and the reference handed to the localizer, if any. */
  method LocalizeStyle(style: string, localize: string -> string) returns (out: string, request: Option<string>)
    ensures out == LocalizedStyle(style, localize)
    ensures request == BackgroundRef(style)
  {
    out, request := style, None;
    if Contains(style, "background") {
      var bgImageUrlMatch := FirstUrlRef(style);
      if bgImageUrlMatch.Some? {
        var bgImageUrl := bgImageUrlMatch.value;
        var localBgImageUrl := localize(bgImageUrl);
        out := ReplaceFirst(style, bgImageUrl, localBgImageUrl);
        request := Some(bgImageUrl);
      }
    }
  }

  /** One more style: its rewrite and its request, if any, come last. */
  lemma LocalizedStylesStep(styles: seq<string>, i: nat, localize: string -> string)
    requires i < |styles|
    ensures LocalizedStyles(styles[..i + 1], localize) == LocalizedStyles(styles[..i], localize) + [LocalizedStyle(styles[i], localize)]
    ensures BackgroundRef(styles[i]).None? ==> BgRequests(styles[..i + 1]) == BgRequests(styles[..i])
    ensures BackgroundRef(styles[i]).Some? ==>
      BgRequests(styles[..i + 1]) == BgRequests(styles[..i]) + [BackgroundRef(styles[i]).value]
  {
    assert styles[..i + 1][..i] == styles[..i];
  }

  /** Rewrites every background style in place; returns the references handed to the localizer. */
  method LocalizeBackgrounds(styles: array<string>, localize: string -> string) returns (requested: seq<string>)
    modifies styles
    ensures styles[..] == LocalizedStyles(old(styles[..]), localize)
    ensures requested == BgRequests(old(styles[..]))
  {
    ghost var before := styles[..];
    requested := [];
    for i := 0 to styles.Length
      invariant styles[..i] == LocalizedStyles(before[..i], localize)
      invariant styles[i..] == before[i..]
      invariant requested == BgRequests(before[..i])
    {
      var style := styles[i];
      assert style == before[i] by {
        assert styles[i..][0] == before[i..][0];
      }
      LocalizedStylesStep(before, i, localize);
      var out, request := LocalizeStyle(style, localize);
      ghost var done := styles[..i];
      assert styles[i + 1..] == before[i + 1..] by {
        assert styles[i..][1..] == before[i..][1..];
      }
      styles[i] := out;
      assert styles[..i + 1] == done + [out];
      if request.Some? {
        requested := requested + [request.value];
      }
    }
    assert before[..styles.Length] == before;
    assert styles[..styles.Length] == styles[..];
  }

  /** The page `convertToNextPage` generates: every asset rewritten before title and body are read. */
  function ConvertedPage(page: Page, cssFiles: seq<string>, localize: string -> string): NextPage
  {
    NextPage(ImportBlock(cssFiles), page.title, LocalizedSrcs(page.imgSrcs, localize), LocalizedStyles(page.styles, localize))
  }

  /**
   * `convertToNextPage`: load the page, rewrite image sources and background
   * styles in place, wait for all of them, then read title and body. The
   * localizer is called once per non-empty src and once per background style
   * with a url(), images first.
   */
  method ConvertToNextPage(page: Page, cssFiles: seq<string>, localize: string -> string)
    returns (next: NextPage, requested: seq<string>)
    ensures next == ConvertedPage(page, cssFiles, localize)
    ensures requested == ImgRequests(page.imgSrcs) + BgRequests(page.styles)
  {
    var imgs := new Option<string>[|page.imgSrcs|](i requires 0 <= i < |page.imgSrcs| => page.imgSrcs[i]);
    var styles := new string[|page.styles|](i requires 0 <= i < |page.styles| => page.styles[i]);
    assert imgs[..] == page.imgSrcs;
    assert styles[..] == page.styles;
    var imgRequests := LocalizeImages(imgs, localize);
    var bgRequests := LocalizeBackgrounds(styles, localize);
    requested := imgRequests + bgRequests;
    next := NextPage(ImportBlock(cssFiles), page.title, imgs[..], styles[..]);
  }
}
