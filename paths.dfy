/**
 * The pure string helpers shared by the three versions of the converter:
 * POSIX `path.basename`, `sanitizeFilename`, the four-way reference
 * resolution rule, the internal-link filter and route derivation.
 */
module Paths {
  import opened Text

  // ---------------------------------------------------------------------
  // POSIX basename
  // ---------------------------------------------------------------------

  /** `p` without its trailing run of '/'. */
  function TrimTrailingSlashes(p: string): (r: string)
    ensures |r| <= |p|
    decreases |p|
  {
    if p != [] && p[|p| - 1] == '/' then TrimTrailingSlashes(p[..|p| - 1]) else p
  }

  /** Only slashes are trimmed, all of the trailing ones. */
  lemma {:induction false} TrimTrailingSlashesSpec(p: string)
    ensures TrimTrailingSlashes(p) <= p
    ensures TrimTrailingSlashes(p) == [] || TrimTrailingSlashes(p)[|TrimTrailingSlashes(p)| - 1] != '/'
    ensures forall k :: |TrimTrailingSlashes(p)| <= k < |p| ==> p[k] == '/'
    decreases |p|
  {
    if p != [] && p[|p| - 1] == '/' {
      TrimTrailingSlashesSpec(p[..|p| - 1]);
    }
  }

  /** The suffix of `p` after its last '/' (all of `p` when it has none). */
  function LastSegment(p: string): (r: string)
    ensures |r| <= |p|
    decreases |p|
  {
    if p == [] || p[|p| - 1] == '/' then []
    else LastSegment(p[..|p| - 1]) + [p[|p| - 1]]
  }

  /** The last segment is the suffix after the last '/', and holds no '/'. */
  lemma {:induction false} LastSegmentSpec(p: string)
    ensures LastSegment(p) == p[|p| - |LastSegment(p)|..]
    ensures '/' !in LastSegment(p)
    ensures |LastSegment(p)| == |p| || p[|p| - |LastSegment(p)| - 1] == '/'
    decreases |p|
  {
    if p != [] && p[|p| - 1] != '/' {
      LastSegmentSpec(p[..|p| - 1]);
    }
  }

  /**
   * Node's `path.basename(p)` on POSIX: trailing slashes are ignored and the
   * last segment is returned; a text made only of slashes gives "".
   */
  function Basename(p: string): string
  {
    LastSegment(TrimTrailingSlashes(p))
  }

  /**
   * The basename holds no '/', is made of characters of the path, and is
   * empty exactly when the path is made only of slashes.
   */
  lemma BasenameSpec(p: string)
    ensures '/' !in Basename(p)
    ensures Basename(p) == [] <==> forall k :: 0 <= k < |p| ==> p[k] == '/'
    ensures forall ch :: ch in Basename(p) ==> ch in p
  {
    var t := TrimTrailingSlashes(p);
    TrimTrailingSlashesSpec(p);
    LastSegmentSpec(t);
    var r := LastSegment(t);
    assert forall ch :: ch in r ==> ch in t;
    assert t != [] ==> |r| >= 1;
  }

  /** The last non-empty piece of a split path, or "" when there is none. */
  function LastNonEmpty(parts: seq<string>): string
    decreases |parts|
  {
    if parts == [] then []
    else if parts[|parts| - 1] != [] then parts[|parts| - 1]
    else LastNonEmpty(parts[..|parts| - 1])
  }

  /** The last piece of `p.split("/")` is the last segment of `p`. */
  lemma {:induction false} LastPieceIsLastSegment(p: string)
    ensures var parts := Split(p, '/'); parts[|parts| - 1] == LastSegment(p)
    decreases |p|
  {
    if p != [] && p[|p| - 1] != '/' {
      LastPieceIsLastSegment(p[..|p| - 1]);
    }
  }

  /**
   * Reference definition of `basename`: the last non-empty piece of
   * `p.split("/")`, which is what "the last segment, trailing '/' ignored" means.
   */
  lemma {:induction false} BasenameIsLastNonEmptyPiece(p: string)
    ensures Basename(p) == LastNonEmpty(Split(p, '/'))
    decreases |p|
  {
    if p == [] {
    } else if p[|p| - 1] == '/' {
      BasenameIsLastNonEmptyPiece(p[..|p| - 1]);
      var init := Split(p[..|p| - 1], '/');
      assert Split(p, '/') == init + [[]];
      assert (init + [[]])[..|init|] == init;
    } else {
      LastPieceIsLastSegment(p);
    }
  }

  /** A name with no '/' is its own basename. */
  lemma {:induction false} BasenameOfName(n: string)
    requires '/' !in n
    ensures Basename(n) == n
    decreases |n|
  {
    if n != [] {
      BasenameOfName(n[..|n| - 1]);
      assert n[..|n| - 1] + [n[|n| - 1]] == n;
    }
  }

  /** The basename of `dir + "/" + n` is `n` when `n` is a non-empty name. */
  lemma BasenameAfterSlash(dir: string, n: string)
    requires n != [] && '/' !in n
    ensures Basename(dir + "/" + n) == n
  {
    var p := dir + "/" + n;
    assert TrimTrailingSlashes(p) == p;
    LastSegmentAfterSlash(dir, n);
  }

  lemma {:induction false} LastSegmentAfterSlash(dir: string, n: string)
    requires '/' !in n
    ensures LastSegment(dir + "/" + n) == n
    decreases |n|
  {
    var p := dir + "/" + n;
    if n != [] {
      assert p[..|p| - 1] == dir + "/" + n[..|n| - 1];
      LastSegmentAfterSlash(dir, n[..|n| - 1]);
      assert n[..|n| - 1] + [n[|n| - 1]] == n;
    }
  }

  // ---------------------------------------------------------------------
  // sanitizeFilename
  // ---------------------------------------------------------------------

  /** `path.basename(url.split("?")[0])`: the last segment of the text before the first '?'. */
  function SanitizeFilename(url: string): string
  {
    Basename(Split(url, '?')[0])
  }

  /** A sanitized name holds neither '/' nor '?', and only characters of the URL. */
  lemma SanitizeFilenameSpec(url: string)
    ensures '/' !in SanitizeFilename(url) && '?' !in SanitizeFilename(url)
    ensures forall ch :: ch in SanitizeFilename(url) ==> ch in url
  {
    var beforeQuery := Split(url, '?')[0];
    SplitPieces(url, '?');
    BasenameSpec(beforeQuery);
  }

  /** The sanitized names are exactly the texts without '/' and '?', each its own image. */
  lemma SanitizeFixedPoints(n: string)
    ensures SanitizeFilename(n) == n <==> '/' !in n && '?' !in n
  {
    SanitizeFilenameSpec(n);
    if '/' !in n && '?' !in n {
      SplitWithoutSeparator(n, '?');
      BasenameOfName(n);
    }
  }

  /** Sanitizing twice is sanitizing once. */
  lemma SanitizeIdempotent(url: string)
    ensures SanitizeFilename(SanitizeFilename(url)) == SanitizeFilename(url)
  {
    SanitizeFilenameSpec(url);
    SanitizeFixedPoints(SanitizeFilename(url));
  }

  // ---------------------------------------------------------------------
  // Reference resolution
  // ---------------------------------------------------------------------

  /**
   * The four-way rule, in priority order: a reference starting with "http" is
   * kept, "//" gets "https:", "/" gets the site prefix, anything else gets the
   * site prefix and a '/'.
   */
  function Resolve(siteUrl: string, ref: string): (r: string)
    ensures |ref| <= |r| && r[|r| - |ref|..] == ref
    ensures "http" <= siteUrl ==> "http" <= r
    ensures !("http" <= ref) && !("//" <= ref) ==> siteUrl <= r
    ensures "//" <= ref && !("http" <= ref) ==> "https://" <= r
  {
    if "http" <= ref then ref
    else if "//" <= ref then "https:" + ref
    else if "/" <= ref then siteUrl + ref
    else siteUrl + "/" + ref
  }

  /**
   * The same rule written as the nested conditional used for assets, where the
   * separator is `"" ` or `"/"` depending on whether the reference is root-relative.
   */
  function ResolveAsset(siteUrl: string, url: string): (r: string)
    ensures r == Resolve(siteUrl, url)
  {
    if "http" <= url then url
    else if "//" <= url then "https:" + url
    else siteUrl + (if "/" <= url then "" else "/") + url
  }

  // ---------------------------------------------------------------------
  // Internal links and routes
  // ---------------------------------------------------------------------

  /** The crawler follows a link when it starts with '/' and is not "/" itself. */
  predicate IsPageLink(link: string)
  {
    "/" <= link && link != "/"
  }

  /** `s.replace(/^\//, "")`: one leading '/' removed. */
  function StripLeadingSlash(s: string): (r: string)
    ensures if "/" <= s then s == "/" + r else r == s
  {
    if "/" <= s then s[1..] else s
  }

  /** A trailing extension: '.' followed by one or more characters other than '/' and '.'. */
  predicate IsExtension(e: string)
  {
    |e| >= 2 && e[0] == '.' && forall m :: 1 <= m < |e| ==> e[m] != '/' && e[m] != '.'
  }

  /** No suffix of `s` that starts before a '/' or '.' at index `m` (other than at its start) is an extension. */
  lemma NoExtensionAcross(s: string, m: nat)
    requires m < |s| && (s[m] == '/' || s[m] == '.')
    ensures forall k :: 0 <= k < m ==> !IsExtension(s[k..])
  {
    forall k | 0 <= k < m ensures !IsExtension(s[k..]) {
      assert s[k..][m - k] == s[m];
    }
  }

  /**
   * `s.replace(/\.[^/.]+$/, "")`: the trailing extension, if `s` has one, is
   * removed. Scans back from index `j`; `s[j..]` holds no '/' and no '.'.
   */
  function StripExtensionFrom(s: string, j: nat): (r: string)
    requires j <= |s|
    requires forall k :: j <= k < |s| ==> s[k] != '/' && s[k] != '.'
    ensures r <= s
    ensures r == s ==> forall k :: 0 <= k <= |s| ==> !IsExtension(s[k..])
    ensures r != s ==> IsExtension(s[|r|..])
    decreases j
  {
    if j == 0 then
      assert forall k :: 0 <= k < |s| ==> s[k..][0] == s[k];
      s
    else if s[j - 1] == '/' then
      NoExtensionAcross(s, j - 1);
      assert forall k :: j - 1 <= k < |s| ==> s[k..][0] == s[k];
      s
    else if s[j - 1] == '.' then
      if j < |s| then
        assert s[j - 1..][0] == '.';
        s[..j - 1]
      else
        NoExtensionAcross(s, j - 1);
        s
    else StripExtensionFrom(s, j - 1)
  }

  function StripExtension(s: string): (r: string)
    ensures r <= s
    ensures r == s ==> forall k :: 0 <= k <= |s| ==> !IsExtension(s[k..])
    ensures r != s ==> IsExtension(s[|r|..])
  {
    StripExtensionFrom(s, |s|)
  }

  /** A text has at most one suffix that is an extension, and that is the one stripped. */
  lemma StripExtensionExact(s: string, k: nat)
    requires k <= |s| && IsExtension(s[k..])
    ensures StripExtension(s) == s[..k]
  {
    var r := StripExtension(s);
    assert r != s;
  }

  /**
   * `link.replace(/^\//, "").replace(/\.[^/.]+$/, "")`: one leading '/' and
   * one trailing extension removed.
   */
  function Route(link: string): string
  {
    StripExtension(StripLeadingSlash(link))
  }

  /** The route is the link without its leading '/', cut before a trailing extension if it has one. */
  lemma RouteSpec(link: string)
    ensures var s := StripLeadingSlash(link);
      Route(link) <= s && (Route(link) == s || IsExtension(s[|Route(link)|..]))
    ensures var s := StripLeadingSlash(link);
      Route(link) == s <==> forall k :: 0 <= k <= |s| ==> !IsExtension(s[k..])
    ensures var s := StripLeadingSlash(link);
      forall k :: 0 <= k <= |s| && IsExtension(s[k..]) ==> Route(link) == s[..k]
    ensures |Route(link)| <= |link|
  {
    var s := StripLeadingSlash(link);
    forall k | 0 <= k <= |s| && IsExtension(s[k..]) ensures Route(link) == s[..k] {
      StripExtensionExact(s, k);
    }
  }

  /** "/about.html" is routed to "about". */
  lemma RouteOfPage()
    ensures Route("/about.html") == "about"
  {
    var s := "about.html";
    assert StripLeadingSlash("/about.html") == s;
    assert s[5..] == ".html";
    StripExtensionExact(s, 5);
    assert s[..5] == "about";
  }

  /** Only the last of two extensions is removed: "/archive.tar.gz" is routed to "archive.tar". */
  lemma RouteOfDoubleExtension()
    ensures Route("/archive.tar.gz") == "archive.tar"
  {
    var s := "archive.tar.gz";
    assert StripLeadingSlash("/archive.tar.gz") == s;
    assert s[11..] == ".gz";
    StripExtensionExact(s, 11);
    assert s[..11] == "archive.tar";
  }

  /** A dot in a directory is kept: "/v1.2/intro" is routed to "v1.2/intro". */
  lemma RouteOfDottedDirectory()
    ensures Route("/v1.2/intro") == "v1.2/intro"
  {
    var s := "v1.2/intro";
    assert StripLeadingSlash("/v1.2/intro") == s;
    assert s[4] == '/';
    NoExtensionAcross(s, 4);
    forall k | 4 <= k <= |s| ensures !IsExtension(s[k..]) {
      assert k < |s| ==> s[k..][0] == s[k];
    }
  }

  /** A protocol-relative link keeps one '/': "//cdn/page" is routed to "/cdn/page". */
  lemma RouteOfDoubleSlash()
    ensures Route("//cdn/page") == "/cdn/page"
  {
    var s := "/cdn/page";
    assert StripLeadingSlash("//cdn/page") == s;
    assert s[4] == '/';
    NoExtensionAcross(s, 4);
    forall k | 4 <= k <= |s| ensures !IsExtension(s[k..]) {
      assert k < |s| ==> s[k..][0] == s[k];
    }
  }

  /** A followed link yields a route without a leading '/' unless it starts with "//". */
  lemma RouteHasNoLeadingSlash(link: string)
    requires IsPageLink(link) && !("//" <= link)
    ensures !("/" <= Route(link))
  {
    var r := Route(link);
    if "/" <= r {
      assert false;
    }
  }
}
