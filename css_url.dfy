/**
 * The stylesheet reference pattern `url\(["']?([^"')]+)["']?\)` and the
 * one-pass rewrite built on it.
 *
 * At a given position the pattern matches deterministically: "url(", an
 * optional quote, the maximal run of at least one character outside `"')`,
 * an optional quote, then ")". No backtracking yields another match, so the
 * scanner below is the pattern itself.
 */
module CssUrl {
  import opened Wrappers
  import opened Text

  predicate IsQuote(c: char)
  {
    c == '"' || c == '\''
  }

  /** A character of the class `[^"')]`. */
  predicate IsRefChar(c: char)
  {
    c != '"' && c != '\'' && c != ')'
  }

  /** The end of the maximal run of reference characters that starts at `i`. */
  function RunEnd(s: string, i: nat): (e: nat)
    requires i <= |s|
    ensures i <= e <= |s|
    decreases |s| - i
  {
    if i < |s| && IsRefChar(s[i]) then RunEnd(s, i + 1) else i
  }

  /** The run is made of reference characters and cannot be extended. */
  lemma {:induction false} RunEndSpec(s: string, i: nat)
    requires i <= |s|
    ensures forall k :: i <= k < RunEnd(s, i) ==> IsRefChar(s[k])
    ensures RunEnd(s, i) == |s| || !IsRefChar(s[RunEnd(s, i)])
    decreases |s| - i
  {
    if i < |s| && IsRefChar(s[i]) {
      RunEndSpec(s, i + 1);
    }
  }

  /** A match: the captured reference is `s[refStart..refEnd]`, the match ends before `end`. */
  datatype Match = Match(refStart: nat, refEnd: nat, end: nat)

  /** The match of the pattern that starts exactly at `p`, if there is one. */
  function MatchAt(s: string, p: nat): (m: Option<Match>)
    ensures m.Some? ==> OccursAt(s, "url(", p)
    ensures m.Some? ==> p + 4 <= m.value.refStart < m.value.refEnd < m.value.end <= |s|
  {
    if p + 4 <= |s| && s[p..p + 4] == "url(" then
      var j := if p + 4 < |s| && IsQuote(s[p + 4]) then p + 5 else p + 4;
      var e := RunEnd(s, j);
      if e == j then None
      else if e < |s| && s[e] == ')' then Some(Match(j, e, e + 1))
      else if e + 1 < |s| && IsQuote(s[e]) && s[e + 1] == ')' then Some(Match(j, e, e + 2))
      else None
    else None
  }

  /** The captured reference of a match is made of reference characters. */
  lemma MatchAtSpec(s: string, p: nat)
    ensures MatchAt(s, p).Some? ==>
      forall k :: MatchAt(s, p).value.refStart <= k < MatchAt(s, p).value.refEnd ==> IsRefChar(s[k])
  {
    if p + 4 <= |s| && s[p..p + 4] == "url(" {
      var j := if p + 4 < |s| && IsQuote(s[p + 4]) then p + 5 else p + 4;
      RunEndSpec(s, j);
    }
  }

  /** The captured references of the global match, left to right, from position `p` on. */
  function RefsFrom(s: string, p: nat): (refs: seq<string>)
    requires p <= |s|
    ensures 6 * |refs| <= |s| - p
    decreases |s| - p
  {
    if p == |s| then []
    else
      match MatchAt(s, p)
      case Some(m) => [s[m.refStart..m.refEnd]] + RefsFrom(s, m.end)
      case None => RefsFrom(s, p + 1)
  }

  /** Every captured reference is non-empty and made of characters outside `"')`. */
  lemma {:induction false} RefsFromSpec(s: string, p: nat)
    requires p <= |s|
    ensures forall r :: r in RefsFrom(s, p) ==> r != [] && forall ch :: ch in r ==> IsRefChar(ch)
    decreases |s| - p
  {
    if p < |s| {
      match MatchAt(s, p)
      case Some(m) =>
        RefsFromSpec(s, m.end);
        MatchAtSpec(s, p);
        var r := s[m.refStart..m.refEnd];
        forall ch | ch in r ensures IsRefChar(ch) {
          var k :| 0 <= k < |r| && r[k] == ch;
          assert s[m.refStart + k] == ch;
        }
      case None =>
        RefsFromSpec(s, p + 1);
    }
  }

  /** `css.match(/url\(["']?([^"')]+)["']?\)/g)`, each match reduced to its captured reference. */
  function UrlRefs(s: string): seq<string>
  {
    RefsFrom(s, 0)
  }

  /** `style.match(/url\(["']?([^"')]+)["']?\)/)?.[1]`: the leftmost match's reference. */
  function FirstUrlRef(s: string): Option<string>
  {
    var refs := UrlRefs(s);
    if refs == [] then None else Some(refs[0])
  }

  /** No match starts at a character other than 'u'. */
  lemma SkipNonU(s: string, p: nat)
    requires p < |s| && s[p] != 'u'
    ensures MatchAt(s, p).None?
    ensures RefsFrom(s, p) == RefsFrom(s, p + 1)
  {
    if p + 4 <= |s| {
      assert s[p..p + 4][0] == s[p];
    }
  }

  /** Characters other than 'u' are skipped one by one. */
  lemma {:induction false} SkipToMatch(s: string, p: nat, q: nat)
    requires p <= q <= |s|
    requires forall k :: p <= k < q ==> s[k] != 'u'
    ensures RefsFrom(s, p) == RefsFrom(s, q)
    decreases q - p
  {
    if p < q {
      SkipNonU(s, p);
      SkipToMatch(s, p + 1, q);
    }
  }

  /** A run of reference characters ending at `j` is the one `RunEnd` finds. */
  lemma {:induction false} RunEndAt(s: string, i: nat, j: nat)
    requires i <= j <= |s|
    requires forall k :: i <= k < j ==> IsRefChar(s[k])
    requires j == |s| || !IsRefChar(s[j])
    ensures RunEnd(s, i) == j
    decreases j - i
  {
    if i < j {
      RunEndAt(s, i + 1, j);
    }
  }

  /** A `url(` at `p` followed by a run of reference characters up to a `)` at `e` is a match. */
  lemma MatchAtClosing(s: string, p: nat, e: nat)
    requires p + 4 < e < |s| && s[p..p + 4] == "url(" && s[e] == ')'
    requires forall k :: p + 4 <= k < e ==> IsRefChar(s[k])
    ensures MatchAt(s, p) == Some(Match(p + 4, e, e + 1))
  {
    RunEndAt(s, p + 4, e);
  }

  /**
   * "url(", a quote, reference characters, a quote and ")" match with the
   * reference between the quotes; the two quotes need not be the same.
   */
  lemma MatchAtQuoted(s: string, p: nat, e: nat)
    requires p + 5 < e && e + 1 < |s| && s[p..p + 4] == "url(" && IsQuote(s[p + 4])
    requires IsQuote(s[e]) && s[e + 1] == ')'
    requires forall k :: p + 5 <= k < e ==> IsRefChar(s[k])
    ensures MatchAt(s, p) == Some(Match(p + 5, e, e + 2))
  {
    RunEndAt(s, p + 5, e);
  }

  /**
   * The pattern spelled out at `p`: "url(", an optional quote, a non-empty
   * run of reference characters, then ")" or a quote and ")". The two
   * optional quotes are independent of each other.
   */
  predicate IsMatchAt(s: string, p: nat, m: Match)
  {
    p + 4 <= |s| && s[p..p + 4] == "url(" &&
    (m.refStart == p + 4 || (m.refStart == p + 5 && p + 4 < |s| && IsQuote(s[p + 4]))) &&
    m.refStart < m.refEnd < |s| &&
    (forall k :: m.refStart <= k < m.refEnd ==> IsRefChar(s[k])) &&
    ((m.end == m.refEnd + 1 && s[m.refEnd] == ')') ||
     (m.end == m.refEnd + 2 && m.refEnd + 1 < |s| && IsQuote(s[m.refEnd]) && s[m.refEnd + 1] == ')'))
  }

  /** The scanner finds `m` at `p` exactly when `m` is a match of the pattern there, in all four quote forms. */
  lemma MatchAtIff(s: string, p: nat, m: Match)
    ensures MatchAt(s, p) == Some(m) <==> IsMatchAt(s, p, m)
  {
    if MatchAt(s, p) == Some(m) {
      var j := if p + 4 < |s| && IsQuote(s[p + 4]) then p + 5 else p + 4;
      RunEndSpec(s, j);
    }
    if IsMatchAt(s, p, m) {
      var j := if p + 4 < |s| && IsQuote(s[p + 4]) then p + 5 else p + 4;
      assert j == m.refStart by {
        if m.refStart == p + 4 {
          assert IsRefChar(s[p + 4]);
        }
      }
      RunEndAt(s, j, m.refEnd);
    }
  }

  /** The mixed forms: an unmatched closing quote or an unmatched opening quote still captures the reference. */
  lemma MixedQuoteExamples()
    ensures MatchAt("url(a')", 0) == Some(Match(4, 5, 7))
    ensures MatchAt("url('a)", 0) == Some(Match(5, 6, 7))
  {
    var s1, s2 := "url(a')", "url('a)";
    assert s1[0..4] == "url(" && s2[0..4] == "url(";
    MatchAtIff(s1, 0, Match(4, 5, 7));
    MatchAtIff(s2, 0, Match(5, 6, 7));
  }

  /** The quoted forms: single, double and mismatched quotes all capture the text between them. */
  lemma QuotedExamples()
    ensures MatchAt("url('a')", 0) == Some(Match(5, 6, 8))
    ensures MatchAt("url(\"a\")", 0) == Some(Match(5, 6, 8))
    ensures MatchAt("url('a\")", 0) == Some(Match(5, 6, 8))
  {
    var s1, s2, s3 := "url('a')", "url(\"a\")", "url('a\")";
    assert s1[0..4] == "url(" && s2[0..4] == "url(" && s3[0..4] == "url(";
    MatchAtQuoted(s1, 0, 6);
    MatchAtQuoted(s2, 0, 6);
    MatchAtQuoted(s3, 0, 6);
  }

  /** The only match of a text is the one at `p` when no other position holds a 'u'. */
  lemma OnlyMatch(s: string, p: nat, e: nat)
    requires p + 4 < e < |s| && s[p..p + 4] == "url(" && s[e] == ')'
    requires forall k :: p + 4 <= k < e ==> IsRefChar(s[k])
    requires forall k :: 0 <= k < p ==> s[k] != 'u'
    requires forall k :: e < k < |s| ==> s[k] != 'u'
    ensures UrlRefs(s) == [s[p + 4..e]]
  {
    calc {
      UrlRefs(s);
    == { SkipToMatch(s, 0, p); }
      RefsFrom(s, p);
    == { MatchThenRest(s, p, e); }
      [s[p + 4..e]] + RefsFrom(s, e + 1);
    == { SkipToMatch(s, e + 1, |s|); }
      [s[p + 4..e]] + RefsFrom(s, |s|);
    ==
      [s[p + 4..e]];
    }
  }

  /** The pieces of `pre + "url(" + r + ")" + post`, by position. */
  lemma UrlPieces(pre: string, r: string, post: string)
    ensures var s := pre + "url(" + r + ")" + post;
      var p := |pre|;
      var e := p + 4 + |r|;
      |s| == e + 1 + |post| && s[..p] == pre && s[p..p + 4] == "url(" && s[p..p + 4 + |r|][4..] == r &&
      s[p + 4..e] == r && s[e] == ')' && s[e + 1..] == post && s[..p + 4] == pre + "url(" && s[p + 4 + |r|..] == ")" + post
  {
  }

  /** A stylesheet with one `url(r)` and no other 'u' has exactly the one match `r`. */
  lemma SingleUrlRefs(pre: string, r: string, post: string)
    requires 'u' !in pre && 'u' !in post
    requires r != [] && forall k :: 0 <= k < |r| ==> IsRefChar(r[k])
    ensures UrlRefs(pre + "url(" + r + ")" + post) == [r]
  {
    var s := pre + "url(" + r + ")" + post;
    var p := |pre|;
    var e := p + 4 + |r|;
    UrlPieces(pre, r, post);
    forall k | 0 <= k < p ensures s[k] != 'u' {
      assert s[k] == s[..p][k];
    }
    forall k | p + 4 <= k < e ensures IsRefChar(s[k]) {
      assert s[k] == s[p + 4..e][k - p - 4];
    }
    forall k | e < k < |s| ensures s[k] != 'u' {
      assert s[k] == s[e + 1..][k - e - 1];
    }
    OnlyMatch(s, p, e);
  }

  /**
   * A stylesheet with one `url(r)` whose reference does not start earlier in
   * the text: the pass replaces exactly the reference inside the url().
   */
  lemma PassSingleUrl(pre: string, r: string, post: string, localize: string -> string)
    requires 'u' !in pre && 'u' !in post
    requires r != [] && forall k :: 0 <= k < |r| ==> IsRefChar(r[k])
    requires r[0] !in pre + "url("
    ensures Pass(pre + "url(" + r + ")" + post, localize) == pre + "url(" + localize(r) + ")" + post
  {
    var s := pre + "url(" + r + ")" + post;
    var p := |pre| + 4;
    SingleUrlRefs(pre, r, post);
    PassSingle(s, r, localize);
    UrlRefFirstAt(pre, r, post);
    UrlPieces(pre, r, post);
  }

  /** The reference inside the url() is its first occurrence when no earlier character starts it. */
  lemma UrlRefFirstAt(pre: string, r: string, post: string)
    requires r != [] && r[0] !in pre + "url("
    ensures IndexOf(pre + "url(" + r + ")" + post, r) == Some(|pre| + 4)
  {
    var s := pre + "url(" + r + ")" + post;
    var p := |pre| + 4;
    UrlPieces(pre, r, post);
    forall k | 0 <= k < p ensures s[k] != r[0] {
      assert s[k] == s[..p][k];
    }
    IndexFromAt(s, r, 0, p);
  }

  /** A match at `p` contributes its reference, and the scan goes on after its ')'. */
  lemma MatchThenRest(s: string, p: nat, e: nat)
    requires p + 4 < e < |s| && s[p..p + 4] == "url(" && s[e] == ')'
    requires forall k :: p + 4 <= k < e ==> IsRefChar(s[k])
    ensures RefsFrom(s, p) == [s[p + 4..e]] + RefsFrom(s, e + 1)
  {
    MatchAtClosing(s, p, e);
  }

  /** A text made of two url() matches, back to back, has exactly those two matches. */
  lemma TwoMatches(s: string, e1: nat, e2: nat)
    requires 4 < e1 && e1 + 5 < e2 && e2 + 1 == |s|
    requires s[0..4] == "url(" && s[e1] == ')' && s[e1 + 1..e1 + 5] == "url(" && s[e2] == ')'
    requires forall k :: 4 <= k < e1 ==> IsRefChar(s[k])
    requires forall k :: e1 + 5 <= k < e2 ==> IsRefChar(s[k])
    ensures UrlRefs(s) == [s[4..e1], s[e1 + 5..e2]]
  {
    MatchThenRest(s, 0, e1);
    MatchThenRest(s, e1 + 1, e2);
    assert RefsFrom(s, |s|) == [];
  }

  /** Two url() references one after the other are the two matches, in order. */
  lemma TwoUrlRefs(r1: string, r2: string)
    requires r1 != [] && forall k :: 0 <= k < |r1| ==> IsRefChar(r1[k])
    requires r2 != [] && forall k :: 0 <= k < |r2| ==> IsRefChar(r2[k])
    ensures UrlRefs("url(" + r1 + ")" + ("url(" + r2 + ")")) == [r1, r2]
  {
    var q1, q2 := "url(" + r1 + ")", "url(" + r2 + ")";
    var s := q1 + q2;
    var e1 := 4 + |r1|;
    var e2 := e1 + 5 + |r2|;
    assert s[0..4] == "url(";
    assert s[4..e1] == r1;
    assert s[e1 + 1..e1 + 5] == "url(";
    assert s[e1 + 5..e2] == r2;
    forall k | 4 <= k < e1 ensures IsRefChar(s[k]) {
      assert s[k] == r1[k - 4];
    }
    forall k | e1 + 5 <= k < e2 ensures IsRefChar(s[k]) {
      assert s[k] == r2[k - e1 - 5];
    }
    TwoMatches(s, e1, e2);
  }

  /** A text in which "url(" never occurs has no match. */
  lemma {:induction false} NoUrlNoRefs(s: string, p: nat)
    requires p <= |s|
    requires forall j :: p <= j ==> !OccursAt(s, "url(", j)
    ensures RefsFrom(s, p) == []
    decreases |s| - p
  {
    if p < |s| {
      NoUrlNoRefs(s, p + 1);
    }
  }

  /**
   * The loop body of one pass, applied to each reference in turn: the
   * localized path replaces the FIRST occurrence of the reference in the text
   * as rewritten so far.
   */
  function ReplaceEach(s: string, refs: seq<string>, localize: string -> string): string
    decreases |refs|
  {
    if refs == [] then s
    else
      var k := |refs| - 1;
      ReplaceFirst(ReplaceEach(s, refs[..k], localize), refs[k], localize(refs[k]))
  }

  /** One pass: the matches are taken from the text as it was before the pass. */
  function Pass(s: string, localize: string -> string): string
  {
    ReplaceEach(s, UrlRefs(s), localize)
  }

  /** A text with two matches: its pass replaces the first occurrence of the first, then of the second in the result. */
  lemma PassTwo(s: string, r1: string, r2: string, localize: string -> string)
    requires UrlRefs(s) == [r1, r2]
    ensures Pass(s, localize) == ReplaceFirst(ReplaceFirst(s, r1, localize(r1)), r2, localize(r2))
  {
    assert [r1, r2][..1] == [r1];
    assert [r1][..0] == [];
    assert ReplaceEach(s, [r1], localize) == ReplaceFirst(ReplaceEach(s, [], localize), r1, localize(r1));
    assert ReplaceEach(s, [r1, r2], localize) == ReplaceFirst(ReplaceEach(s, [r1], localize), r2, localize(r2));
  }

  /** A text with a single match: its pass replaces the first occurrence of that one reference. */
  lemma PassSingle(s: string, r: string, localize: string -> string)
    requires UrlRefs(s) == [r]
    ensures Pass(s, localize) == ReplaceFirst(s, r, localize(r))
  {
    assert [r][..0] == [];
    assert ReplaceEach(s, [r], localize) == ReplaceFirst(ReplaceEach(s, [], localize), r, localize(r));
  }

  /**
   * The loop of one pass: every match of the text as it was before the pass
   * is handed to the localizer in turn, and the first occurrence of its
   * reference in the text as rewritten so far is replaced by the result.
   */
  method RewritePass(css: string, localize: string -> string) returns (out: string, requested: seq<string>)
    ensures requested == UrlRefs(css)
    ensures out == Pass(css, localize)
  {
    var matches := UrlRefs(css);
    out, requested := css, [];
    for i := 0 to |matches|
      invariant requested == matches[..i]
      invariant out == ReplaceEach(css, matches[..i], localize)
    {
      var cleanedUrl := matches[i];
      var localPath := localize(cleanedUrl);
      out := ReplaceFirst(out, cleanedUrl, localPath);
      requested := requested + [cleanedUrl];
      assert matches[..i + 1][..i] == matches[..i];
    }
  }

  /** A stylesheet without "url(" goes through a pass unchanged. */
  lemma PassWithoutUrl(s: string, localize: string -> string)
    requires forall j :: !OccursAt(s, "url(", j)
    ensures Pass(s, localize) == s
  {
    NoUrlNoRefs(s, 0);
  }

  /** References the localizer maps to themselves are left as they are. */
  lemma {:induction false} ReplaceEachFixed(s: string, refs: seq<string>, localize: string -> string)
    requires forall r :: r in refs ==> localize(r) == r
    ensures ReplaceEach(s, refs, localize) == s
    decreases |refs|
  {
    if refs != [] {
      var k := |refs| - 1;
      ReplaceEachFixed(s, refs[..k], localize);
      ReplaceFirstSelf(s, refs[k]);
    }
  }

  /** A pass over a text whose every match is a fixed point of the localizer changes nothing. */
  lemma PassFixed(s: string, localize: string -> string)
    requires forall r :: r in UrlRefs(s) ==> localize(r) == r
    ensures Pass(s, localize) == s
  {
    ReplaceEachFixed(s, UrlRefs(s), localize);
  }
}
