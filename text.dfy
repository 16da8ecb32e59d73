/**
 * The few JavaScript string operations the converter relies on, stated on
 * `seq<char>`: `indexOf`, `replace` with a string pattern, `split` and `join`
 * with a one-character separator.
 */
module Text {
  import opened Wrappers

  /** `t` occurs in `s` starting at index `i`. */
  predicate OccursAt(s: string, t: string, i: int)
  {
    0 <= i && i + |t| <= |s| && s[i..i + |t|] == t
  }

  /** JavaScript `s.indexOf(t)`: the first index at which `t` occurs, `None` for -1. */
  function IndexOf(s: string, t: string): (r: Option<nat>)
    ensures r.Some? ==> OccursAt(s, t, r.value)
  {
    IndexFrom(s, t, 0)
  }

  /** The first occurrence of `t` in `s` at or after index `i`. */
  function IndexFrom(s: string, t: string, i: nat): (r: Option<nat>)
    ensures r.Some? ==> i <= r.value && OccursAt(s, t, r.value)
    decreases |s| - i
  {
    if i + |t| > |s| then None
    else if s[i..i + |t|] == t then Some(i)
    else IndexFrom(s, t, i + 1)
  }

  /** No occurrence at or after `i` precedes the one found, and none at all when there is none. */
  lemma {:induction false} IndexFromIsFirst(s: string, t: string, i: nat)
    ensures forall j :: i <= j && (IndexFrom(s, t, i).None? || j < IndexFrom(s, t, i).value) ==> !OccursAt(s, t, j)
    decreases |s| - i
  {
    if i + |t| <= |s| && s[i..i + |t|] != t {
      IndexFromIsFirst(s, t, i + 1);
    }
  }

  /** `indexOf` finds the first occurrence: there is none before it, and none at all when it answers -1. */
  lemma IndexOfIsFirst(s: string, t: string)
    ensures forall j :: 0 <= j && (IndexOf(s, t).None? || j < IndexOf(s, t).value) ==> !OccursAt(s, t, j)
  {
    IndexFromIsFirst(s, t, 0);
  }

  /** The search stops at `j` when no earlier position starts with the first character of `t`. */
  lemma {:induction false} IndexFromAt(s: string, t: string, i: nat, j: nat)
    requires t != [] && i <= j && OccursAt(s, t, j)
    requires forall k :: i <= k < j ==> s[k] != t[0]
    ensures IndexFrom(s, t, i) == Some(j)
    decreases j - i
  {
    if i < j {
      assert s[i..i + |t|][0] == s[i];
      IndexFromAt(s, t, i + 1, j);
    }
  }

  /** JavaScript `s.includes(t)`. */
  predicate Contains(s: string, t: string)
  {
    IndexOf(s, t).Some?
  }

  /**
   * JavaScript `s.replace(pat, rep)` with a string pattern: only the FIRST
   * occurrence of `pat` is replaced, and `s` is returned as it is when `pat`
   * does not occur. (`$` patterns in `rep` are not modelled.)
   */
  function ReplaceFirst(s: string, pat: string, rep: string): (r: string)
  {
    match IndexOf(s, pat)
    case None => s
    case Some(i) => s[..i] + rep + s[i + |pat|..]
  }

  /**
   * What `ReplaceFirst` means: either `pat` does not occur and nothing changes,
   * or the text before the first occurrence is kept, `rep` stands where that
   * occurrence stood, and the rest follows it unchanged.
   */
  lemma ReplaceFirstSpec(s: string, pat: string, rep: string)
    ensures (forall j :: !OccursAt(s, pat, j)) ==> ReplaceFirst(s, pat, rep) == s
    ensures forall i :: OccursAt(s, pat, i) && (forall j :: 0 <= j < i ==> !OccursAt(s, pat, j)) ==>
      ReplaceFirst(s, pat, rep) == s[..i] + rep + s[i + |pat|..]
  {
    IndexOfIsFirst(s, pat);
  }

  /** Replacing a text by itself changes nothing. */
  lemma ReplaceFirstSelf(s: string, pat: string)
    ensures ReplaceFirst(s, pat, pat) == s
  {
    match IndexOf(s, pat)
    case None =>
    case Some(i) =>
      assert s[i..i + |pat|] == pat;
      assert s[..i] + s[i..i + |pat|] + s[i + |pat|..] == s;
  }

  /** When no character before `pat` starts it, the first occurrence is the one right after `a`. */
  lemma ReplaceFirstAt(a: string, pat: string, b: string, rep: string)
    requires pat != [] && pat[0] !in a
    ensures ReplaceFirst(a + pat + b, pat, rep) == a + rep + b
  {
    var s := a + pat + b;
    assert s[..|a|] == a;
    assert s[|a|..|a| + |pat|] == pat;
    assert s[|a| + |pat|..] == b;
    forall k | 0 <= k < |a| ensures s[k] != pat[0] {
      assert s[k] == a[k];
    }
    IndexFromAt(s, pat, 0, |a|);
  }

  /**
   * JavaScript `s.split(c)` for a one-character separator: the pieces between
   * separators, never an empty list. Defined from the end of the text.
   */
  function Split(s: string, c: char): (parts: seq<string>)
    ensures |parts| >= 1
    decreases |s|
  {
    if s == [] then [[]]
    else
      var init := Split(s[..|s| - 1], c);
      var last := s[|s| - 1];
      if last == c then init + [[]]
      else init[..|init| - 1] + [init[|init| - 1] + [last]]
  }

  /** No piece holds the separator, and every character of a piece comes from the text. */
  lemma {:induction false} SplitPieces(s: string, c: char)
    ensures forall k :: 0 <= k < |Split(s, c)| ==> c !in Split(s, c)[k]
    ensures forall k, ch :: 0 <= k < |Split(s, c)| && ch in Split(s, c)[k] ==> ch in s
    decreases |s|
  {
    if s != [] {
      var init := Split(s[..|s| - 1], c);
      SplitPieces(s[..|s| - 1], c);
      assert forall ch :: ch in s[..|s| - 1] ==> ch in s;
    }
  }

  /** JavaScript `parts.join(c)`: the empty list joins to the empty text. */
  function Join(parts: seq<string>, c: char): (s: string)
    decreases |parts|
  {
    if |parts| == 0 then []
    else if |parts| == 1 then parts[0]
    else Join(parts[..|parts| - 1], c) + [c] + parts[|parts| - 1]
  }

  /** A text without the separator splits into itself. */
  lemma {:induction false} SplitWithoutSeparator(s: string, c: char)
    requires c !in s
    ensures Split(s, c) == [s]
    decreases |s|
  {
    if s != [] {
      SplitWithoutSeparator(s[..|s| - 1], c);
      assert s[..|s| - 1] + [s[|s| - 1]] == s;
    }
  }

  /** Splitting `x + c + y`, where `y` has no separator, ends with the piece `y`. */
  lemma {:induction false} SplitAfterSeparator(x: string, c: char, y: string)
    requires c !in y
    ensures Split(x + [c] + y, c) == Split(x, c) + [y]
    decreases |y|
  {
    var s := x + [c] + y;
    if y == [] {
      assert s[..|s| - 1] == x;
    } else {
      var y' := y[..|y| - 1];
      assert s[..|s| - 1] == x + [c] + y';
      SplitAfterSeparator(x, c, y');
      assert y' + [y[|y| - 1]] == y;
    }
  }

  /** Text appended after a separator does not change the first piece of a split. */
  lemma {:induction false} SplitFirstPiece(x: string, y: string, c: char)
    requires |Split(x, c)| >= 2
    ensures |Split(x + y, c)| >= 2 && Split(x + y, c)[0] == Split(x, c)[0]
    decreases |y|
  {
    if y != [] {
      var y' := y[..|y| - 1];
      SplitFirstPiece(x, y', c);
      assert (x + y)[..|x + y| - 1] == x + y';
    } else {
      assert x + y == x;
    }
  }

  /** The first piece of a split is the text before the first separator. */
  lemma SplitBeforeSeparator(x: string, c: char, y: string)
    requires c !in x
    ensures Split(x + [c] + y, c)[0] == x
  {
    SplitWithoutSeparator(x, c);
    SplitAfterSeparator(x, c, []);
    assert x + [c] + [] == x + [c];
    SplitFirstPiece(x + [c], y, c);
  }

  /** `split` undoes `join` when no part contains the separator. */
  lemma {:induction false} SplitJoin(parts: seq<string>, c: char)
    requires |parts| >= 1
    requires forall k :: 0 <= k < |parts| ==> c !in parts[k]
    ensures Split(Join(parts, c), c) == parts
    decreases |parts|
  {
    if |parts| == 1 {
      SplitWithoutSeparator(parts[0], c);
    } else {
      var init := parts[..|parts| - 1];
      SplitJoin(init, c);
      SplitAfterSeparator(Join(init, c), c, parts[|parts| - 1]);
      assert init + [parts[|parts| - 1]] == parts;
    }
  }
}
