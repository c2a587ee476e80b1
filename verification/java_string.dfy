/** The java.lang.String operations the feed code relies on, with the
    index conventions of the JDK (a search that fails yields -1). */
module JavaString {

  /** `s.indexOf(c, from)`: the first index at or after `from` holding `c`,
      or -1. A negative `from` searches from the start. */
  function IndexOf(s: string, c: char, from: int): (r: int)
    ensures -1 <= r < |s|
    ensures r == -1 <==> forall i :: 0 <= i < |s| && from <= i ==> s[i] != c
    ensures r >= 0 ==> from <= r && s[r] == c
    ensures r >= 0 ==> forall i :: 0 <= i < r && from <= i ==> s[i] != c
    decreases |s| - from
  {
    if from < 0 then IndexOf(s, c, 0)
    else if from >= |s| then -1
    else if s[from] == c then from
    else IndexOf(s, c, from + 1)
  }

  /** The search stops at the first occurrence from `from` on. */
  lemma {:induction false} IndexOfFirst(s: string, c: char, from: int, j: int)
    requires 0 <= from <= j < |s| && s[j] == c
    requires forall i :: from <= i < j ==> s[i] != c
    ensures IndexOf(s, c, from) == j
    decreases j - from
  {
    if from < j {
      IndexOfFirst(s, c, from + 1, j);
    }
  }

  /** `s.startsWith(p)`. */
  predicate StartsWith(s: string, p: string) {
    |p| <= |s| && s[..|p|] == p
  }

  /** `s.endsWith(p)`. */
  predicate EndsWith(s: string, p: string) {
    |p| <= |s| && s[|s| - |p|..] == p
  }

  /** `p` occurs in `s` starting at offset `i`. */
  predicate OccursAt(s: string, p: string, i: int) {
    0 <= i <= |s| - |p| && s[i..i + |p|] == p
  }

  /** `s.contains(p)`: `p` occurs at some offset of `s`. */
  predicate Contains(s: string, p: string) {
    exists i | 0 <= i <= |s| - |p| :: OccursAt(s, p, i)
  }

  lemma StartsWithImpliesContains(s: string, p: string)
    requires StartsWith(s, p)
    ensures Contains(s, p)
  {
    assert OccursAt(s, p, 0);
  }

  lemma EndsWithImpliesContains(s: string, p: string)
    requires EndsWith(s, p)
    ensures Contains(s, p)
  {
    assert OccursAt(s, p, |s| - |p|);
  }

  lemma EmptyPhraseEverywhere(s: string)
    ensures StartsWith(s, "") && EndsWith(s, "") && Contains(s, "")
  {
    assert OccursAt(s, "", 0);
  }

  // ---------------------------------------------------------------------
  // String.compareTo

  /** `a.compareTo(b)`: the difference of the first differing characters,
      or the difference of the lengths when one string is a prefix of the other. */
  function CompareStrings(a: string, b: string): int
  {
    if |a| == 0 || |b| == 0 then |a| - |b|
    else if a[0] != b[0] then a[0] as int - b[0] as int
    else CompareStrings(a[1..], b[1..])
  }

  /** The lexicographic order the JDK documents for compareTo, stated by positions. */
  ghost predicate LexLess(a: string, b: string) {
    || (|a| < |b| && a == b[..|a|])
    || exists k :: 0 <= k < |a| && k < |b| && a[..k] == b[..k] && a[k] < b[k]
  }

  lemma {:induction false} CompareAntisymmetric(a: string, b: string)
    ensures CompareStrings(a, b) == -CompareStrings(b, a)
    decreases |a|
  {
    if |a| == 0 || |b| == 0 {
    } else if a[0] != b[0] {
    } else {
      CompareAntisymmetric(a[1..], b[1..]);
    }
  }

  lemma {:induction false} CompareZeroIffEqual(a: string, b: string)
    ensures CompareStrings(a, b) == 0 <==> a == b
    decreases |a|
  {
    if |a| == 0 || |b| == 0 {
    } else if a[0] != b[0] {
    } else {
      CompareZeroIffEqual(a[1..], b[1..]);
      assert a == [a[0]] + a[1..] && b == [b[0]] + b[1..];
    }
  }

  lemma {:induction false} CompareTransitive(a: string, b: string, c: string)
    requires CompareStrings(a, b) < 0 && CompareStrings(b, c) < 0
    ensures CompareStrings(a, c) < 0
    decreases |a|
  {
    if |a| == 0 || |b| == 0 || |c| == 0 {
    } else if a[0] == b[0] && b[0] == c[0] {
      CompareTransitive(a[1..], b[1..], c[1..]);
    }
  }

  /** A proper prefix orders before its extension, by the length difference. */
  lemma {:induction false} ComparePrefix(a: string, t: string)
    requires |t| > 0
    ensures CompareStrings(a, a + t) == -|t|
    decreases |a|
  {
    if |a| > 0 {
      assert (a + t)[1..] == a[1..] + t;
      ComparePrefix(a[1..], t);
    }
  }

  lemma LexLessHead(a: string, b: string)
    requires |a| > 0 && |b| > 0 && LexLess(a, b)
    ensures a[0] <= b[0]
  {
    if |a| < |b| && a == b[..|a|] {
      assert a[0] == b[..|a|][0];
    } else {
      var k :| 0 <= k < |a| && k < |b| && a[..k] == b[..k] && a[k] < b[k];
      if k > 0 {
        assert a[..k][0] == b[..k][0];
      }
    }
  }

  lemma LexLessDropHead(a: string, b: string)
    requires |a| > 0 && |b| > 0 && a[0] == b[0] && LexLess(a, b)
    ensures LexLess(a[1..], b[1..])
  {
    if |a| < |b| && a == b[..|a|] {
      assert a[1..] == b[1..][..|a| - 1];
    } else {
      var k :| 0 <= k < |a| && k < |b| && a[..k] == b[..k] && a[k] < b[k];
      assert k > 0;
      assert a[1..][..k - 1] == a[..k][1..];
      assert b[1..][..k - 1] == b[..k][1..];
      assert a[1..][k - 1] < b[1..][k - 1];
    }
  }

  lemma LexLessAddHead(a: string, b: string)
    requires |a| > 0 && |b| > 0 && a[0] == b[0] && LexLess(a[1..], b[1..])
    ensures LexLess(a, b)
  {
    if |a| - 1 < |b| - 1 && a[1..] == b[1..][..|a| - 1] {
      assert a == [a[0]] + a[1..];
      assert b[..|a|] == [b[0]] + b[1..][..|a| - 1];
    } else {
      var k :| 0 <= k < |a| - 1 && k < |b| - 1 && a[1..][..k] == b[1..][..k] && a[1..][k] < b[1..][k];
      assert a[..k + 1] == [a[0]] + a[1..][..k];
      assert b[..k + 1] == [b[0]] + b[1..][..k];
      assert a[k + 1] < b[k + 1];
    }
  }

  /** compareTo is negative exactly when the first string is lexicographically smaller. */
  lemma {:induction false} CompareNegativeIffLexLess(a: string, b: string)
    ensures CompareStrings(a, b) < 0 <==> LexLess(a, b)
    decreases |a|
  {
    if |a| == 0 {
      if |b| > 0 {
        assert a == b[..0];
      }
    } else if |b| == 0 {
    } else if a[0] != b[0] {
      if a[0] < b[0] {
        assert a[..0] == b[..0];
      }
      if LexLess(a, b) {
        LexLessHead(a, b);
      }
    } else {
      CompareNegativeIffLexLess(a[1..], b[1..]);
      if LexLess(a, b) {
        LexLessDropHead(a, b);
      }
      if LexLess(a[1..], b[1..]) {
        LexLessAddHead(a, b);
      }
    }
  }

  // ---------------------------------------------------------------------
  // String.trim

  /** Every character of `s` from `lo` up to `hi` is at or below the space character. */
  predicate Blank(s: string, lo: int, hi: int) {
    forall j :: lo <= j < hi && 0 <= j < |s| ==> s[j] <= ' '
  }

  /** The first loop of `trim`: moves `st` past the characters at or below
      the space character. */
  function SkipBlank(s: string, st: nat): (r: nat)
    requires st <= |s|
    ensures st <= r <= |s| && Blank(s, st, r)
    ensures r < |s| ==> s[r] > ' '
    decreases |s| - st
  {
    if st < |s| && s[st] <= ' ' then SkipBlank(s, st + 1) else st
  }

  /** The second loop of `trim`: moves `len` back over the characters at or
      below the space character, never below `st`. */
  function DropBlankEnd(s: string, st: nat, len: nat): (r: nat)
    requires st <= len <= |s|
    ensures st <= r <= len && Blank(s, r, len)
    ensures r > st ==> s[r - 1] > ' '
    decreases len
  {
    if st < len && s[len - 1] <= ' ' then DropBlankEnd(s, st, len - 1) else len
  }

  /** `s.trim()`: `substring(st, len)` after both loops. */
  function Trim(s: string): string
  {
    var st := SkipBlank(s, 0);
    s[st..DropBlankEnd(s, st, |s|)]
  }

  /** `trim` keeps the middle of `s` once both runs of characters at or
      below the space character are removed: what is left starts and ends
      above the space character. */
  lemma TrimKeepsMiddle(s: string)
    ensures var r := Trim(s);
            |r| > 0 ==> r[0] > ' ' && r[|r| - 1] > ' '
    ensures var r := Trim(s);
            exists i :: 0 <= i <= |s| - |r| && r == s[i..i + |r|] && Blank(s, 0, i) && Blank(s, i + |r|, |s|)
  {
    var st := SkipBlank(s, 0);
    var len := DropBlankEnd(s, st, |s|);
    assert Trim(s) == s[st..len];
    assert Blank(s, st + |s[st..len]|, |s|);
  }
  /** `trim` gives "" exactly for a text of characters at or below the space
      character. */
  lemma TrimEmptyIffBlank(s: string)
    ensures Trim(s) == "" <==> Blank(s, 0, |s|)
  {
  }


  // ---------------------------------------------------------------------
  // String.split(" ")

  /** Rejoins pieces with one space between neighbours. */
  function JoinWithSpaces(ps: seq<string>): string
  {
    if |ps| == 0 then ""
    else if |ps| == 1 then ps[0]
    else ps[0] + " " + JoinWithSpaces(ps[1..])
  }

  /** The pieces of `s` between single spaces, empty pieces included. */
  function SpacePieces(s: string): (r: seq<string>)
    ensures |r| >= 1
    ensures forall i :: 0 <= i < |r| ==> ' ' !in r[i]
    ensures JoinWithSpaces(r) == s
    decreases |s|
  {
    var k := IndexOf(s, ' ', 0);
    if k == -1 then
      [s]
    else
      var rest := SpacePieces(s[k + 1..]);
      assert s == s[..k] + " " + s[k + 1..];
      [s[..k]] + rest
  }

  /** Removes the empty pieces at the end of `ps`. */
  function DropTrailingEmpty(ps: seq<string>): (r: seq<string>)
    ensures |r| <= |ps| && r == ps[..|r|]
    ensures forall i :: |r| <= i < |ps| ==> ps[i] == ""
    ensures |r| > 0 ==> r[|r| - 1] != ""
  {
    if |ps| > 0 && ps[|ps| - 1] == "" then DropTrailingEmpty(ps[..|ps| - 1]) else ps
  }

  /** `s.split(" ")`: the space-separated pieces with the trailing empty
      pieces removed, unless there is no space at all. */
  function SplitOnSpace(s: string): (r: seq<string>)
    ensures |r| <= |SpacePieces(s)| && r == SpacePieces(s)[..|r|]
  {
    var ps := SpacePieces(s);
    if IndexOf(s, ' ', 0) == -1 then ps else DropTrailingEmpty(ps)
  }

  /** No piece holds a space. Without any space `split` returns the string
      itself, even when it is empty; otherwise it keeps every piece up to the
      last non-empty one. */
  lemma SplitOnSpaceShape(s: string)
    ensures forall i :: 0 <= i < |SplitOnSpace(s)| ==> ' ' !in SplitOnSpace(s)[i]
    ensures ' ' !in s ==> SplitOnSpace(s) == [s]
    ensures ' ' in s ==> forall i :: |SplitOnSpace(s)| <= i < |SpacePieces(s)| ==> SpacePieces(s)[i] == ""
    ensures ' ' in s && |SplitOnSpace(s)| > 0 ==> SplitOnSpace(s)[|SplitOnSpace(s)| - 1] != ""
  {
    var ps := SpacePieces(s);
    var r := SplitOnSpace(s);
    assert forall i :: 0 <= i < |r| ==> r[i] == ps[i];
    if ' ' !in s {
      assert IndexOf(s, ' ', 0) == -1;
    } else {
      var k :| 0 <= k < |s| && s[k] == ' ';
      assert IndexOf(s, ' ', 0) != -1;
    }
  }

  lemma SplitTwoWords(a: string, b: string)
    requires |a| > 0 && |b| > 0 && ' ' !in a && ' ' !in b
    ensures SplitOnSpace(a + " " + b) == [a, b]
  {
    var s := a + " " + b;
    assert s[|a|] == ' ';
    assert forall i :: 0 <= i < |a| ==> s[i] == a[i];
    assert IndexOf(s, ' ', 0) == |a|;
    assert s[..|a|] == a && s[|a| + 1..] == b;
    assert SpacePieces(s) == [a, b];
  }
}
