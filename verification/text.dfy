/** The java.lang.String operations the plugin relies on, over `seq<char>`:
    indexOf, lastIndexOf, contains, split (with Java's removal of trailing
    empty strings), and compareToIgnoreCase restricted to ASCII case folding. */
module Text {

  /** `pat` occurs in `s` starting at index `i`. */
  predicate OccursAt(s: string, pat: string, i: int) {
    0 <= i && i + |pat| <= |s| && s[i..i + |pat|] == pat
  }

  lemma OccursAtShift(s: string, pat: string, i: int)
    requires 0 < |s| && 0 <= i
    ensures OccursAt(s[1..], pat, i) <==> OccursAt(s, pat, i + 1)
  {
    if 0 <= i && i + |pat| <= |s| - 1 {
      assert s[1..][i..i + |pat|] == s[i + 1..i + 1 + |pat|];
    }
  }

  lemma OccursAtPrefix(s: string, pat: string, i: int)
    requires 0 < |s|
    ensures OccursAt(s[..|s| - 1], pat, i) <==> OccursAt(s, pat, i) && i + |pat| < |s|
  {
    if 0 <= i && i + |pat| <= |s| - 1 {
      assert s[..|s| - 1][i..i + |pat|] == s[i..i + |pat|];
    }
  }

  /** `pat` occurs in `w` at `i` exactly when it occurs in `u + w` at `|u| + i`. */
  lemma OccursAtAppend(u: string, w: string, pat: string, i: int)
    requires 0 <= i
    ensures OccursAt(u + w, pat, |u| + i) <==> OccursAt(w, pat, i)
  {
    if i + |pat| <= |w| {
      assert (u + w)[|u| + i..|u| + i + |pat|] == w[i..i + |pat|];
    }
  }

  /** A one-character pattern occurs exactly where that character is. */
  lemma OccursAtChar(s: string, c: char, i: int)
    ensures OccursAt(s, [c], i) <==> 0 <= i < |s| && s[i] == c
  {
    if 0 <= i < |s| {
      assert s[i..i + 1] == [s[i]];
    }
  }

  /** String.indexOf: the least index where `pat` occurs, or -1. */
  function IndexOf(s: string, pat: string): (r: int)
    ensures r >= -1 && (r >= 0 ==> r + |pat| <= |s|)
    decreases |s|
  {
    if |s| < |pat| then -1
    else if s[..|pat|] == pat then 0
    else
      var k := IndexOf(s[1..], pat);
      if k < 0 then -1 else k + 1
  }

  /** IndexOf finds the first occurrence, and -1 means there is none. */
  lemma {:induction false} IndexOfSpec(s: string, pat: string)
    ensures IndexOf(s, pat) >= -1
    ensures IndexOf(s, pat) >= 0 ==>
      OccursAt(s, pat, IndexOf(s, pat)) && forall i :: 0 <= i < IndexOf(s, pat) ==> !OccursAt(s, pat, i)
    ensures IndexOf(s, pat) == -1 ==> forall i :: !OccursAt(s, pat, i)
    decreases |s|
  {
    if |s| >= |pat| && s[..|pat|] != pat {
      IndexOfSpec(s[1..], pat);
      var k := IndexOf(s[1..], pat);
      forall i | 0 <= i ensures OccursAt(s[1..], pat, i) <==> OccursAt(s, pat, i + 1) {
        OccursAtShift(s, pat, i);
      }
      assert !OccursAt(s, pat, 0);
      if k < 0 {
        forall i ensures !OccursAt(s, pat, i) {
          if i > 0 {
            assert !OccursAt(s[1..], pat, i - 1);
          }
        }
      } else {
        forall i | 0 <= i < k + 1 ensures !OccursAt(s, pat, i) {
          if i > 0 {
            assert !OccursAt(s[1..], pat, i - 1);
          }
        }
      }
    }
  }

  /** String.lastIndexOf: the greatest index where `pat` occurs, or -1. */
  function LastIndexOf(s: string, pat: string): (r: int)
    ensures r >= -1
    ensures r >= 0 ==> OccursAt(s, pat, r) && forall i :: r < i ==> !OccursAt(s, pat, i)
    ensures r == -1 ==> forall i :: !OccursAt(s, pat, i)
    decreases |s|
  {
    if |s| < |pat| then -1
    else if s[|s| - |pat|..] == pat then |s| - |pat|
    else
      var k := LastIndexOf(s[..|s| - 1], pat);
      LastIndexOfStep(s, s[..|s| - 1], pat, k);
      k
  }

  /** The step of LastIndexOf: with no occurrence at the very end, the
      occurrences in `s` are those in `s` without its last character. */
  lemma LastIndexOfStep(s: string, t: string, pat: string, k: int)
    requires |s| >= |pat| && s[|s| - |pat|..] != pat
    requires |s| > 0 && t == s[..|s| - 1]
    requires k >= -1
    requires k >= 0 ==> OccursAt(t, pat, k) && forall i :: k < i ==> !OccursAt(t, pat, i)
    requires k == -1 ==> forall i :: !OccursAt(t, pat, i)
    ensures k >= 0 ==> OccursAt(s, pat, k) && forall i :: k < i ==> !OccursAt(s, pat, i)
    ensures k == -1 ==> forall i :: !OccursAt(s, pat, i)
  {
    forall i | OccursAt(s, pat, i) ensures i <= k && (i == k ==> OccursAt(t, pat, i)) {
      OccursAtPrefix(s, pat, i);
      assert i + |pat| != |s|;
    }
    if k >= 0 {
      OccursAtPrefix(s, pat, k);
    }
  }

  /** String.contains. */
  predicate Contains(s: string, pat: string) {
    IndexOf(s, pat) >= 0
  }

  /** For a one-character pattern, indexOf finds the first occurrence of
      that character. */
  lemma IndexOfChar(s: string, c: char)
    ensures Contains(s, [c]) <==> c in s
    ensures IndexOf(s, [c]) >= 0 ==>
      var k := IndexOf(s, [c]); k < |s| && s[k] == c && c !in s[..k]
  {
    IndexOfSpec(s, [c]);
    var k := IndexOf(s, [c]);
    if k >= 0 {
      OccursAtChar(s, c, k);
      forall i | 0 <= i < k ensures s[i] != c {
        OccursAtChar(s, c, i);
      }
    } else {
      forall i | 0 <= i < |s| ensures s[i] != c {
        OccursAtChar(s, c, i);
      }
    }
  }

  /** The text between occurrences of `d`, scanning left to right for
      non-overlapping occurrences; always at least one part. */
  function SplitAll(s: string, d: string): (parts: seq<string>)
    requires |d| > 0
    ensures |parts| >= 1
    ensures |parts| == 1 <==> IndexOf(s, d) < 0
    decreases |s|
  {
    var i := IndexOf(s, d);
    if i < 0 then [s] else [s[..i]] + SplitAll(s[i + |d|..], d)
  }

  /** The parts, with `d` between consecutive ones. */
  function Join(parts: seq<string>, d: string): string
  {
    if |parts| == 0 then ""
    else if |parts| == 1 then parts[0]
    else parts[0] + d + Join(parts[1..], d)
  }

  /** Splitting loses nothing: joining the parts again gives back the text. */
  lemma {:induction false} JoinSplitAll(s: string, d: string)
    requires |d| > 0
    ensures Join(SplitAll(s, d), d) == s
    decreases |s|
  {
    var i := IndexOf(s, d);
    IndexOfSpec(s, d);
    if i >= 0 {
      var rest := s[i + |d|..];
      JoinSplitAll(rest, d);
      SplitAllStep(s, d, i);
      JoinCons(s[..i], SplitAll(rest, d), d);
      Recompose(s, d, i);
    }
  }

  lemma SplitAllStep(s: string, d: string, i: int)
    requires |d| > 0 && i == IndexOf(s, d) && i >= 0
    ensures SplitAll(s, d) == [s[..i]] + SplitAll(s[i + |d|..], d)
  {
    IndexOfSpec(s, d);
  }

  lemma Recompose(s: string, d: string, i: int)
    requires OccursAt(s, d, i)
    ensures s == s[..i] + d + s[i + |d|..]
  {
    assert s == s[..i] + s[i..i + |d|] + s[i + |d|..];
  }

  lemma JoinCons(x: string, parts: seq<string>, d: string)
    requires |parts| > 0
    ensures Join([x] + parts, d) == x + d + Join(parts, d)
  {
    assert ([x] + parts)[1..] == parts;
  }

  /** When the first character of `d` is absent from `x`, the first
      occurrence of `d` in `x + d + rest` is right after `x`. */
  lemma IndexOfAfterPart(x: string, d: string, rest: string)
    requires |d| > 0 && d[0] !in x
    ensures IndexOf(x + d + rest, d) == |x|
  {
    var s := x + d + rest;
    assert s[|x|..|x| + |d|] == d;
    assert OccursAt(s, d, |x|);
    IndexOfSpec(s, d);
  }

  lemma IndexOfAbsent(x: string, d: string)
    requires |d| > 0 && d[0] !in x
    ensures IndexOf(x, d) == -1
  {
    IndexOfSpec(x, d);
  }

  lemma SplitAllAfterPart(x: string, d: string, rest: string)
    requires |d| > 0 && d[0] !in x
    ensures SplitAll(x + d + rest, d) == [x] + SplitAll(rest, d)
  {
    var s := x + d + rest;
    IndexOfAfterPart(x, d, rest);
    assert s[..|x|] == x;
    assert s[|x| + |d|..] == rest;
  }

  lemma SplitAllTwoParts(a: string, b: string, rest: string, d: string)
    requires |d| > 0 && d[0] !in a && d[0] !in b
    ensures SplitAll(a + d + (b + d + rest), d) == [a, b] + SplitAll(rest, d)
  {
    var r1 := b + d + rest;
    var t := SplitAll(rest, d);
    SplitAllAfterPart(b, d, rest);
    SplitAllAfterPart(a, d, r1);
    assert SplitAll(a + d + r1, d) == [a] + ([b] + t);
    ConsTwo(a, b, t);
  }

  lemma ConsTwo(a: string, b: string, t: seq<string>)
    ensures [a] + ([b] + t) == [a, b] + t
  {
  }

  lemma ConsThree(a: string, b: string, c: string, t: seq<string>)
    ensures [a] + ([b] + ([c] + t)) == [a, b, c] + t
  {
  }

  lemma SplitAllThreeParts(a: string, b: string, c: string, rest: string, d: string)
    requires |d| > 0 && d[0] !in a && d[0] !in b && d[0] !in c
    ensures SplitAll(a + d + (b + d + (c + d + rest)), d) == [a, b, c] + SplitAll(rest, d)
  {
    var r2 := c + d + rest;
    var r1 := b + d + r2;
    var t := SplitAll(rest, d);
    SplitAllAfterPart(c, d, rest);
    SplitAllAfterPart(b, d, r2);
    SplitAllAfterPart(a, d, r1);
    assert SplitAll(a + d + r1, d) == [a] + ([b] + ([c] + t));
    ConsThree(a, b, c, t);
  }

  /** Joining then splitting recovers the parts, provided no part contains
      the delimiter's first character. */
  lemma {:induction false} SplitAllJoin(parts: seq<string>, d: string)
    requires |d| > 0 && |parts| > 0
    requires forall i :: 0 <= i < |parts| ==> d[0] !in parts[i]
    ensures SplitAll(Join(parts, d), d) == parts
  {
    if |parts| == 1 {
      IndexOfAbsent(parts[0], d);
    } else {
      SplitAllAfterPart(parts[0], d, Join(parts[1..], d));
      SplitAllJoin(parts[1..], d);
    }
  }

  /** A character absent from every part and from the delimiter is absent
      from their join. */
  lemma {:induction false} JoinAvoids(parts: seq<string>, d: string, c: char)
    requires c !in d
    requires forall i :: 0 <= i < |parts| ==> c !in parts[i]
    ensures c !in Join(parts, d)
  {
    if |parts| > 1 {
      JoinAvoids(parts[1..], d, c);
    }
  }

  /** Java's split removes trailing empty strings from the result. */
  function DropTrailingEmpty(parts: seq<string>): (r: seq<string>)
    ensures |r| <= |parts| && r == parts[..|r|]
    ensures |r| == 0 || r[|r| - 1] != ""
    ensures forall i :: |r| <= i < |parts| ==> parts[i] == ""
  {
    if |parts| > 0 && parts[|parts| - 1] == "" then DropTrailingEmpty(parts[..|parts| - 1])
    else parts
  }

  /** String.split with a literal delimiter and limit 0: the whole text when
      the delimiter does not occur, otherwise the parts without trailing
      empty strings. */
  function JavaSplit(s: string, d: string): seq<string>
    requires |d| > 0
  {
    if IndexOf(s, d) < 0 then [s] else DropTrailingEmpty(SplitAll(s, d))
  }

  /** Splitting a join of at least two parts, the last one non-empty, gives
      the parts back. */
  lemma JavaSplitJoin(parts: seq<string>, d: string)
    requires |d| > 0 && |parts| >= 2 && parts[|parts| - 1] != ""
    requires forall i :: 0 <= i < |parts| ==> d[0] !in parts[i]
    ensures JavaSplit(Join(parts, d), d) == parts
  {
    SplitAllJoin(parts, d);
  }

  /** ASCII case folding, as Character.toLowerCase(Character.toUpperCase(c))
      acts on ASCII letters. */
  function Fold(c: char): char {
    if 'A' <= c <= 'Z' then (c as int + 32) as char else c
  }

  function FoldAll(s: string): (r: string)
    ensures |r| == |s| && forall i :: 0 <= i < |s| ==> r[i] == Fold(s[i])
  {
    if |s| == 0 then "" else [Fold(s[0])] + FoldAll(s[1..])
  }

  /** String.compareToIgnoreCase: the difference of the first differing
      folded characters, otherwise the difference of the lengths. */
  function CompareIgnoreCase(a: string, b: string): int
  {
    if |a| == 0 || |b| == 0 then |a| - |b|
    else if Fold(a[0]) != Fold(b[0]) then Fold(a[0]) as int - Fold(b[0]) as int
    else CompareIgnoreCase(a[1..], b[1..])
  }

  /** Swapping the arguments negates the comparison. */
  lemma {:induction false} CompareIgnoreCaseAntisymmetric(a: string, b: string)
    ensures CompareIgnoreCase(a, b) == -CompareIgnoreCase(b, a)
  {
    if |a| > 0 && |b| > 0 && Fold(a[0]) == Fold(b[0]) {
      CompareIgnoreCaseAntisymmetric(a[1..], b[1..]);
    }
  }

  /** Two strings compare equal exactly when they are equal ignoring case. */
  lemma {:induction false} CompareIgnoreCaseZero(a: string, b: string)
    ensures CompareIgnoreCase(a, b) == 0 <==> FoldAll(a) == FoldAll(b)
  {
    if |a| > 0 && |b| > 0 {
      CompareIgnoreCaseZero(a[1..], b[1..]);
      assert FoldAll(a) == [Fold(a[0])] + FoldAll(a[1..]);
      assert FoldAll(b) == [Fold(b[0])] + FoldAll(b[1..]);
      if FoldAll(a) == FoldAll(b) {
        assert FoldAll(a)[0] == Fold(a[0]);
        assert FoldAll(a)[1..] == FoldAll(a[1..]);
      }
    }
  }

  /** The case-insensitive order is transitive. */
  lemma {:induction false} CompareIgnoreCaseTransitive(a: string, b: string, c: string)
    requires CompareIgnoreCase(a, b) <= 0 && CompareIgnoreCase(b, c) <= 0
    ensures CompareIgnoreCase(a, c) <= 0
  {
    if |a| > 0 && |b| > 0 && |c| > 0 && Fold(a[0]) == Fold(b[0]) == Fold(c[0]) {
      CompareIgnoreCaseTransitive(a[1..], b[1..], c[1..]);
    }
  }
}
