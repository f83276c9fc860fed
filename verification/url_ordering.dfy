/** The order getUrls puts Cloud URLs in: Collections.sort with a comparator
    that compares names with compareToIgnoreCase. Collections.sort is a
    stable sort; it is modelled here by a stable insertion sort, which
    yields the same list as any stable sort for the same comparator. */
module UrlOrdering {
  import opened Base
  import opened Text
  import opened CloudModel

  /** The name the comparator reads. The comparator dereferences the name,
      so sorting happens only when every name is present (otherwise getUrls
      throws before a result exists); the empty string stands in for null. */
  function NameKey(u: CloudURL): string {
    if u.name.Some? then u.name.value else ""
  }

  function CompareNames(a: CloudURL, b: CloudURL): int {
    CompareIgnoreCase(NameKey(a), NameKey(b))
  }

  predicate SortedByName(s: seq<CloudURL>) {
    forall i, j :: 0 <= i < j < |s| ==> CompareNames(s[i], s[j]) <= 0
  }

  /** Places `x` after every element that does not compare greater. */
  function InsertByName(x: CloudURL, s: seq<CloudURL>): (r: seq<CloudURL>)
    ensures multiset(r) == multiset(s) + multiset{x}
  {
    if |s| == 0 then [x]
    else if CompareNames(x, s[0]) < 0 then [x] + s
    else
      assert s == [s[0]] + s[1..];
      [s[0]] + InsertByName(x, s[1..])
  }

  /** Insertion sort taking elements from the end, so that an element is
      inserted after all earlier elements with an equal name. */
  function SortByName(s: seq<CloudURL>): seq<CloudURL> {
    if |s| == 0 then []
    else InsertByName(s[|s| - 1], SortByName(s[..|s| - 1]))
  }

  lemma ConsSorted(h: CloudURL, t: seq<CloudURL>)
    requires SortedByName(t)
    requires forall i :: 0 <= i < |t| ==> CompareNames(h, t[i]) <= 0
    ensures SortedByName([h] + t)
  {
    var r := [h] + t;
    forall i, j | 0 <= i < j < |r| ensures CompareNames(r[i], r[j]) <= 0 {
      assert r[j] == t[j - 1];
      if i > 0 {
        assert r[i] == t[i - 1];
      }
    }
  }

  lemma InsertMembers(x: CloudURL, s: seq<CloudURL>, y: CloudURL)
    requires y in InsertByName(x, s)
    ensures y == x || y in s
  {
    assert y in multiset(InsertByName(x, s));
  }

  lemma {:induction false} InsertSorted(x: CloudURL, s: seq<CloudURL>)
    requires SortedByName(s)
    ensures SortedByName(InsertByName(x, s))
  {
    if |s| > 0 {
      if CompareNames(x, s[0]) < 0 {
        forall j | 0 <= j < |s| ensures CompareNames(x, s[j]) <= 0 {
          if j > 0 {
            CompareIgnoreCaseTransitive(NameKey(x), NameKey(s[0]), NameKey(s[j]));
          }
        }
        ConsSorted(x, s);
      } else {
        CompareIgnoreCaseAntisymmetric(NameKey(x), NameKey(s[0]));
        var rest := s[1..];
        assert SortedByName(rest) by {
          forall i, j | 0 <= i < j < |rest| ensures CompareNames(rest[i], rest[j]) <= 0 {
            assert rest[i] == s[i + 1] && rest[j] == s[j + 1];
          }
        }
        InsertSorted(x, rest);
        var tail := InsertByName(x, rest);
        forall i | 0 <= i < |tail| ensures CompareNames(s[0], tail[i]) <= 0 {
          var y := tail[i];
          InsertMembers(x, rest, y);
          if y != x {
            var j :| 0 <= j < |rest| && rest[j] == y;
            assert s[j + 1] == y;
          }
        }
        ConsSorted(s[0], tail);
      }
    }
  }

  /** The sorted list is ordered by case-insensitive name. */
  lemma {:induction false} SortByNameSorted(s: seq<CloudURL>)
    ensures SortedByName(SortByName(s))
  {
    if |s| > 0 {
      SortByNameSorted(s[..|s| - 1]);
      InsertSorted(s[|s| - 1], SortByName(s[..|s| - 1]));
    }
  }

  /** The sorted list is a permutation of the input. */
  lemma {:induction false} SortByNamePermutes(s: seq<CloudURL>)
    ensures multiset(SortByName(s)) == multiset(s)
  {
    if |s| > 0 {
      SortByNamePermutes(s[..|s| - 1]);
      assert s == s[..|s| - 1] + [s[|s| - 1]];
    }
  }

  /** The elements of `s` that `keep` selects, in order. */
  function Filter(s: seq<CloudURL>, keep: CloudURL -> bool): seq<CloudURL> {
    if |s| == 0 then []
    else (if keep(s[0]) then [s[0]] else []) + Filter(s[1..], keep)
  }

  /** Selects the URLs whose name, folded to lower case, is `key`. */
  function SameFoldedName(key: string): CloudURL -> bool {
    u => FoldAll(NameKey(u)) == key
  }

  lemma {:induction false} FilterAppend(a: seq<CloudURL>, b: seq<CloudURL>, keep: CloudURL -> bool)
    ensures Filter(a + b, keep) == Filter(a, keep) + Filter(b, keep)
  {
    if |a| > 0 {
      FilterAppend(a[1..], b, keep);
      assert (a + b)[1..] == a[1..] + b;
      assert (a + b)[0] == a[0];
    } else {
      assert a + b == b;
    }
  }

  lemma {:induction false} FilterNone(s: seq<CloudURL>, keep: CloudURL -> bool)
    requires forall i :: 0 <= i < |s| ==> !keep(s[i])
    ensures Filter(s, keep) == []
  {
    if |s| > 0 {
      FilterNone(s[1..], keep);
    }
  }

  /** In a sorted list, nothing after an element that compares greater
      than `x` has the same folded name as `x`. */
  lemma NoEqualNameAfterGreater(x: CloudURL, s: seq<CloudURL>, i: int)
    requires SortedByName(s) && |s| > 0 && CompareNames(x, s[0]) < 0
    requires 0 <= i < |s|
    ensures FoldAll(NameKey(s[i])) != FoldAll(NameKey(x))
  {
    if FoldAll(NameKey(s[i])) == FoldAll(NameKey(x)) {
      CompareIgnoreCaseZero(NameKey(s[i]), NameKey(x));
      CompareIgnoreCaseAntisymmetric(NameKey(x), NameKey(s[0]));
      if i > 0 {
        CompareIgnoreCaseTransitive(NameKey(s[0]), NameKey(s[i]), NameKey(x));
      }
      assert false;
    }
  }

  lemma SortedTail(s: seq<CloudURL>)
    requires SortedByName(s) && |s| > 0
    ensures SortedByName(s[1..])
  {
    var rest := s[1..];
    forall i, j | 0 <= i < j < |rest| ensures CompareNames(rest[i], rest[j]) <= 0 {
      assert rest[i] == s[i + 1] && rest[j] == s[j + 1];
    }
  }

  /** Inserting in front of a list that compares greater: no element of the
      list shares the new element's folded name. */
  lemma InsertStableFront(x: CloudURL, s: seq<CloudURL>, key: string)
    requires SortedByName(s) && |s| > 0 && CompareNames(x, s[0]) < 0
    ensures Filter([x] + s, SameFoldedName(key))
         == Filter(s, SameFoldedName(key)) + Filter([x], SameFoldedName(key))
  {
    var keep := SameFoldedName(key);
    FilterAppend([x], s, keep);
    if keep(x) {
      forall i | 0 <= i < |s| ensures !keep(s[i]) {
        NoEqualNameAfterGreater(x, s, i);
      }
      FilterNone(s, keep);
    }
  }

  /** Inserting into a sorted list puts the new element after every element
      whose name is equal to its own ignoring case. */
  lemma {:induction false} InsertStable(x: CloudURL, s: seq<CloudURL>, key: string)
    requires SortedByName(s)
    ensures Filter(InsertByName(x, s), SameFoldedName(key))
         == Filter(s, SameFoldedName(key)) + Filter([x], SameFoldedName(key))
  {
    var keep := SameFoldedName(key);
    if |s| == 0 {
      assert InsertByName(x, s) == [x];
    } else if CompareNames(x, s[0]) < 0 {
      InsertStableFront(x, s, key);
    } else {
      var rest := s[1..];
      SortedTail(s);
      InsertStable(x, rest, key);
      FilterAppend([s[0]], InsertByName(x, rest), keep);
      FilterAppend([s[0]], rest, keep);
      assert [s[0]] + rest == s;
    }
  }

  /** Elements whose names are equal ignoring case keep their relative
      order: the sort is stable, as Collections.sort promises. */
  lemma {:induction false} SortByNameStable(s: seq<CloudURL>, key: string)
    ensures Filter(SortByName(s), SameFoldedName(key)) == Filter(s, SameFoldedName(key))
  {
    if |s| > 0 {
      var init := s[..|s| - 1];
      SortByNameStable(init, key);
      SortByNameSorted(init);
      InsertStable(s[|s| - 1], SortByName(init), key);
      FilterAppend(init, [s[|s| - 1]], SameFoldedName(key));
      assert init + [s[|s| - 1]] == s;
    }
  }
}
