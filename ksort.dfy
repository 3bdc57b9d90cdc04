/**
 PHP's `ksort`: reorder an associative array by key. The model assumes the
 keys are ordinary column names (not numeric strings), for which PHP's
 default comparison is the byte-wise lexicographic order `Below`.
 */
module KeySort {
  import opened PhpRuntime

  /** Lexicographic "less than or equal" on strings. */
  predicate Below(a: string, b: string)
  {
    |a| == 0 || (|b| > 0 && (a[0] < b[0] || (a[0] == b[0] && Below(a[1..], b[1..]))))
  }

  lemma {:induction false} BelowTotal(a: string, b: string)
    ensures Below(a, b) || Below(b, a)
  {
    if |a| > 0 && |b| > 0 && a[0] == b[0] {
      BelowTotal(a[1..], b[1..]);
    }
  }

  lemma {:induction false} BelowAntisymmetric(a: string, b: string)
    requires Below(a, b) && Below(b, a)
    ensures a == b
  {
    if |a| > 0 && |b| > 0 {
      BelowAntisymmetric(a[1..], b[1..]);
      assert a == [a[0]] + a[1..] && b == [b[0]] + b[1..];
    }
  }

  lemma {:induction false} BelowTransitive(a: string, b: string, c: string)
    requires Below(a, b) && Below(b, c)
    ensures Below(a, c)
  {
    if |a| > 0 && |b| > 0 && |c| > 0 && a[0] == b[0] == c[0] {
      BelowTransitive(a[1..], b[1..], c[1..]);
    }
  }

  /** Keys in ascending order. */
  predicate Sorted(e: Entries)
  {
    forall i, j :: 0 <= i < j < |e| ==> Below(e[i].0, e[j].0)
  }

  /** Put `x` in front of the first entry whose key it is below. */
  function InsertSorted(x: (string, Value), s: Entries): (r: Entries)
    ensures multiset(r) == multiset(s) + multiset{x}
  {
    if s == [] then [x]
    else if Below(x.0, s[0].0) then [x] + s
    else
      assert s == [s[0]] + s[1..];
      [s[0]] + InsertSorted(x, s[1..])
  }

  /** `ksort`: the same entries, ordered by key. */
  function KSort(e: Entries): (r: Entries)
    ensures multiset(r) == multiset(e)
  {
    if e == [] then []
    else
      assert e == [e[0]] + e[1..];
      InsertSorted(e[0], KSort(e[1..]))
  }

  lemma {:induction false} InsertSortedSorted(x: (string, Value), s: Entries)
    requires Sorted(s)
    ensures Sorted(InsertSorted(x, s))
  {
    if s == [] {
    } else if Below(x.0, s[0].0) {
      var r := [x] + s;
      forall i, j | 0 <= i < j < |r| ensures Below(r[i].0, r[j].0) {
        if i == 0 && j > 1 {
          BelowTransitive(x.0, s[0].0, s[j - 1].0);
        }
      }
    } else {
      BelowTotal(x.0, s[0].0);
      InsertSortedSorted(x, s[1..]);
      var rest := InsertSorted(x, s[1..]);
      var r := [s[0]] + rest;
      forall i, j | 0 <= i < j < |r| ensures Below(r[i].0, r[j].0) {
        if i == 0 {
          var p := rest[j - 1];
          assert p in multiset(rest);
          assert p == x || p in multiset(s[1..]);
          if p != x {
            var k :| 0 <= k < |s[1..]| && s[1..][k] == p;
            assert s[k + 1] == p;
          }
        }
      }
    }
  }

  /** `ksort` leaves the keys in ascending order. */
  lemma {:induction false} KSortSorted(e: Entries)
    ensures Sorted(KSort(e))
  {
    if e != [] {
      KSortSorted(e[1..]);
      InsertSortedSorted(e[0], KSort(e[1..]));
    }
  }

  lemma {:induction false} InsertSortedDistinct(x: (string, Value), s: Entries)
    requires DistinctKeys(s)
    requires forall p :: p in s ==> p.0 != x.0
    ensures DistinctKeys(InsertSorted(x, s))
  {
    if s != [] && !Below(x.0, s[0].0) {
      InsertSortedDistinct(x, s[1..]);
      var rest := InsertSorted(x, s[1..]);
      forall j | 0 <= j < |rest| ensures rest[j].0 != s[0].0 {
        var p := rest[j];
        assert p in multiset(rest);
        if p != x {
          assert p in multiset(s[1..]);
          var k :| 0 <= k < |s[1..]| && s[1..][k] == p;
          assert s[k + 1] == p;
        }
      }
    }
  }

  /** Sorting keeps the keys of a PHP array unique. */
  lemma {:induction false} KSortDistinct(e: Entries)
    requires DistinctKeys(e)
    ensures DistinctKeys(KSort(e))
  {
    if e != [] {
      KSortDistinct(e[1..]);
      forall p | p in KSort(e[1..]) ensures p.0 != e[0].0 {
        assert p in multiset(KSort(e[1..]));
        var k :| 0 <= k < |e[1..]| && e[1..][k] == p;
        assert e[k + 1] == p;
      }
      InsertSortedDistinct(e[0], KSort(e[1..]));
    }
  }

  /** Sorted arrays with unique keys and the same entries start alike. */
  lemma SortedHeadsEqual(a: Entries, b: Entries)
    requires Sorted(a) && Sorted(b) && DistinctKeys(b)
    requires a != [] && multiset(a) == multiset(b)
    ensures b != [] && a[0] == b[0]
  {
    assert a[0] in multiset(b);
    var j :| 0 <= j < |b| && b[j] == a[0];
    assert b[0] in multiset(a);
    var i :| 0 <= i < |a| && a[i] == b[0];
    if j != 0 {
      if i != 0 {
        BelowAntisymmetric(a[0].0, b[0].0);
      }
      assert false;
    }
  }

  /** Dropping the first entry keeps an array sorted with unique keys. */
  lemma SortedTail(a: Entries)
    requires a != [] && Sorted(a) && DistinctKeys(a)
    ensures Sorted(a[1..]) && DistinctKeys(a[1..])
  {
    forall i, j | 0 <= i < j < |a[1..]| ensures Below(a[1..][i].0, a[1..][j].0) {
      assert a[1..][i] == a[i + 1] && a[1..][j] == a[j + 1];
    }
    forall i, j | 0 <= i < j < |a[1..]| ensures a[1..][i].0 != a[1..][j].0 {
      assert a[1..][i] == a[i + 1] && a[1..][j] == a[j + 1];
    }
  }

  /** Removing the same first entry leaves the same entries. */
  lemma MultisetTail(a: Entries, b: Entries)
    requires a != [] && b != [] && a[0] == b[0] && multiset(a) == multiset(b)
    ensures multiset(a[1..]) == multiset(b[1..])
  {
    assert a == [a[0]] + a[1..] && b == [b[0]] + b[1..];
    calc {
      multiset(a[1..]);
      multiset(a) - multiset{a[0]};
      multiset(b) - multiset{b[0]};
      multiset(b[1..]);
    }
  }

  /** Two sorted arrays with unique keys holding the same entries are equal. */
  lemma {:induction false} SortedUnique(a: Entries, b: Entries)
    requires Sorted(a) && Sorted(b) && DistinctKeys(a) && DistinctKeys(b)
    requires multiset(a) == multiset(b)
    ensures a == b
  {
    if a == [] {
      assert |b| == |multiset(b)| == 0;
    } else {
      SortedHeadsEqual(a, b);
      MultisetTail(a, b);
      SortedTail(a);
      SortedTail(b);
      SortedUnique(a[1..], b[1..]);
      assert a == [a[0]] + a[1..] && b == [b[0]] + b[1..];
    }
  }

  /** The order in which the caller listed the entries does not matter to
      `ksort`: the same entries always sort to the same array. */
  lemma KSortCanonical(a: Entries, b: Entries)
    requires DistinctKeys(a) && DistinctKeys(b)
    requires multiset(a) == multiset(b)
    ensures KSort(a) == KSort(b)
  {
    KSortSorted(a);
    KSortSorted(b);
    KSortDistinct(a);
    KSortDistinct(b);
    SortedUnique(KSort(a), KSort(b));
  }
}
