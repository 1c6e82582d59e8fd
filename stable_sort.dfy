/**
 * A stable insertion sort driven by a "must come before" relation. It stands for
 * the library sorts the source calls: PHP's usort (stable since PHP 8.0) and
 * JavaScript's Array.prototype.sort (stable since ES2019). For a comparator that is
 * a strict weak order every stable sort yields the same sequence, so this one is
 * exact there; for the truncating PHP comparator see SortNoAdjacentInversion.
 */
module StableSort {

  /** `x` moves left from the end of `s` past every element it must come before. */
  function Insert<T>(s: seq<T>, x: T, before: (T, T) -> bool): (r: seq<T>)
    ensures |r| == |s| + 1
    ensures multiset(r) == multiset(s) + multiset{x}
    ensures r[|r| - 1] == x || (s != [] && r[|r| - 1] == s[|s| - 1])
    decreases |s|
  {
    if s == [] then [x]
    else if before(x, s[|s| - 1]) then
      assert s == s[..|s| - 1] + [s[|s| - 1]];
      Insert(s[..|s| - 1], x, before) + [s[|s| - 1]]
    else s + [x]
  }

  function Sort<T>(s: seq<T>, before: (T, T) -> bool): (r: seq<T>)
    ensures |r| == |s|
    ensures multiset(r) == multiset(s)
    decreases |s|
  {
    if s == [] then []
    else
      assert s == s[..|s| - 1] + [s[|s| - 1]];
      Insert(Sort(s[..|s| - 1], before), s[|s| - 1], before)
  }

  /** No element is immediately followed by one that must come before it. */
  ghost predicate NoAdjacentInversion<T>(r: seq<T>, before: (T, T) -> bool)
  {
    forall i :: 0 <= i < |r| - 1 ==> !before(r[i + 1], r[i])
  }

  /** Elements appear by non-increasing rank. */
  ghost predicate DescendingBy<T>(r: seq<T>, rank: T -> real)
  {
    forall i, j :: 0 <= i < j < |r| ==> rank(r[i]) >= rank(r[j])
  }

  /** On the elements of `s`, "must come before" is exactly "has a higher rank". */
  ghost predicate AgreesWithRank<T>(s: seq<T>, before: (T, T) -> bool, rank: T -> real)
  {
    forall x, y :: x in s && y in s ==> (before(x, y) <==> rank(x) > rank(y))
  }

  lemma {:induction false} InsertNoAdjacentInversion<T>(s: seq<T>, x: T, before: (T, T) -> bool)
    requires forall a, b :: before(a, b) ==> !before(b, a)
    requires NoAdjacentInversion(s, before)
    ensures NoAdjacentInversion(Insert(s, x, before), before)
    decreases |s|
  {
    if s != [] && before(x, s[|s| - 1]) {
      var s' := s[..|s| - 1];
      InsertNoAdjacentInversion(s', x, before);
      var r' := Insert(s', x, before);
      var r := Insert(s, x, before);
      assert r == r' + [s[|s| - 1]];
      assert forall i :: 0 <= i < |r'| ==> r[i] == r'[i];
      assert !before(r[|r| - 1], r[|r| - 2]);
    }
  }

  /** Whatever the relation, as long as it is asymmetric, the output has no adjacent inversion. */
  lemma {:induction false} SortNoAdjacentInversion<T>(s: seq<T>, before: (T, T) -> bool)
    requires forall a, b :: before(a, b) ==> !before(b, a)
    ensures NoAdjacentInversion(Sort(s, before), before)
    decreases |s|
  {
    if s != [] {
      SortNoAdjacentInversion(s[..|s| - 1], before);
      InsertNoAdjacentInversion(Sort(s[..|s| - 1], before), s[|s| - 1], before);
    }
  }

  lemma {:induction false} InsertDescending<T>(s: seq<T>, x: T, before: (T, T) -> bool, rank: T -> real)
    requires DescendingBy(s, rank)
    requires forall y :: y in s ==> (before(x, y) <==> rank(x) > rank(y))
    ensures DescendingBy(Insert(s, x, before), rank)
    decreases |s|
  {
    if s != [] && before(x, s[|s| - 1]) {
      var s' := s[..|s| - 1];
      var last := s[|s| - 1];
      InsertDescending(s', x, before, rank);
      var r' := Insert(s', x, before);
      InsertRanksAbove(s, x, before, rank);
      DescendingAppend(r', last, rank);
    }
  }

  lemma InsertRanksAbove<T>(s: seq<T>, x: T, before: (T, T) -> bool, rank: T -> real)
    requires s != [] && before(x, s[|s| - 1])
    requires DescendingBy(s, rank)
    requires forall y :: y in s ==> (before(x, y) <==> rank(x) > rank(y))
    ensures forall y :: y in Insert(s[..|s| - 1], x, before) ==> rank(y) >= rank(s[|s| - 1])
  {
    var s' := s[..|s| - 1];
    var r' := Insert(s', x, before);
    forall y | y in r' ensures rank(y) >= rank(s[|s| - 1]) {
      assert y in multiset(r');
      if y != x {
        assert y in s';
      }
    }
  }

  lemma DescendingAppend<T>(s: seq<T>, x: T, rank: T -> real)
    requires DescendingBy(s, rank)
    requires forall y :: y in s ==> rank(y) >= rank(x)
    ensures DescendingBy(s + [x], rank)
  {
    forall i, j | 0 <= i < j < |s + [x]| ensures rank((s + [x])[i]) >= rank((s + [x])[j]) {
      assert (s + [x])[i] == s[i];
      if j == |s| {
        assert s[i] in s;
      }
    }
  }

  /** When the relation ranks the elements consistently, the output is ordered by rank. */
  lemma {:induction false} SortDescending<T>(s: seq<T>, before: (T, T) -> bool, rank: T -> real)
    requires AgreesWithRank(s, before, rank)
    ensures DescendingBy(Sort(s, before), rank)
    decreases |s|
  {
    if s != [] {
      var s' := s[..|s| - 1];
      var x := s[|s| - 1];
      SortDescending(s', before, rank);
      forall y | y in Sort(s', before) ensures (before(x, y) <==> rank(x) > rank(y)) {
        assert y in multiset(Sort(s', before));
        assert y in s';
      }
      InsertDescending(Sort(s', before), x, before, rank);
    }
  }

  /** Insert puts `x` at some position `k`, ahead only of elements it must come before. */
  lemma {:induction false} InsertShape<T>(s: seq<T>, x: T, before: (T, T) -> bool) returns (k: nat)
    ensures k <= |s| && Insert(s, x, before) == s[..k] + [x] + s[k..]
    ensures forall m :: k <= m < |s| ==> before(x, s[m])
    decreases |s|
  {
    if s == [] {
      k := 0;
    } else if before(x, s[|s| - 1]) {
      var s' := s[..|s| - 1];
      var last := s[|s| - 1];
      k := InsertShape(s', x, before);
      SplitAround(s, k, x);
      forall m | k <= m < |s| ensures before(x, s[m]) {
        if m < |s| - 1 {
          assert s'[m] == s[m];
        }
      }
    } else {
      k := |s|;
      assert s[..|s|] == s && s[|s|..] == [];
    }
  }

  /** Putting `x` at position `k` of all but the last element, then the last one, is putting it at `k` in `s`. */
  lemma SplitAround<T>(s: seq<T>, k: nat, x: T)
    requires s != [] && k <= |s| - 1
    ensures var s' := s[..|s| - 1];
      (s'[..k] + [x] + s'[k..]) + [s[|s| - 1]] == s[..k] + [x] + s[k..]
  {
    var s' := s[..|s| - 1];
    assert s'[..k] == s[..k];
    assert s'[k..] + [s[|s| - 1]] == s[k..];
  }

  /** Of the distinct elements of `s`, a later one is ahead of an earlier one in `r` only when it must come before it. */
  ghost predicate StableFor<T>(s: seq<T>, r: seq<T>, before: (T, T) -> bool)
  {
    forall p, q, i, j :: 0 <= p < q < |r| && 0 <= i < j < |s| && r[p] == s[j] && r[q] == s[i] ==>
      before(s[j], s[i])
  }

  /**
   * Stability: of two distinct input elements, the later one ends up ahead of the
   * earlier one only when it must come before it.
   */
  lemma {:induction false} SortStable<T>(s: seq<T>, before: (T, T) -> bool)
    requires forall i, j :: 0 <= i < j < |s| ==> s[i] != s[j]
    ensures StableFor(s, Sort(s, before), before)
    decreases |s|
  {
    if s != [] {
      var n := |s| - 1;
      var s' := s[..n];
      var x := s[n];
      assert s' + [x] == s;
      SortStable(s', before);
      var r' := Sort(s', before);
      var k := InsertShape(r', x, before);
      LastNotBefore(s, before);
      assert Sort(s, before) == r'[..k] + [x] + r'[k..];
      StableInsert(s', x, r', k, before);
    }
  }

  /** The last element of distinct `s` occurs neither earlier in `s` nor in the sort of the rest. */
  lemma LastNotBefore<T>(s: seq<T>, before: (T, T) -> bool)
    requires s != [] && forall i, j :: 0 <= i < j < |s| ==> s[i] != s[j]
    ensures s[|s| - 1] !in s[..|s| - 1] && s[|s| - 1] !in Sort(s[..|s| - 1], before)
    ensures Sort(s, before) == Insert(Sort(s[..|s| - 1], before), s[|s| - 1], before)
  {
    var s' := s[..|s| - 1];
    var x := s[|s| - 1];
    forall m | 0 <= m < |s'| ensures s'[m] != x {
      assert s'[m] == s[m];
    }
    var r := Sort(s', before);
    assert multiset(r) == multiset(s');
    assert x !in multiset(s');
    assert x !in multiset(r);
  }

  lemma StableInsert<T>(s: seq<T>, x: T, r: seq<T>, k: nat, before: (T, T) -> bool)
    requires x !in r && x !in s
    requires StableFor(s, r, before)
    requires k <= |r| && forall m :: k <= m < |r| ==> before(x, r[m])
    ensures StableFor(s + [x], r[..k] + [x] + r[k..], before)
  {
    var s' := s + [x];
    var r' := r[..k] + [x] + r[k..];
    assert forall m :: 0 <= m < k ==> r'[m] == r[m];
    assert forall m :: k < m < |r'| ==> r'[m] == r[m - 1];
    assert r'[k] == x;
    forall p, q, i, j | 0 <= p < q < |r'| && 0 <= i < j < |s'| && r'[p] == s'[j] && r'[q] == s'[i]
      ensures before(s'[j], s'[i])
    {
      if j < |s| {
        assert s'[j] == s[j] && s'[i] == s[i] && s[j] in s && s[i] in s;
        var p' := if p < k then p else p - 1;
        var q' := if q < k then q else q - 1;
        assert r[p'] == s[j] && r[q'] == s[i] && p' < q';
      } else {
        assert p == k;
        assert r'[q] == r[q - 1];
      }
    }
  }
}
