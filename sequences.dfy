/**
 * Sequence helpers shared by the models: concatenating the parts of a sequence
 * (PHP's array_merge of nested lists, JavaScript's flat()).
 */
module Sequences {

  /** The elements of `s` that satisfy `p`, in their order (Array.prototype.filter). */
  function Filter<T(!new)>(s: seq<T>, p: T -> bool): (r: seq<T>)
    ensures |r| <= |s|
    ensures forall i :: 0 <= i < |r| ==> p(r[i])
    ensures forall x :: multiset(r)[x] == if p(x) then multiset(s)[x] else 0
    decreases |s|
  {
    if s == [] then []
    else
      var last := s[|s| - 1];
      assert s == s[..|s| - 1] + [last];
      Filter(s[..|s| - 1], p) + (if p(last) then [last] else [])
  }

  lemma FilterAppend<T(!new)>(s: seq<T>, x: T, p: T -> bool)
    ensures Filter(s + [x], p) == Filter(s, p) + (if p(x) then [x] else [])
  {
    assert (s + [x])[..|s|] == s;
  }

  /** Filtering with a condition every element meets keeps the whole sequence. */
  lemma {:induction false} FilterAll<T(!new)>(s: seq<T>, p: T -> bool)
    requires forall i :: 0 <= i < |s| ==> p(s[i])
    ensures Filter(s, p) == s
    decreases |s|
  {
    if s != [] {
      var init := s[..|s| - 1];
      FilterAll(init, p);
      assert p(s[|s| - 1]);
      assert Filter(s, p) == Filter(init, p) + [s[|s| - 1]];
      assert s == init + [s[|s| - 1]];
    }
  }

  /** The concatenation, in order, of `f(x)` for every element `x` of `s`. */
  function FlatMap<T, U>(s: seq<T>, f: T -> seq<U>): seq<U>
    decreases |s|
  {
    if s == [] then [] else FlatMap(s[..|s| - 1], f) + f(s[|s| - 1])
  }

  lemma {:induction false} FlatMapConcat<T, U>(a: seq<T>, b: seq<T>, f: T -> seq<U>)
    ensures FlatMap(a + b, f) == FlatMap(a, f) + FlatMap(b, f)
    decreases |b|
  {
    if b == [] {
      assert a + b == a;
    } else {
      var b' := b[..|b| - 1];
      assert (a + b)[..|a + b| - 1] == a + b';
      assert (a + b)[|a + b| - 1] == b[|b| - 1];
      FlatMapConcat(a, b', f);
    }
  }

  /** Reordering the parts does not change which elements the concatenation holds. */
  lemma {:induction false} FlatMapPermutation<T, U>(a: seq<T>, b: seq<T>, f: T -> seq<U>)
    requires multiset(a) == multiset(b)
    ensures multiset(FlatMap(a, f)) == multiset(FlatMap(b, f))
    decreases |a|
  {
    if a == [] {
      assert |b| == |multiset(b)| == 0;
    } else {
      var x := a[|a| - 1];
      var a' := a[..|a| - 1];
      assert a == a' + [x];
      assert x in multiset(b);
      var k :| 0 <= k < |b| && b[k] == x;
      var b' := b[..k] + b[k + 1..];
      RemoveMatching(a, b, k);
      FlatMapPermutation(a', b', f);
      FlatMapRemoved(b, k, f);
    }
  }

  /** Taking the last element of `a` out of `a` and its copy at `k` out of `b` keeps the multisets equal. */
  lemma RemoveMatching<T>(a: seq<T>, b: seq<T>, k: nat)
    requires a != [] && k < |b| && b[k] == a[|a| - 1] && multiset(a) == multiset(b)
    ensures multiset(a[..|a| - 1]) == multiset(b[..k] + b[k + 1..])
  {
    var x := a[|a| - 1];
    var a' := a[..|a| - 1];
    var b' := b[..k] + b[k + 1..];
    assert a == a' + [x];
    assert b == b[..k] + [x] + b[k + 1..];
    assert multiset(a) == multiset(a') + multiset{x};
    assert multiset(b) == multiset(b[..k]) + multiset{x} + multiset(b[k + 1..]);
    assert multiset(b') == multiset(b[..k]) + multiset(b[k + 1..]);
    forall y ensures multiset(b')[y] == multiset(a')[y] {
      assert multiset(b)[y] == multiset(a)[y];
    }
  }

  /** The concatenation of `b` is that of `b` without its `k`-th part, with `f(b[k])` added. */
  lemma FlatMapRemoved<T, U>(b: seq<T>, k: nat, f: T -> seq<U>)
    requires k < |b|
    ensures multiset(FlatMap(b, f)) == multiset(FlatMap(b[..k] + b[k + 1..], f)) + multiset(f(b[k]))
  {
    var x := b[k];
    var l := b[..k];
    var r := b[k + 1..];
    assert b == l + [x] + r;
    FlatMapConcat(l + [x], r, f);
    FlatMapConcat(l, [x], f);
    FlatMapConcat(l, r, f);
    assert FlatMap([x], f) == f(x) by {
      assert [x][..0] == [];
    }
    var fl, fr := FlatMap(l, f), FlatMap(r, f);
    assert FlatMap(b, f) == fl + f(x) + fr;
    assert FlatMap(l + r, f) == fl + fr;
    assert multiset(fl + f(x) + fr) == multiset(fl + fr) + multiset(f(x));
  }

  /** Replacing one part changes the concatenation by exactly that part. */
  lemma FlatMapUpdate<T, U>(s: seq<T>, k: nat, x: T, f: T -> seq<U>)
    requires k < |s|
    ensures multiset(FlatMap(s[k := x], f)) + multiset(f(s[k])) == multiset(FlatMap(s, f)) + multiset(f(x))
  {
    assert s == s[..k] + [s[k]] + s[k + 1..];
    assert s[k := x] == s[..k] + [x] + s[k + 1..];
    FlatMapConcat(s[..k] + [s[k]], s[k + 1..], f);
    FlatMapConcat(s[..k], [s[k]], f);
    FlatMapConcat(s[..k] + [x], s[k + 1..], f);
    FlatMapConcat(s[..k], [x], f);
    assert FlatMap([s[k]], f) == f(s[k]) by {
      assert [s[k]][..0] == [];
    }
    assert FlatMap([x], f) == f(x) by {
      assert [x][..0] == [];
    }
  }

  /** Appending one element to one part appends it to the concatenation's multiset. */
  lemma FlatMapUpdateAppend<T, U>(s: seq<T>, k: nat, x: T, y: U, f: T -> seq<U>)
    requires k < |s| && f(x) == f(s[k]) + [y]
    ensures multiset(FlatMap(s[k := x], f)) == multiset(FlatMap(s, f)) + multiset{y}
  {
    FlatMapUpdate(s, k, x, f);
    MultisetCancel(multiset(FlatMap(s[k := x], f)), multiset(f(s[k])), multiset(FlatMap(s, f)), y);
  }

  lemma MultisetCancel<U>(a: multiset<U>, b: multiset<U>, c: multiset<U>, y: U)
    requires a + b == c + (b + multiset{y})
    ensures a == c + multiset{y}
  {
    forall z ensures a[z] == (c + multiset{y})[z] {
      assert (a + b)[z] == (c + (b + multiset{y}))[z];
    }
  }
}
