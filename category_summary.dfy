/**
 * The category summary panel (resources/js/Components/CategorySummary.jsx): the
 * amount of the listed entries per category, the categories with a nonzero sum by
 * decreasing absolute amount, an "Uncategorized" row last, and their total.
 *
 * `sums` is a JavaScript Map from category id to row; it is modelled as the
 * sequence of its entries in insertion order, which is the order `sums.values()`
 * yields.
 */
module CategorySummary {
  import opened Wrappers
  import opened Sequences
  import opened View
  import StableSort

  /** A row of the summary: `{ amount, name, color }`. */
  datatype SumRow = SumRow(name: string, amount: real, color: string)

  type Sums = seq<(int, SumRow)>

  const UncategorizedName := "Uncategorized"
  const UncategorizedColor := "#9E9E9E"

  // ---------------------------------------------------------------------------
  // The Map
  // ---------------------------------------------------------------------------

  predicate DistinctKeys(m: Sums)
  {
    forall i, j :: 0 <= i < j < |m| ==> m[i].0 != m[j].0
  }

  /** The position of key `k`, if the map holds it. */
  function IndexOf(m: Sums, k: int): (r: Option<nat>)
    ensures r.Some? ==> r.value < |m| && m[r.value].0 == k
    ensures r.None? ==> forall i :: 0 <= i < |m| ==> m[i].0 != k
    decreases |m|
  {
    if m == [] then None
    else if m[|m| - 1].0 == k then Some(|m| - 1)
    else IndexOf(m[..|m| - 1], k)
  }

  /** Map.prototype.set: a present key keeps its place and takes the new value; a new key goes last. */
  function MapSet(m: Sums, k: int, v: SumRow): (r: Sums)
    requires DistinctKeys(m)
    ensures DistinctKeys(r)
    ensures IndexOf(m, k).Some? ==> r == m[IndexOf(m, k).value := (k, v)]
    ensures IndexOf(m, k).None? ==> r == m + [(k, v)]
  {
    match IndexOf(m, k)
    case Some(j) => m[j := (k, v)]
    case None => m + [(k, v)]
  }

  /** `categories.forEach(category => sums.set(category.id, ...))`: zero rows, one per id. */
  function InitSums(categories: seq<JsCategory>): (r: Sums)
    ensures DistinctKeys(r)
    ensures forall i :: 0 <= i < |r| ==> r[i].1.amount == 0.0
    decreases |categories|
  {
    if categories == [] then []
    else
      var c := categories[|categories| - 1];
      MapSet(InitSums(categories[..|categories| - 1]), c.id, SumRow(c.name, 0.0, c.color))
  }

  /** After `MapSet(m, key, v)` the map holds exactly the keys of `m` and `key`. */
  lemma MapSetKeys(m: Sums, key: int, v: SumRow, k: int)
    requires DistinctKeys(m)
    ensures IndexOf(MapSet(m, key, v), k).Some? <==> IndexOf(m, k).Some? || k == key
  {
    var r := MapSet(m, key, v);
    if IndexOf(r, k).Some? {
      var q := IndexOf(r, k).value;
      if q < |m| && k != key {
        assert m[q].0 == k;
      }
    }
    if IndexOf(m, k).Some? {
      var q := IndexOf(m, k).value;
      assert r[q].0 == k;
    }
    if k == key && IndexOf(m, k).None? {
      assert r[|r| - 1].0 == k;
    }
  }

  /** A key occurs among the categories exactly when it occurs among all but the last, or is the last one's. */
  lemma CategoryIdsStep(categories: seq<JsCategory>, k: int)
    requires categories != []
    ensures var init := categories[..|categories| - 1];
      (exists i :: 0 <= i < |categories| && categories[i].id == k)
        <==> (exists i :: 0 <= i < |init| && init[i].id == k) || categories[|categories| - 1].id == k
  {
    var init := categories[..|categories| - 1];
    if exists i :: 0 <= i < |categories| && categories[i].id == k {
      var i :| 0 <= i < |categories| && categories[i].id == k;
      if i < |init| {
        assert init[i] == categories[i];
      }
    }
    if exists i :: 0 <= i < |init| && init[i].id == k {
      var i :| 0 <= i < |init| && init[i].id == k;
      assert categories[i] == init[i];
    }
  }

  /** Every category id has a row, and every row is a category's. */
  lemma {:induction false} InitSumsKeys(categories: seq<JsCategory>, k: int)
    ensures IndexOf(InitSums(categories), k).Some? <==> exists i :: 0 <= i < |categories| && categories[i].id == k
    decreases |categories|
  {
    if categories != [] {
      var init := categories[..|categories| - 1];
      var c := categories[|categories| - 1];
      InitSumsKeys(init, k);
      MapSetKeys(InitSums(init), c.id, SumRow(c.name, 0.0, c.color), k);
      CategoryIdsStep(categories, k);
    }
  }

  // ---------------------------------------------------------------------------
  // What each entry adds
  // ---------------------------------------------------------------------------

  function AbsReal(x: real): real
  {
    if x < 0.0 then -x else x
  }

  /** What `categories.forEach` adds to category id `c`: `amount` once per listing of `c`. */
  function CatShare(cats: seq<JsCategory>, c: int, amount: real): real
    decreases |cats|
  {
    if cats == [] then 0.0
    else CatShare(cats[..|cats| - 1], c, amount) + (if cats[|cats| - 1].id == c then amount else 0.0)
  }

  function CountId(cats: seq<JsCategory>, c: int): nat
    decreases |cats|
  {
    if cats == [] then 0
    else CountId(cats[..|cats| - 1], c) + (if cats[|cats| - 1].id == c then 1 else 0)
  }

  /** An entry listing a category `k` times adds its amount `k` times to that category. */
  lemma {:induction false} CatShareCount(cats: seq<JsCategory>, c: int, amount: real)
    ensures CatShare(cats, c, amount) == amount * (CountId(cats, c) as real)
    decreases |cats|
  {
    if cats != [] {
      CatShareCount(cats[..|cats| - 1], c, amount);
      var n := CountId(cats[..|cats| - 1], c) as real;
      assert amount * n + amount == amount * (n + 1.0);
    }
  }

  predicate ChildExcluded(child: JsEntry, excluded: set<ExclusionId>)
  {
    EntryKey(child.id) in excluded
  }

  /** What a group's children add to category `c`, each counting `share` of the group. */
  function ChildrenShare(children: seq<JsEntry>, excluded: set<ExclusionId>, c: int, share: real): real
    decreases |children|
  {
    if children == [] then 0.0
    else
      var child := children[|children| - 1];
      ChildrenShare(children[..|children| - 1], excluded, c, share)
        + (if !ChildExcluded(child, excluded) && |child.categories| > 0 then CatShare(child.categories, c, share) else 0.0)
  }

  /** What a group's children without a category add to the uncategorized sum. */
  function ChildrenUncategorized(children: seq<JsEntry>, excluded: set<ExclusionId>, share: real): real
    decreases |children|
  {
    if children == [] then 0.0
    else
      var child := children[|children| - 1];
      ChildrenUncategorized(children[..|children| - 1], excluded, share)
        + (if !ChildExcluded(child, excluded) && |child.categories| == 0 then share else 0.0)
  }

  /** Each child's part of a group's amount: `amount / entry.children.length`. */
  function ChildShare(g: Group): real
  {
    if g.children == [] then 0.0 else g.amount / (|g.children| as real)
  }

  /** What processEntry adds to category `c` for one listed item. */
  function ItemCategorySum(item: Item, excluded: set<ExclusionId>, c: int): real
  {
    if ItemId(item) in excluded then 0.0
    else
      match item
      case GroupItem(g) => ChildrenShare(g.children, excluded, c, ChildShare(g))
      case EntryItem(e) => if |e.categories| > 0 then CatShare(e.categories, c, e.amount) else 0.0
  }

  /** What processEntry adds to `uncategorizedSum` for one listed item. */
  function ItemUncategorized(item: Item, excluded: set<ExclusionId>): real
  {
    if ItemId(item) in excluded then 0.0
    else
      match item
      case GroupItem(g) => ChildrenUncategorized(g.children, excluded, ChildShare(g))
      case EntryItem(e) => if |e.categories| == 0 then e.amount else 0.0
  }

  function CategoryTotal(items: seq<Item>, excluded: set<ExclusionId>, c: int): real
    decreases |items|
  {
    if items == [] then 0.0
    else CategoryTotal(items[..|items| - 1], excluded, c) + ItemCategorySum(items[|items| - 1], excluded, c)
  }

  function UncategorizedTotal(items: seq<Item>, excluded: set<ExclusionId>): real
    decreases |items|
  {
    if items == [] then 0.0
    else UncategorizedTotal(items[..|items| - 1], excluded) + ItemUncategorized(items[|items| - 1], excluded)
  }

  /** An excluded item adds nothing anywhere. */
  lemma ExcludedAddsNothing(item: Item, excluded: set<ExclusionId>, c: int)
    requires ItemId(item) in excluded
    ensures ItemCategorySum(item, excluded, c) == 0.0 && ItemUncategorized(item, excluded) == 0.0
  {
  }

  // ---------------------------------------------------------------------------
  // The rows
  // ---------------------------------------------------------------------------

  function TypeItems(t: (string, seq<Item>)): seq<Item>
  {
    t.1
  }

  /** `Array.isArray(entries) ? entries : Object.values(entries).flat()`. */
  function EntriesArray(entries: Listing<Item>): seq<Item>
  {
    match entries
    case Flat(items) => items
    case ByType(ts) => FlatMap(ts, TypeItems)
  }

  /** The category rows after every entry: each category's row with its total. */
  function FinalRows(items: seq<Item>, categories: seq<JsCategory>, excluded: set<ExclusionId>): (r: seq<SumRow>)
    ensures |r| == |InitSums(categories)|
  {
    var init := InitSums(categories);
    seq(|init|, i requires 0 <= i < |init| => init[i].1.(amount := CategoryTotal(items, excluded, init[i].0)))
  }

  predicate NonZero(r: SumRow)
  {
    r.amount != 0.0
  }

  /** The comparator `Math.abs(b.amount) - Math.abs(a.amount)`: `a` first when its absolute amount is larger. */
  predicate RowBefore(a: SumRow, b: SumRow)
  {
    AbsReal(a.amount) > AbsReal(b.amount)
  }

  function RowRank(r: SumRow): real
  {
    AbsReal(r.amount)
  }

  function UncategorizedRow(amount: real): SumRow
  {
    SumRow(UncategorizedName, amount, UncategorizedColor)
  }

  /** The sorted nonzero category rows. */
  function CategoryRows(items: seq<Item>, categories: seq<JsCategory>, excluded: set<ExclusionId>): seq<SumRow>
  {
    StableSort.Sort(Filter(FinalRows(items, categories, excluded), NonZero), RowBefore)
  }

  /** What calculateCategorySums returns for the listed items. */
  function SummaryRows(items: seq<Item>, categories: seq<JsCategory>, excluded: set<ExclusionId>): seq<SumRow>
  {
    var sorted := CategoryRows(items, categories, excluded);
    var u := UncategorizedTotal(items, excluded);
    if u != 0.0 then sorted + [UncategorizedRow(u)] else sorted
  }

  // ---------------------------------------------------------------------------
  // calculateCategorySums
  // ---------------------------------------------------------------------------

  /** The `categories.forEach` loop inside processEntry: add `amount` to each known category. */
  method AddToCategories(sums: Sums, cats: seq<JsCategory>, amount: real) returns (sums': Sums)
    requires DistinctKeys(sums)
    ensures |sums'| == |sums| && DistinctKeys(sums')
    ensures forall i :: 0 <= i < |sums| ==>
      sums'[i] == (sums[i].0, sums[i].1.(amount := sums[i].1.amount + CatShare(cats, sums[i].0, amount)))
  {
    sums' := sums;
    var j := 0;
    while j < |cats|
      invariant 0 <= j <= |cats|
      invariant |sums'| == |sums| && DistinctKeys(sums')
      invariant forall i :: 0 <= i < |sums| ==>
        sums'[i] == (sums[i].0, sums[i].1.(amount := sums[i].1.amount + CatShare(cats[..j], sums[i].0, amount)))
    {
      assert cats[..j + 1][..j] == cats[..j];
      var category := cats[j];
      var current := IndexOf(sums', category.id);
      if current.Some? {
        var p := current.value;
        sums' := MapSet(sums', category.id, sums'[p].1.(amount := sums'[p].1.amount + amount));
      }
      j := j + 1;
    }
    assert cats[..j] == cats;
  }

  /** The `entry.children.forEach` loop of processEntry for a group. */
  method AddChildren(sums: Sums, uncategorized: real, children: seq<JsEntry>, excluded: set<ExclusionId>, share: real)
    returns (sums': Sums, uncategorized': real)
    requires DistinctKeys(sums)
    ensures |sums'| == |sums| && DistinctKeys(sums')
    ensures forall i :: 0 <= i < |sums| ==>
      sums'[i] == (sums[i].0, sums[i].1.(amount := sums[i].1.amount + ChildrenShare(children, excluded, sums[i].0, share)))
    ensures uncategorized' == uncategorized + ChildrenUncategorized(children, excluded, share)
  {
    sums', uncategorized' := sums, uncategorized;
    var j := 0;
    while j < |children|
      invariant 0 <= j <= |children|
      invariant |sums'| == |sums| && DistinctKeys(sums')
      invariant forall i :: 0 <= i < |sums| ==>
        sums'[i] == (sums[i].0, sums[i].1.(amount := sums[i].1.amount + ChildrenShare(children[..j], excluded, sums[i].0, share)))
      invariant uncategorized' == uncategorized + ChildrenUncategorized(children[..j], excluded, share)
    {
      assert children[..j + 1][..j] == children[..j];
      var child := children[j];
      if !ChildExcluded(child, excluded) {
        if |child.categories| > 0 {
          sums' := AddToCategories(sums', child.categories, share);
        } else {
          uncategorized' := uncategorized' + share;
        }
      }
      j := j + 1;
    }
    assert children[..j] == children;
  }

  /** processEntry. */
  method ProcessEntry(sums: Sums, uncategorized: real, item: Item, excluded: set<ExclusionId>)
    returns (sums': Sums, uncategorized': real)
    requires DistinctKeys(sums)
    ensures |sums'| == |sums| && DistinctKeys(sums')
    ensures forall i :: 0 <= i < |sums| ==>
      sums'[i] == (sums[i].0, sums[i].1.(amount := sums[i].1.amount + ItemCategorySum(item, excluded, sums[i].0)))
    ensures uncategorized' == uncategorized + ItemUncategorized(item, excluded)
  {
    sums', uncategorized' := sums, uncategorized;
    if ItemId(item) in excluded {
      return;
    }
    var amount := ItemAmount(item);
    match item
    case GroupItem(g) =>
      sums', uncategorized' := AddChildren(sums, uncategorized, g.children, excluded, ChildShare(g));
    case EntryItem(e) =>
      if |e.categories| > 0 {
        sums' := AddToCategories(sums, e.categories, amount);
      } else {
        uncategorized' := uncategorized + amount;
      }
  }

  /** The `categories.forEach` loop: a zero row per category id, the last name and color winning. */
  method InitializeSums(categories: seq<JsCategory>) returns (sums: Sums)
    ensures sums == InitSums(categories)
  {
    sums := [];
    var i := 0;
    while i < |categories|
      invariant 0 <= i <= |categories|
      invariant sums == InitSums(categories[..i])
    {
      assert categories[..i + 1][..i] == categories[..i];
      var category := categories[i];
      sums := MapSet(sums, category.id, SumRow(category.name, 0.0, category.color));
      i := i + 1;
    }
    assert categories[..i] == categories;
  }

  /** `entriesArray.forEach(processEntry)`. */
  method ProcessAll(init: Sums, items: seq<Item>, excluded: set<ExclusionId>) returns (sums: Sums, uncategorized: real)
    requires DistinctKeys(init)
    ensures |sums| == |init|
    ensures forall p :: 0 <= p < |init| ==>
      sums[p] == (init[p].0, init[p].1.(amount := init[p].1.amount + CategoryTotal(items, excluded, init[p].0)))
    ensures uncategorized == UncategorizedTotal(items, excluded)
  {
    sums, uncategorized := init, 0.0;
    var k := 0;
    while k < |items|
      invariant 0 <= k <= |items|
      invariant |sums| == |init| && DistinctKeys(sums)
      invariant forall p :: 0 <= p < |init| ==>
        sums[p] == (init[p].0, init[p].1.(amount := init[p].1.amount + CategoryTotal(items[..k], excluded, init[p].0)))
      invariant uncategorized == UncategorizedTotal(items[..k], excluded)
    {
      assert items[..k + 1][..k] == items[..k];
      sums, uncategorized := ProcessEntry(sums, uncategorized, items[k], excluded);
      k := k + 1;
    }
    assert items[..k] == items;
  }

  function Values(sums: Sums): (r: seq<SumRow>)
    ensures |r| == |sums| && forall p :: 0 <= p < |sums| ==> r[p] == sums[p].1
  {
    seq(|sums|, p requires 0 <= p < |sums| => sums[p].1)
  }

  lemma ValuesAreFinalRows(sums: Sums, items: seq<Item>, categories: seq<JsCategory>, excluded: set<ExclusionId>)
    requires |sums| == |InitSums(categories)|
    requires forall p :: 0 <= p < |sums| ==>
      sums[p] == (InitSums(categories)[p].0, InitSums(categories)[p].1.(amount := InitSums(categories)[p].1.amount
        + CategoryTotal(items, excluded, InitSums(categories)[p].0)))
    ensures Values(sums) == FinalRows(items, categories, excluded)
  {
  }

  /** calculateCategorySums. */
  method CalculateCategorySums(entries: Listing<Item>, categories: seq<JsCategory>, excluded: set<ExclusionId>)
    returns (rows: seq<SumRow>)
    ensures rows == SummaryRows(EntriesArray(entries), categories, excluded)
  {
    var items := EntriesArray(entries);
    var sums := InitializeSums(categories);
    var uncategorizedSum;
    sums, uncategorizedSum := ProcessAll(sums, items, excluded);
    ValuesAreFinalRows(sums, items, categories, excluded);
    var sumsArray := StableSort.Sort(Filter(Values(sums), NonZero), RowBefore);
    if uncategorizedSum != 0.0 {
      sumsArray := sumsArray + [UncategorizedRow(uncategorizedSum)];
    }
    rows := sumsArray;
  }

  // ---------------------------------------------------------------------------
  // What the summary promises
  // ---------------------------------------------------------------------------

  /** `categorySums.reduce((sum, cat) => sum + cat.amount, 0)`. */
  function RowsTotal(rows: seq<SumRow>): real
    decreases |rows|
  {
    if rows == [] then 0.0 else RowsTotal(rows[..|rows| - 1]) + rows[|rows| - 1].amount
  }

  lemma {:induction false} RowsTotalConcat(a: seq<SumRow>, b: seq<SumRow>)
    ensures RowsTotal(a + b) == RowsTotal(a) + RowsTotal(b)
    decreases |b|
  {
    if b != [] {
      var b' := b[..|b| - 1];
      assert (a + b)[..|a + b| - 1] == a + b';
      RowsTotalConcat(a, b');
    } else {
      assert a + b == a;
    }
  }

  /** Taking one row out lowers the total by its amount. */
  lemma {:induction false} RowsTotalRemove(b: seq<SumRow>, k: nat)
    requires k < |b|
    ensures RowsTotal(b) == RowsTotal(b[..k] + b[k + 1..]) + b[k].amount
  {
    var x, y := b[..k], b[k + 1..];
    assert b == (x + [b[k]]) + y;
    RowsTotalConcat(x + [b[k]], y);
    assert (x + [b[k]])[..|x|] == x;
    assert RowsTotal(x + [b[k]]) == RowsTotal(x) + b[k].amount;
    RowsTotalConcat(x, y);
  }

  lemma MultisetRemove(a': seq<SumRow>, x: SumRow, b: seq<SumRow>, k: nat)
    requires k < |b| && b[k] == x && multiset(a' + [x]) == multiset(b)
    ensures multiset(a') == multiset(b[..k] + b[k + 1..])
  {
    assert b == b[..k] + [x] + b[k + 1..];
    assert multiset(b) == multiset(b[..k] + b[k + 1..]) + multiset{x};
    assert multiset(a' + [x]) == multiset(a') + multiset{x};
    forall y ensures multiset(a')[y] == multiset(b[..k] + b[k + 1..])[y] {
      assert multiset(a' + [x])[y] == multiset(b)[y];
    }
  }

  /** The total does not depend on the order of the rows. */
  lemma {:induction false} RowsTotalPermutation(a: seq<SumRow>, b: seq<SumRow>)
    requires multiset(a) == multiset(b)
    ensures RowsTotal(a) == RowsTotal(b)
    decreases |a|
  {
    if a == [] {
      assert |b| == |multiset(b)| == 0;
    } else {
      var x := a[|a| - 1];
      var a' := a[..|a| - 1];
      assert a == a' + [x];
      assert x in multiset(b);
      var k :| 0 <= k < |b| && b[k] == x;
      MultisetRemove(a', x, b, k);
      RowsTotalPermutation(a', b[..k] + b[k + 1..]);
      RowsTotalRemove(b, k);
    }
  }

  lemma RowsTotalFilteredLast(f': seq<SumRow>, x: SumRow)
    ensures RowsTotal(f' + (if NonZero(x) then [x] else [])) == RowsTotal(f') + x.amount
  {
    if NonZero(x) {
      assert (f' + [x])[..|f'|] == f';
    } else {
      assert f' + [] == f';
    }
  }

  /** Filtering a sequence with one more row keeps the total if filtering the shorter one did. */
  lemma RowsTotalNonZeroStep(s: seq<SumRow>)
    requires s != []
    requires RowsTotal(Filter(s[..|s| - 1], NonZero)) == RowsTotal(s[..|s| - 1])
    ensures RowsTotal(Filter(s, NonZero)) == RowsTotal(s)
  {
    var s' := s[..|s| - 1];
    var x := s[|s| - 1];
    assert Filter(s, NonZero) == Filter(s', NonZero) + (if NonZero(x) then [x] else []);
    RowsTotalFilteredLast(Filter(s', NonZero), x);
  }

  /** Dropping the zero rows keeps the total. */
  lemma {:induction false} RowsTotalNonZero(s: seq<SumRow>)
    ensures RowsTotal(Filter(s, NonZero)) == RowsTotal(s)
    decreases |s|
  {
    if s != [] {
      RowsTotalNonZero(s[..|s| - 1]);
      RowsTotalNonZeroStep(s);
    }
  }

  /** The category rows are the categories whose sum is nonzero, each once. */
  lemma CategoryRowsAreNonZeroRows(items: seq<Item>, categories: seq<JsCategory>, excluded: set<ExclusionId>)
    ensures multiset(CategoryRows(items, categories, excluded)) == multiset(Filter(FinalRows(items, categories, excluded), NonZero))
    ensures forall r :: r in CategoryRows(items, categories, excluded) <==> r in FinalRows(items, categories, excluded) && r.amount != 0.0
  {
    var f := FinalRows(items, categories, excluded);
    var c := CategoryRows(items, categories, excluded);
    forall r ensures r in c <==> r in f && r.amount != 0.0 {
      assert r in c <==> r in multiset(c);
      assert r in f <==> r in multiset(f);
    }
  }

  /** The category rows come by decreasing absolute amount. */
  lemma CategoryRowsDescending(items: seq<Item>, categories: seq<JsCategory>, excluded: set<ExclusionId>)
    ensures var c := CategoryRows(items, categories, excluded);
      forall i, j :: 0 <= i < j < |c| ==> AbsReal(c[i].amount) >= AbsReal(c[j].amount)
  {
    var nonzero := Filter(FinalRows(items, categories, excluded), NonZero);
    assert StableSort.AgreesWithRank(nonzero, RowBefore, RowRank);
    StableSort.SortDescending(nonzero, RowBefore, RowRank);
    var c := CategoryRows(items, categories, excluded);
    forall i, j | 0 <= i < j < |c| ensures AbsReal(c[i].amount) >= AbsReal(c[j].amount) {
      assert RowRank(c[i]) >= RowRank(c[j]);
    }
  }

  lemma CategoryRowsNonZero(items: seq<Item>, categories: seq<JsCategory>, excluded: set<ExclusionId>)
    ensures var c := CategoryRows(items, categories, excluded);
      forall i :: 0 <= i < |c| ==> c[i].amount != 0.0
  {
    var c := CategoryRows(items, categories, excluded);
    CategoryRowsAreNonZeroRows(items, categories, excluded);
    forall i | 0 <= i < |c| ensures c[i].amount != 0.0 {
      assert c[i] in c;
    }
  }

  /** The summary is the sorted category rows, then the "Uncategorized" row exactly when that sum is nonzero; no row is zero. */
  lemma SummaryLayout(items: seq<Item>, categories: seq<JsCategory>, excluded: set<ExclusionId>)
    ensures var rows := SummaryRows(items, categories, excluded);
      var c := CategoryRows(items, categories, excluded);
      var u := UncategorizedTotal(items, excluded);
      && |rows| == |c| + (if u != 0.0 then 1 else 0)
      && rows[..|c|] == c
      && (u != 0.0 ==> rows[|c|] == UncategorizedRow(u))
      && (forall i :: 0 <= i < |rows| ==> rows[i].amount != 0.0)
  {
    var c := CategoryRows(items, categories, excluded);
    var u := UncategorizedTotal(items, excluded);
    CategoryRowsNonZero(items, categories, excluded);
    RowsThenUncategorized(c, u);
  }

  /** The category rows followed, when `u` is nonzero, by the "Uncategorized" row. */
  lemma RowsThenUncategorized(c: seq<SumRow>, u: real)
    requires forall i :: 0 <= i < |c| ==> c[i].amount != 0.0
    ensures var rows := if u != 0.0 then c + [UncategorizedRow(u)] else c;
      && |rows| == |c| + (if u != 0.0 then 1 else 0)
      && rows[..|c|] == c
      && (u != 0.0 ==> rows[|c|] == UncategorizedRow(u))
      && (forall i :: 0 <= i < |rows| ==> rows[i].amount != 0.0)
  {
    if u != 0.0 {
      assert (c + [UncategorizedRow(u)])[..|c|] == c;
    }
  }

  /** The panel's total is the sum over the categories plus the uncategorized sum. */
  lemma SummaryTotal(items: seq<Item>, categories: seq<JsCategory>, excluded: set<ExclusionId>)
    ensures RowsTotal(SummaryRows(items, categories, excluded))
      == RowsTotal(FinalRows(items, categories, excluded)) + UncategorizedTotal(items, excluded)
  {
    var f := FinalRows(items, categories, excluded);
    var c := CategoryRows(items, categories, excluded);
    var u := UncategorizedTotal(items, excluded);
    RowsTotalPermutation(c, Filter(f, NonZero));
    RowsTotalNonZero(f);
    if u != 0.0 {
      RowsTotalConcat(c, [UncategorizedRow(u)]);
      assert [UncategorizedRow(u)][..0] == [];
    }
  }

  /** Each listed category has its row in the sums, holding that category's total. */
  lemma CategoryHasRow(items: seq<Item>, categories: seq<JsCategory>, excluded: set<ExclusionId>, i: nat)
    requires i < |categories|
    ensures var j := IndexOf(InitSums(categories), categories[i].id);
      j.Some? && FinalRows(items, categories, excluded)[j.value].amount == CategoryTotal(items, excluded, categories[i].id)
  {
    InitSumsKeys(categories, categories[i].id);
  }

  lemma {:induction false} CategoryTotalEmpty(excluded: set<ExclusionId>, c: int)
    ensures CategoryTotal([], excluded, c) == 0.0 && UncategorizedTotal([], excluded) == 0.0
  {
  }

  /** With nothing listed the summary is empty. */
  lemma EmptySummary(categories: seq<JsCategory>, excluded: set<ExclusionId>)
    ensures SummaryRows([], categories, excluded) == []
  {
    var f := FinalRows([], categories, excluded);
    assert forall r :: r in f ==> r.amount == 0.0;
    var nonzero := Filter(f, NonZero);
    forall k | 0 <= k < |nonzero| ensures nonzero[k] in f && nonzero[k].amount != 0.0 {
      assert nonzero[k] in multiset(nonzero);
    }
  }

  lemma {:induction false} ChildrenUncategorizedAll(children: seq<JsEntry>, excluded: set<ExclusionId>, share: real)
    requires forall k :: 0 <= k < |children| ==> !ChildExcluded(children[k], excluded) && children[k].categories == []
    ensures ChildrenUncategorized(children, excluded, share) == share * (|children| as real)
    decreases |children|
  {
    if children != [] {
      ChildrenUncategorizedAll(children[..|children| - 1], excluded, share);
      var n := (|children| - 1) as real;
      assert share * n + share == share * (n + 1.0);
    }
  }

  /** The children's shares make up the group: an uncategorized group with nothing excluded adds its whole amount. */
  lemma GroupSharesAddUp(g: Group, excluded: set<ExclusionId>)
    requires GroupKey(g.groupId) !in excluded && g.children != []
    requires forall k :: 0 <= k < |g.children| ==> !ChildExcluded(g.children[k], excluded) && g.children[k].categories == []
    ensures ItemUncategorized(GroupItem(g), excluded) == g.amount
  {
    ChildrenUncategorizedAll(g.children, excluded, ChildShare(g));
    var n := |g.children| as real;
    assert g.amount / n * n == g.amount;
  }

  lemma {:induction false} CatShareAbsent(cats: seq<JsCategory>, c: int, amount: real)
    requires forall k :: 0 <= k < |cats| ==> cats[k].id != c
    ensures CatShare(cats, c, amount) == 0.0
    decreases |cats|
  {
    if cats != [] {
      CatShareAbsent(cats[..|cats| - 1], c, amount);
    }
  }

  /** An entry all of whose categories are unknown adds nothing to any listed category, nor to the uncategorized sum. */
  lemma UnknownCategoriesIgnored(e: JsEntry, categories: seq<JsCategory>, excluded: set<ExclusionId>, c: int)
    requires |e.categories| > 0
    requires forall k, i :: 0 <= k < |e.categories| && 0 <= i < |categories| ==> e.categories[k].id != categories[i].id
    requires IndexOf(InitSums(categories), c).Some?
    ensures ItemCategorySum(EntryItem(e), excluded, c) == 0.0
    ensures ItemUncategorized(EntryItem(e), excluded) == 0.0
  {
    InitSumsKeys(categories, c);
    var i :| 0 <= i < |categories| && categories[i].id == c;
    CatShareAbsent(e.categories, c, e.amount);
  }

  /** The row `r` is the zero row of some listed category. */
  predicate FromCategory(r: (int, SumRow), categories: seq<JsCategory>)
  {
    exists k :: 0 <= k < |categories| && r == (categories[k].id, SumRow(categories[k].name, 0.0, categories[k].color))
  }

  /** Each row of the sums carries the name and color of a listed category with its id. */
  lemma {:induction false} InitSumsRows(categories: seq<JsCategory>)
    ensures forall p :: 0 <= p < |InitSums(categories)| ==> FromCategory(InitSums(categories)[p], categories)
    decreases |categories|
  {
    if categories != [] {
      var init := categories[..|categories| - 1];
      var c := categories[|categories| - 1];
      InitSumsRows(init);
      var m := InitSums(init);
      var r := InitSums(categories);
      forall p | 0 <= p < |r| ensures FromCategory(r[p], categories) {
        if p < |m| && r[p] == m[p] {
          var k :| 0 <= k < |init| && m[p] == (init[k].id, SumRow(init[k].name, 0.0, init[k].color));
          assert categories[k] == init[k];
        } else {
          assert r[p] == (c.id, SumRow(c.name, 0.0, c.color));
          assert categories[|categories| - 1] == c;
        }
      }
    }
  }
}
