/**
 * The CsvEntry model: one imported bank-statement row, the rules that decide
 * whether it counts towards totals, and the two-level grouping of a file's rows
 * (first by transaction type, then into groups of near-duplicate rows).
 *
 * Amounts are whole cents: the column is decimal(10,2) and is cast with
 * 'decimal:2', so every amount the model sees is an exact multiple of 0.01.
 */
module CsvEntry {
  import opened Wrappers
  import StringHelper
  import StableSort
  import Sequences

  datatype Category = Category(id: int, name: string, color: string, excludeFromCalculations: bool)

  /** A csv_entries row together with the categories attached to it. */
  datatype Entry = Entry(
    id: int,
    amount: int,
    description: string,
    recipient: Option<string>,
    entryType: Option<string>,
    categories: seq<Category>)

  /** A main entry, the later entries found similar to it, and the sum of all their amounts. */
  datatype SimilarityGroup = SimilarityGroup(mainEntry: Entry, similarEntries: seq<Entry>, totalAmount: int)

  /** The entries of one transaction type, in file order, and their total. */
  datatype TypeBucket = TypeBucket(typeName: string, entries: seq<Entry>, totalAmount: int)

  datatype TypeGroup = TypeGroup(typeName: string, groups: seq<SimilarityGroup>, totalAmount: int)

  // ---------------------------------------------------------------------------
  // Per-entry rules
  // ---------------------------------------------------------------------------

  /** `$entry->type ?? 'uncategorized'`. */
  function TypeKey(e: Entry): (t: string)
    ensures e.entryType.Some? ==> t == e.entryType.value
    ensures e.entryType.None? ==> t == "uncategorized"
  {
    match e.entryType
    case Some(t) => t
    case None => "uncategorized"
  }

  function HasExcludingCategory(cs: seq<Category>): (r: bool)
    ensures r <==> exists i :: 0 <= i < |cs| && cs[i].excludeFromCalculations
  {
    if cs == [] then false
    else
      assert forall i :: 0 < i < |cs| ==> cs[i] == cs[1..][i - 1];
      cs[0].excludeFromCalculations || HasExcludingCategory(cs[1..])
  }

  /** shouldExclude: some attached category is flagged exclude_from_calculations. */
  predicate ShouldExclude(e: Entry)
  {
    HasExcludingCategory(e.categories)
  }

  function GetCalculableAmount(e: Entry): (amount: int)
    ensures (exists i :: 0 <= i < |e.categories| && e.categories[i].excludeFromCalculations) ==> amount == 0
    ensures (forall i :: 0 <= i < |e.categories| ==> !e.categories[i].excludeFromCalculations) ==> amount == e.amount
  {
    if ShouldExclude(e) then 0 else e.amount
  }

  predicate IsUncategorized(e: Entry)
  {
    e.categories == []
  }

  /** The display class: excluded rows are struck through, otherwise uncategorised rows are highlighted. */
  function GetStatusClass(e: Entry): (cls: string)
    ensures cls == "line-through text-gray-400" <==> ShouldExclude(e)
    ensures cls == "text-yellow-600" <==> !ShouldExclude(e) && e.categories == []
    ensures cls == "" <==> !ShouldExclude(e) && e.categories != []
  {
    if ShouldExclude(e) then "line-through text-gray-400"
    else if IsUncategorized(e) then "text-yellow-600"
    else ""
  }

  /**
   * areEntriesSimilar: the same recipient (a missing recipient only matches a missing
   * one) and a description score above 80. The score of two digit-free strings
   * a and b is 200 * sim / (|a| + |b|), so the test is exact integer arithmetic.
   */
  function AreEntriesSimilar(e1: Entry, e2: Entry): (similar: bool)
    ensures similar <==>
      var a := StringHelper.StripDigits(e1.description);
      var b := StringHelper.StripDigits(e2.description);
      e1.recipient == e2.recipient && 200 * StringHelper.SimilarChar(a, b) > 80 * (|a| + |b|)
  {
    StringHelper.PercentAbove(StringHelper.StripDigits(e1.description), StringHelper.StripDigits(e2.description), 80);
    if e1.recipient != e2.recipient then false
    else StringHelper.GetSimilarity(e1.description, e2.description) > 80.0
  }

  /** No entry is similar to one whose description, once digits are dropped, is empty. */
  lemma EmptyDescriptionNeverSimilar(e1: Entry, e2: Entry)
    requires StringHelper.StripDigits(e1.description) == []
    ensures !AreEntriesSimilar(e1, e2)
  {
    var a := StringHelper.StripDigits(e1.description);
    var b := StringHelper.StripDigits(e2.description);
    assert StringHelper.SimilarChar(a, b) <= |a|;
  }

  /** Two entries with the same recipient and the same non-empty digit-free description are similar. */
  lemma SameDescriptionSimilar(e1: Entry, e2: Entry)
    requires e1.recipient == e2.recipient
    requires StringHelper.StripDigits(e1.description) == StringHelper.StripDigits(e2.description) != []
    ensures AreEntriesSimilar(e1, e2)
  {
    StringHelper.SimilarCharSelf(StringHelper.StripDigits(e1.description));
  }

  lemma SimilarityNeedsSameRecipient(e1: Entry, e2: Entry)
    ensures AreEntriesSimilar(e1, e2) ==> e1.recipient == e2.recipient
  {
  }

  // ---------------------------------------------------------------------------
  // Sequences of entries
  // ---------------------------------------------------------------------------

  function Ids(es: seq<Entry>): set<int>
    decreases |es|
  {
    if es == [] then {} else Ids(es[..|es| - 1]) + {es[|es| - 1].id}
  }

  lemma {:induction false} IdsHas(es: seq<Entry>, k: nat)
    requires k < |es|
    ensures es[k].id in Ids(es)
    decreases |es|
  {
    if k < |es| - 1 {
      IdsHas(es[..|es| - 1], k);
    }
  }

  lemma {:induction false} IdsWitness(es: seq<Entry>, x: int)
    requires x in Ids(es)
    ensures exists k :: 0 <= k < |es| && es[k].id == x
    decreases |es|
  {
    var n := |es| - 1;
    if x != es[n].id {
      IdsWitness(es[..n], x);
      var k :| 0 <= k < n && es[..n][k].id == x;
      assert es[k].id == x;
    }
  }

  /** Entry ids are the table's primary key. */
  ghost predicate DistinctIds(es: seq<Entry>)
  {
    forall i, j :: 0 <= i < j < |es| ==> es[i].id != es[j].id
  }

  function SumAmounts(es: seq<Entry>): int
    decreases |es|
  {
    if es == [] then 0 else SumAmounts(es[..|es| - 1]) + es[|es| - 1].amount
  }

  /** The entries of `es` whose id is in `ids`, in the order of `es`. */
  function SelectByIds(es: seq<Entry>, ids: set<int>): (r: seq<Entry>)
    decreases |es|
  {
    if es == [] then []
    else SelectByIds(es[..|es| - 1], ids) + (if es[|es| - 1].id in ids then [es[|es| - 1]] else [])
  }

  /** The entries of `es` whose type key is `t`, in the order of `es`. */
  function FilterByType(es: seq<Entry>, t: string): (r: seq<Entry>)
    ensures forall e :: e in r ==> e in es && TypeKey(e) == t
    decreases |es|
  {
    if es == [] then []
    else FilterByType(es[..|es| - 1], t) + (if TypeKey(es[|es| - 1]) == t then [es[|es| - 1]] else [])
  }

  function TypeKeys(es: seq<Entry>): set<string>
  {
    set e | e in es :: TypeKey(e)
  }

  lemma SumAmountsAppend(es: seq<Entry>, e: Entry)
    ensures SumAmounts(es + [e]) == SumAmounts(es) + e.amount
  {
    assert (es + [e])[..|es|] == es;
  }

  lemma {:induction false} SumAmountsConcat(a: seq<Entry>, b: seq<Entry>)
    ensures SumAmounts(a + b) == SumAmounts(a) + SumAmounts(b)
    decreases |b|
  {
    if b == [] {
      assert a + b == a;
    } else {
      var b' := b[..|b| - 1];
      assert a + b == (a + b') + [b[|b| - 1]];
      SumAmountsConcat(a, b');
      SumAmountsAppend(a + b', b[|b| - 1]);
    }
  }

  lemma IdNotInPrefix(es: seq<Entry>, j: nat)
    requires DistinctIds(es) && j < |es|
    ensures es[j].id !in Ids(es[..j])
  {
    if es[j].id in Ids(es[..j]) {
      IdsWitness(es[..j], es[j].id);
    }
  }

  lemma SelectStep(es: seq<Entry>, j: nat, ids: set<int>)
    requires j < |es|
    ensures SelectByIds(es[..j + 1], ids)
         == SelectByIds(es[..j], ids) + (if es[j].id in ids then [es[j]] else [])
  {
    assert es[..j + 1][..j] == es[..j];
  }

  lemma {:induction false} SelectIgnoresOthers(es: seq<Entry>, ids: set<int>, extra: set<int>)
    requires extra !! Ids(es)
    ensures SelectByIds(es, ids + extra) == SelectByIds(es, ids)
    decreases |es|
  {
    if es != [] {
      SelectIgnoresOthers(es[..|es| - 1], ids, extra);
    }
  }

  lemma {:induction false} SelectAll(es: seq<Entry>, ids: set<int>)
    requires Ids(es) <= ids
    ensures SelectByIds(es, ids) == es
    decreases |es|
  {
    if es != [] {
      SelectAll(es[..|es| - 1], ids);
    }
  }

  lemma {:induction false} SelectDisjointUnion(es: seq<Entry>, s: set<int>, t: set<int>)
    requires s !! t
    ensures multiset(SelectByIds(es, s + t)) == multiset(SelectByIds(es, s)) + multiset(SelectByIds(es, t))
    decreases |es|
  {
    if es != [] {
      SelectDisjointUnion(es[..|es| - 1], s, t);
    }
  }

  lemma {:induction false} SelectOne(es: seq<Entry>, k: nat)
    requires DistinctIds(es) && k < |es|
    ensures SelectByIds(es, {es[k].id}) == [es[k]]
    decreases |es|
  {
    var n := |es| - 1;
    assert DistinctIds(es[..n]);
    if k == n {
      IdNotInPrefix(es, n);
      var none: set<int> := {};
      SelectIgnoresOthers(es[..n], none, {es[k].id});
      assert none + {es[k].id} == {es[k].id};
      SelectNone(es[..n]);
    } else {
      assert es[..n][k] == es[k];
      SelectOne(es[..n], k);
    }
  }

  lemma {:induction false} SelectNone(es: seq<Entry>)
    ensures SelectByIds(es, {}) == []
    decreases |es|
  {
    if es != [] {
      SelectNone(es[..|es| - 1]);
    }
  }

  /** Selecting by ids none of which occurs in the first `j` entries looks only at the rest. */
  lemma {:induction false} SelectDropPrefix(es: seq<Entry>, j: nat, ids: set<int>)
    requires j <= |es| && ids !! Ids(es[..j])
    ensures SelectByIds(es, ids) == SelectByIds(es[j..], ids)
    decreases |es|
  {
    if |es| == j {
      assert es[..j] == es && es[j..] == [];
      var none: set<int> := {};
      SelectIgnoresOthers(es, none, ids);
      assert none + ids == ids;
      SelectNone(es);
    } else {
      var n := |es| - 1;
      SliceOfInit(es, j);
      SelectDropPrefix(es[..n], j, ids);
      var t := es[j..];
      assert t != [] && t[..|t| - 1] == es[..n][j..] && t[|t| - 1] == es[n];
    }
  }

  /** Slicing all but the last element, then one end, is slicing `s` at that end. */
  lemma SliceOfInit<T>(s: seq<T>, j: nat)
    requires j < |s|
    ensures s[..|s| - 1][..j] == s[..j]
    ensures s[j..][..|s| - j - 1] == s[..|s| - 1][j..]
    ensures s[j..][|s| - j - 1] == s[|s| - 1]
  {
  }

  lemma {:induction false} SelectHas(es: seq<Entry>, ids: set<int>, k: nat)
    requires k < |es| && es[k].id in ids
    ensures es[k] in SelectByIds(es, ids)
    decreases |es|
  {
    var n := |es| - 1;
    if k < n {
      assert es[..n][k] == es[k];
      SelectHas(es[..n], ids, k);
    }
  }

  lemma {:induction false} FilterKeepsDistinct(es: seq<Entry>, t: string)
    requires DistinctIds(es)
    ensures DistinctIds(FilterByType(es, t))
    decreases |es|
  {
    if es != [] {
      var n := |es| - 1;
      assert DistinctIds(es[..n]);
      FilterKeepsDistinct(es[..n], t);
      if TypeKey(es[n]) == t {
        var r := FilterByType(es[..n], t);
        IdNotInPrefix(es, n);
        forall e | e in r ensures e.id != es[n].id {
          assert e in es[..n];
        }
      }
    }
  }

  lemma FilterStep(es: seq<Entry>, j: nat, t: string)
    requires j < |es|
    ensures FilterByType(es[..j + 1], t)
         == FilterByType(es[..j], t) + (if TypeKey(es[j]) == t then [es[j]] else [])
  {
    assert es[..j + 1][..j] == es[..j];
  }

  lemma {:induction false} FilterAbsent(es: seq<Entry>, t: string)
    requires t !in TypeKeys(es)
    ensures FilterByType(es, t) == []
    decreases |es|
  {
    if es != [] {
      assert TypeKeys(es[..|es| - 1]) <= TypeKeys(es);
      FilterAbsent(es[..|es| - 1], t);
    }
  }

  // ---------------------------------------------------------------------------
  // Similarity groups
  // ---------------------------------------------------------------------------

  function Members(g: SimilarityGroup): seq<Entry>
  {
    [g.mainEntry] + g.similarEntries
  }

  function MainOnly(g: SimilarityGroup): seq<Entry>
  {
    [g.mainEntry]
  }

  function GroupedEntries(gs: seq<SimilarityGroup>): seq<Entry>
  {
    Sequences.FlatMap(gs, Members)
  }

  function MainEntries(gs: seq<SimilarityGroup>): seq<Entry>
  {
    Sequences.FlatMap(gs, MainOnly)
  }

  /** Every similar entry is similar to the main one, and the total is the sum of all members. */
  ghost predicate ConsistentGroup(g: SimilarityGroup)
  {
    && (forall s :: s in g.similarEntries ==> AreEntriesSimilar(g.mainEntry, s))
    && g.totalAmount == SumAmounts(Members(g))
  }

  predicate IsSingleton(g: SimilarityGroup)
  {
    g.similarEntries == []
  }

  function Singletons(gs: seq<SimilarityGroup>): (r: seq<SimilarityGroup>)
    ensures forall g :: g in r ==> g in gs && IsSingleton(g)
    decreases |gs|
  {
    if gs == [] then []
    else Singletons(gs[..|gs| - 1]) + (if IsSingleton(gs[|gs| - 1]) then [gs[|gs| - 1]] else [])
  }

  /**
   * The usort callback `abs($b) - abs($a)` on amounts in cents. The difference is a
   * float of whole currency units, and PHP turns the callback's float result into an
   * int by truncating toward zero, so differences under one unit compare as equal.
   */
  function CompareAbsTotals(a: int, b: int): int
  {
    var diff := Abs(b) - Abs(a);
    if diff >= 0 then diff / 100 else -((-diff) / 100)
  }

  function Abs(x: int): nat
  {
    if x < 0 then -x else x
  }

  /** The sort puts `a` before `b` exactly when the callback reports a < b. */
  predicate GroupBefore(a: SimilarityGroup, b: SimilarityGroup)
  {
    CompareAbsTotals(a.totalAmount, b.totalAmount) < 0
  }

  lemma CompareAbsTotalsMeaning(a: int, b: int)
    ensures CompareAbsTotals(a, b) < 0 <==> Abs(a) >= Abs(b) + 100
    ensures CompareAbsTotals(a, b) == 0 <==> Abs(a) - Abs(b) < 100 && Abs(b) - Abs(a) < 100
  {
  }

  function GroupAbsTotal(g: SimilarityGroup): real
  {
    Abs(g.totalAmount) as real
  }

  /**
   * Totals of the multi-entry groups among `gs` are equal or at least one currency
   * unit apart; singletons are left out, as the sort never compares them.
   */
  ghost predicate GroupTotalsSeparated(gs: seq<SimilarityGroup>)
  {
    forall i, j :: 0 <= i < |gs| && 0 <= j < |gs| && !IsSingleton(gs[i]) && !IsSingleton(gs[j]) ==>
      Abs(gs[i].totalAmount) == Abs(gs[j].totalAmount)
      || Abs(gs[i].totalAmount) >= Abs(gs[j].totalAmount) + 100
      || Abs(gs[j].totalAmount) >= Abs(gs[i].totalAmount) + 100
  }

  /** `e` is a similar entry of a group whose main entry is one of the first `a` entries. */
  ghost predicate TakenBefore(entries: seq<Entry>, groups: seq<SimilarityGroup>, a: nat, e: Entry)
  {
    exists h, b :: h in groups && 0 <= b < a && b < |entries| && entries[b] == h.mainEntry && e in h.similarEntries
  }

  /** The similar entries of each group come after its main entry, in input order. */
  ghost predicate MembersFollowMain(entries: seq<Entry>, groups: seq<SimilarityGroup>)
  {
    forall g, a :: g in groups && 0 <= a < |entries| && entries[a] == g.mainEntry ==>
      g.similarEntries == SelectByIds(entries[a + 1..], Ids(g.similarEntries))
  }

  /**
   * The greedy rule: every entry after a main entry that is similar to it is in that
   * main entry's group, unless the group of an earlier main entry took it.
   */
  ghost predicate AbsorbsSimilar(entries: seq<Entry>, groups: seq<SimilarityGroup>)
  {
    forall g, a, k ::
      (g in groups && 0 <= a < k < |entries| && entries[a] == g.mainEntry
       && AreEntriesSimilar(entries[a], entries[k])) ==>
      entries[k] in g.similarEntries || TakenBefore(entries, groups, a, entries[k])
  }

  /**
   * For rows a, b, c in this order with c similar to a, putting c under the later
   * main entry b and leaving a alone breaks the greedy rule.
   */
  lemma LaterMainCannotTake(a: Entry, b: Entry, c: Entry)
    requires AreEntriesSimilar(a, c)
    ensures !AbsorbsSimilar([a, b, c], [SimilarityGroup(b, [c], b.amount + c.amount), SimilarityGroup(a, [], a.amount)])
  {
    var es := [a, b, c];
    var gs := [SimilarityGroup(b, [c], b.amount + c.amount), SimilarityGroup(a, [], a.amount)];
    assert gs[1] in gs && es[0] == gs[1].mainEntry && es[2] !in gs[1].similarEntries;
    assert !TakenBefore(es, gs, 0, es[2]);
  }

  /**
   * What groupEntriesBySimilarity returns for `entries`:
   *  - every entry is in exactly one group;
   *  - each group is consistent;
   *  - groups with similar entries come first, then singletons;
   *  - singletons keep the order of `entries`;
   *  - among the multi-entry groups no group is directly followed by one whose
   *    absolute total is at least one unit larger, and when totals are equal or a
   *    unit apart, they are ordered by absolute total;
   *  - main entries, taken in input order, are pairwise not similar;
   *  - each group's similar entries follow its main entry in input order, and every
   *    later entry similar to a main entry is in its group or in an earlier main's.
   */
  ghost predicate IsSimilarityGrouping(entries: seq<Entry>, groups: seq<SimilarityGroup>)
  {
    && multiset(GroupedEntries(groups)) == multiset(entries)
    && (forall g :: g in groups ==> ConsistentGroup(g))
    && (forall i, j :: 0 <= i < j < |groups| && IsSingleton(groups[i]) ==> IsSingleton(groups[j]))
    && MainEntries(Singletons(groups)) == SelectByIds(entries, Ids(MainEntries(Singletons(groups))))
    && (forall i :: 0 <= i < |groups| - 1 && !IsSingleton(groups[i + 1]) ==>
          !GroupBefore(groups[i + 1], groups[i]))
    && (GroupTotalsSeparated(groups) ==>
          forall i, j :: 0 <= i < j < |groups| && !IsSingleton(groups[j]) ==>
            Abs(groups[i].totalAmount) >= Abs(groups[j].totalAmount))
    && MainsPairwiseDissimilar(entries, |entries|, Ids(MainEntries(groups)))
    && MembersFollowMain(entries, groups)
    && AbsorbsSimilar(entries, groups)
  }

  /** No two of the first `n` entries whose ids are in `mainIds` are similar. */
  ghost predicate MainsPairwiseDissimilar(entries: seq<Entry>, n: nat, mainIds: set<int>)
  {
    forall a, b :: (0 <= a < b < |entries| && b < n && entries[a].id in mainIds && entries[b].id in mainIds) ==>
      !AreEntriesSimilar(entries[a], entries[b])
  }

  /** No main entry among the first `n` is similar to a later entry still unprocessed. */
  ghost predicate MainsExcludeRest(entries: seq<Entry>, n: nat, mainIds: set<int>, processed: set<int>)
  {
    forall a, k :: (0 <= a < n <= k < |entries| && entries[a].id in mainIds && entries[k].id !in processed) ==>
      !AreEntriesSimilar(entries[a], entries[k])
  }

  /** The inner loop's test for `e`: another entry, not yet processed, similar to `entry`. */
  predicate Collectable(entry: Entry, processed: set<int>, e: Entry)
  {
    e.id != entry.id && e.id !in processed && AreEntriesSimilar(entry, e)
  }

  /**
   * What the inner loop of groupEntriesBySimilarity collects for `entry` when the
   * ids in `processed` are taken: the collectable entries of `es`, in order.
   */
  function SimilarCandidates(es: seq<Entry>, entry: Entry, processed: set<int>): (r: seq<Entry>)
    ensures forall e :: e in r ==> e in es && Collectable(entry, processed, e)
    decreases |es|
  {
    if es == [] then []
    else
      var e := es[|es| - 1];
      SimilarCandidates(es[..|es| - 1], entry, processed) + (if Collectable(entry, processed, e) then [e] else [])
  }

  lemma CandidatesStep(es: seq<Entry>, j: nat, entry: Entry, processed: set<int>)
    requires j < |es|
    ensures SimilarCandidates(es[..j + 1], entry, processed)
         == SimilarCandidates(es[..j], entry, processed)
            + (if Collectable(entry, processed, es[j]) then [es[j]] else [])
  {
    assert es[..j + 1][..j] == es[..j];
  }

  lemma {:induction false} CandidatesIds(es: seq<Entry>, entry: Entry, processed: set<int>)
    ensures Ids(SimilarCandidates(es, entry, processed)) <= Ids(es)
    decreases |es|
  {
    if es != [] {
      var n := |es| - 1;
      CandidatesIds(es[..n], entry, processed);
      var r := SimilarCandidates(es[..n], entry, processed);
      if Collectable(entry, processed, es[n]) {
        assert SimilarCandidates(es, entry, processed) == r + [es[n]];
        assert (r + [es[n]])[..|r|] == r;
      } else {
        assert SimilarCandidates(es, entry, processed) == r;
      }
    }
  }

  /** The candidates are exactly the selection of `es` by their own ids. */
  lemma {:induction false} CandidatesAreSelection(es: seq<Entry>, entry: Entry, processed: set<int>)
    requires DistinctIds(es)
    ensures SimilarCandidates(es, entry, processed) == SelectByIds(es, Ids(SimilarCandidates(es, entry, processed)))
    decreases |es|
  {
    if es != [] {
      var n := |es| - 1;
      var r := SimilarCandidates(es[..n], entry, processed);
      assert DistinctIds(es[..n]);
      CandidatesAreSelection(es[..n], entry, processed);
      CandidatesIds(es[..n], entry, processed);
      IdNotInPrefix(es, n);
      if Collectable(entry, processed, es[n]) {
        assert SimilarCandidates(es, entry, processed) == r + [es[n]];
        assert (r + [es[n]])[..|r|] == r;
        SelectIgnoresOthers(es[..n], Ids(r), {es[n].id});
      } else {
        assert SimilarCandidates(es, entry, processed) == r;
      }
    }
  }

  /** The candidates' ids grow by the last entry's id exactly when it is collectable. */
  lemma CandidatesLastIds(es: seq<Entry>, entry: Entry, processed: set<int>)
    requires es != []
    ensures Ids(SimilarCandidates(es, entry, processed))
         == Ids(SimilarCandidates(es[..|es| - 1], entry, processed))
            + (if Collectable(entry, processed, es[|es| - 1]) then {es[|es| - 1].id} else {})
  {
    var n := |es| - 1;
    var r := SimilarCandidates(es[..n], entry, processed);
    if Collectable(entry, processed, es[n]) {
      assert SimilarCandidates(es, entry, processed) == r + [es[n]];
      assert (r + [es[n]])[..|r|] == r;
    } else {
      assert SimilarCandidates(es, entry, processed) == r;
    }
  }

  /** With distinct ids, an entry's id is among the candidates' exactly when it is collectable. */
  lemma {:induction false} CandidatesComplete(es: seq<Entry>, entry: Entry, processed: set<int>, k: nat)
    requires DistinctIds(es) && k < |es|
    ensures es[k].id in Ids(SimilarCandidates(es, entry, processed)) <==> Collectable(entry, processed, es[k])
    decreases |es|
  {
    var n := |es| - 1;
    CandidatesLastIds(es, entry, processed);
    if k < n {
      assert DistinctIds(es[..n]);
      assert es[..n][k] == es[k];
      CandidatesComplete(es[..n], entry, processed, k);
      assert es[k].id != es[n].id;
    } else {
      IdNotInPrefix(es, n);
      CandidatesIds(es[..n], entry, processed);
    }
  }

  /**
   * The inner loop of groupEntriesBySimilarity: walk all entries, and take every one
   * other than `entry` that is not yet processed and is similar to `entry`, marking
   * each as processed as it is taken.
   */
  method CollectSimilar(entries: seq<Entry>, entry: Entry, processed: set<int>)
    returns (similar: seq<Entry>, total: int, processedAfter: set<int>)
    requires DistinctIds(entries)
    ensures similar == SimilarCandidates(entries, entry, processed)
    ensures processedAfter == processed + Ids(similar)
    ensures total == entry.amount + SumAmounts(similar)
  {
    similar := [];
    total := entry.amount;
    processedAfter := processed;
    var j := 0;
    while j < |entries|
      invariant j <= |entries|
      invariant similar == SimilarCandidates(entries[..j], entry, processed)
      invariant processedAfter == processed + Ids(similar)
      invariant total == entry.amount + SumAmounts(similar)
    {
      var compare := entries[j];
      CollectStep(entries, j, entry, processed, similar);
      if compare.id != entry.id && compare.id !in processedAfter {
        if AreEntriesSimilar(entry, compare) {
          similar := similar + [compare];
          total := total + compare.amount;
          processedAfter := processedAfter + {compare.id};
        }
      }
      j := j + 1;
    }
    assert entries[..|entries|] == entries;
  }

  /**
   * One pass of the inner loop: the loop's test on the growing processed set is the
   * test on the set it started from, and taking the entry extends the candidates,
   * their ids and their total.
   */
  lemma CollectStep(entries: seq<Entry>, j: nat, entry: Entry, processed: set<int>, similar: seq<Entry>)
    requires DistinctIds(entries) && j < |entries|
    requires similar == SimilarCandidates(entries[..j], entry, processed)
    ensures (entries[j].id != entry.id && entries[j].id !in processed + Ids(similar)
             && AreEntriesSimilar(entry, entries[j])) == Collectable(entry, processed, entries[j])
    ensures SimilarCandidates(entries[..j + 1], entry, processed)
         == similar + (if Collectable(entry, processed, entries[j]) then [entries[j]] else [])
    ensures Ids(similar + [entries[j]]) == Ids(similar) + {entries[j].id}
    ensures SumAmounts(similar + [entries[j]]) == SumAmounts(similar) + entries[j].amount
  {
    IdNotInPrefix(entries, j);
    CandidatesIds(entries[..j], entry, processed);
    CandidatesStep(entries, j, entry, processed);
    SumAmountsAppend(similar, entries[j]);
    assert (similar + [entries[j]])[..|similar|] == similar;
  }

  lemma IdsStep(es: seq<Entry>, i: nat)
    requires i < |es|
    ensures Ids(es[..i + 1]) == Ids(es[..i]) + {es[i].id}
  {
    assert es[..i + 1][..i] == es[..i];
  }

  /** Taking `entries[i]` as a new main entry keeps the main entries pairwise dissimilar. */
  lemma PlaceMainPairwise(entries: seq<Entry>, i: nat, processed: set<int>, mainIds: set<int>)
    requires DistinctIds(entries) && i < |entries| && entries[i].id !in processed
    requires mainIds <= Ids(entries[..i])
    requires MainsPairwiseDissimilar(entries, i, mainIds)
    requires MainsExcludeRest(entries, i, mainIds, processed)
    ensures MainsPairwiseDissimilar(entries, i + 1, mainIds + {entries[i].id})
  {
    var entry := entries[i];
    IdNotInPrefix(entries, i);
    forall a, b | 0 <= a < b < |entries| && b < i + 1 && entries[a].id in mainIds + {entry.id}
        && entries[b].id in mainIds + {entry.id}
      ensures !AreEntriesSimilar(entries[a], entries[b])
    {
      assert entries[a].id != entry.id;
      if b < i {
        assert entries[b].id != entry.id;
      }
    }
  }

  /** Every entry still unprocessed after `entries[i]` took its group is dissimilar to it. */
  lemma PlaceMainExclude(entries: seq<Entry>, i: nat, processed: set<int>, mainIds: set<int>)
    requires DistinctIds(entries) && i < |entries| && entries[i].id !in processed
    requires mainIds <= Ids(entries[..i])
    requires MainsExcludeRest(entries, i, mainIds, processed)
    ensures MainsExcludeRest(entries, i + 1, mainIds + {entries[i].id},
      processed + Ids(SimilarCandidates(entries, entries[i], processed)) + {entries[i].id})
  {
    var entry := entries[i];
    var after := processed + Ids(SimilarCandidates(entries, entry, processed)) + {entry.id};
    IdNotInPrefix(entries, i);
    forall a, k | 0 <= a < i + 1 <= k < |entries| && entries[a].id in mainIds + {entry.id}
        && entries[k].id !in after
      ensures !AreEntriesSimilar(entries[a], entries[k])
    {
      if a == i {
        CandidatesComplete(entries, entry, processed, k);
        assert entries[k].id != entry.id && entries[k].id !in processed;
        assert !Collectable(entry, processed, entries[k]);
      } else {
        assert entries[a].id != entry.id;
        assert entries[a].id in mainIds && entries[k].id !in processed;
      }
    }
  }

  /** Skipping an already processed `entries[i]` keeps the greedy invariants. */
  lemma SkipProcessed(entries: seq<Entry>, i: nat, processed: set<int>, mainIds: set<int>)
    requires DistinctIds(entries) && i < |entries|
    requires mainIds <= Ids(entries[..i])
    requires MainsPairwiseDissimilar(entries, i, mainIds)
    requires MainsExcludeRest(entries, i, mainIds, processed)
    ensures MainsPairwiseDissimilar(entries, i + 1, mainIds)
    ensures MainsExcludeRest(entries, i + 1, mainIds, processed)
  {
    IdNotInPrefix(entries, i);
  }

  /** The ids taken by a new group add its members to the selection of processed entries. */
  lemma PlaceMembers(entries: seq<Entry>, i: nat, processed: set<int>)
    requires DistinctIds(entries) && i < |entries| && entries[i].id !in processed
    ensures var c := SimilarCandidates(entries, entries[i], processed);
      multiset(SelectByIds(entries, processed + Ids(c) + {entries[i].id}))
        == multiset(SelectByIds(entries, processed)) + multiset([entries[i]] + c)
  {
    var entry := entries[i];
    var c := SimilarCandidates(entries, entry, processed);
    var taken := processed + Ids(c);
    assert Ids(c) !! processed && entry.id !in Ids(c) by {
      forall x | x in Ids(c) ensures x !in processed && x != entry.id {
        IdsWitness(c, x);
        var k :| 0 <= k < |c| && c[k].id == x;
        assert c[k] in c;
        assert Collectable(entry, processed, c[k]);
      }
    }
    var before := multiset(SelectByIds(entries, processed));
    assert multiset(SelectByIds(entries, taken)) == before + multiset(c) by {
      CandidatesAreSelection(entries, entry, processed);
      SelectDisjointUnion(entries, processed, Ids(c));
    }
    assert multiset(SelectByIds(entries, taken + {entry.id}))
        == multiset(SelectByIds(entries, taken)) + multiset([entry]) by {
      SelectDisjointUnion(entries, taken, {entry.id});
      SelectOne(entries, i);
    }
    MultisetShuffle(before, multiset(c), multiset([entry]));
  }

  lemma MultisetShuffle<T>(a: multiset<T>, b: multiset<T>, d: multiset<T>)
    ensures (a + b) + d == a + (d + b)
  {
  }

  lemma SinglesStep(entries: seq<Entry>, i: nat, ps: seq<Entry>)
    requires DistinctIds(entries) && i < |entries|
    requires ps == SelectByIds(entries[..i], Ids(ps)) && Ids(ps) <= Ids(entries[..i])
    ensures ps + [entries[i]] == SelectByIds(entries[..i + 1], Ids(ps + [entries[i]]))
    ensures ps == SelectByIds(entries[..i + 1], Ids(ps))
  {
    IdNotInPrefix(entries, i);
    assert (ps + [entries[i]])[..|ps|] == ps;
    SelectStep(entries, i, Ids(ps) + {entries[i].id});
    SelectIgnoresOthers(entries[..i], Ids(ps), {entries[i].id});
    SelectStep(entries, i, Ids(ps));
  }

  lemma MultisetStep(pm: seq<Entry>, ps: seq<Entry>, m: seq<Entry>, sel: multiset<Entry>)
    requires multiset(pm) + multiset(ps) + multiset(m) == sel
    ensures multiset(pm + m) + multiset(ps) == sel
    ensures multiset(pm) + multiset(ps + m) == sel
  {
  }

  lemma GroupTotal(g: SimilarityGroup)
    ensures SumAmounts(Members(g)) == g.mainEntry.amount + SumAmounts(g.similarEntries)
  {
    SumAmountsConcat([g.mainEntry], g.similarEntries);
    assert SumAmounts([g.mainEntry]) == g.mainEntry.amount by {
      assert [g.mainEntry][..0] == [];
    }
  }

  lemma IdsSingle(e: Entry)
    ensures Ids([e]) == {e.id}
  {
    assert [e][..0] == [];
  }

  lemma MainEntriesAppend(gs: seq<SimilarityGroup>, g: SimilarityGroup)
    ensures MainEntries(gs + [g]) == MainEntries(gs) + [g.mainEntry]
    ensures GroupedEntries(gs + [g]) == GroupedEntries(gs) + Members(g)
  {
    assert (gs + [g])[..|gs|] == gs;
  }

  lemma IdsOfPermutation(a: seq<Entry>, b: seq<Entry>)
    requires multiset(a) == multiset(b)
    ensures Ids(a) == Ids(b)
  {
    forall x | x in Ids(a) ensures x in Ids(b) {
      IdsWitness(a, x);
      var k :| 0 <= k < |a| && a[k].id == x;
      assert a[k] in multiset(b);
      var j :| 0 <= j < |b| && b[j] == a[k];
      IdsHas(b, j);
    }
    forall x | x in Ids(b) ensures x in Ids(a) {
      IdsWitness(b, x);
      var k :| 0 <= k < |b| && b[k].id == x;
      assert b[k] in multiset(a);
      var j :| 0 <= j < |a| && a[j] == b[k];
      IdsHas(a, j);
    }
  }

  lemma {:induction false} IdsConcat(a: seq<Entry>, b: seq<Entry>)
    ensures Ids(a + b) == Ids(a) + Ids(b)
    decreases |b|
  {
    if b == [] {
      assert a + b == a;
    } else {
      var b' := b[..|b| - 1];
      assert (a + b)[..|a + b| - 1] == a + b';
      IdsConcat(a, b');
    }
  }

  /** The multi-entry groups built from the first `i` entries. */
  ghost predicate MultiInv(entries: seq<Entry>, i: nat, multi: seq<SimilarityGroup>)
    requires i <= |entries|
  {
    && (forall g :: g in multi ==> !IsSingleton(g) && ConsistentGroup(g))
    && Ids(MainEntries(multi)) <= Ids(entries[..i])
  }

  /** The singletons built from the first `i` entries, in input order. */
  ghost predicate SinglesInv(entries: seq<Entry>, i: nat, singles: seq<SimilarityGroup>)
    requires i <= |entries|
  {
    && (forall g :: g in singles ==> IsSingleton(g) && ConsistentGroup(g))
    && GroupedEntries(singles) == MainEntries(singles)
    && MainEntries(singles) == SelectByIds(entries[..i], Ids(MainEntries(singles)))
    && Ids(MainEntries(singles)) <= Ids(entries[..i])
  }

  /** The greedy choice of main entries among the first `i` entries. */
  ghost predicate GreedyInv(entries: seq<Entry>, i: nat, mainIds: set<int>, processed: set<int>)
  {
    MainsPairwiseDissimilar(entries, i, mainIds) && MainsExcludeRest(entries, i, mainIds, processed)
  }

  /**
   * The greedy rule for the groups `gs` built from the first `i` entries: their main
   * entries are among those entries, and every later entry already taken is in one of them.
   */
  ghost predicate AbsorbInv(entries: seq<Entry>, i: nat, gs: seq<SimilarityGroup>, processed: set<int>)
    requires i <= |entries|
  {
    && (forall g :: g in gs ==> g.mainEntry in entries[..i])
    && MembersFollowMain(entries, gs)
    && AbsorbsSimilar(entries, gs)
    && (forall k :: i <= k < |entries| && entries[k].id in processed ==> TakenBefore(entries, gs, i, entries[k]))
  }

  lemma TakenBeforeMono(
    entries: seq<Entry>, gs: seq<SimilarityGroup>, gs': seq<SimilarityGroup>, a: nat, a': nat, e: Entry)
    requires a <= a' && (forall h :: h in gs ==> h in gs')
    requires TakenBefore(entries, gs, a, e)
    ensures TakenBefore(entries, gs', a', e)
  {
    var h, b :| h in gs && 0 <= b < a && b < |entries| && entries[b] == h.mainEntry && e in h.similarEntries;
    assert h in gs';
  }

  /** The greedy rule speaks only of which groups there are, not of their order. */
  lemma GreedyRuleSameGroups(entries: seq<Entry>, gs: seq<SimilarityGroup>, gs': seq<SimilarityGroup>)
    requires forall h :: h in gs <==> h in gs'
    requires MembersFollowMain(entries, gs) && AbsorbsSimilar(entries, gs)
    ensures MembersFollowMain(entries, gs') && AbsorbsSimilar(entries, gs')
  {
    forall g, a, k | g in gs' && 0 <= a < k < |entries| && entries[a] == g.mainEntry
        && AreEntriesSimilar(entries[a], entries[k])
      ensures entries[k] in g.similarEntries || TakenBefore(entries, gs', a, entries[k])
    {
      assert g in gs;
      if entries[k] !in g.similarEntries {
        TakenBeforeMono(entries, gs, gs', a, a, entries[k]);
      }
    }
  }

  lemma AbsorbInvSameGroups(
    entries: seq<Entry>, i: nat, gs: seq<SimilarityGroup>, gs': seq<SimilarityGroup>, processed: set<int>)
    requires i <= |entries| && (forall h :: h in gs <==> h in gs')
    requires AbsorbInv(entries, i, gs, processed)
    ensures AbsorbInv(entries, i, gs', processed)
  {
    GreedyRuleSameGroups(entries, gs, gs');
    forall k | i <= k < |entries| && entries[k].id in processed
      ensures TakenBefore(entries, gs', i, entries[k])
    {
      TakenBeforeMono(entries, gs, gs', i, i, entries[k]);
    }
  }

  /** The candidates of `entries[i]` lie after it, in input order. */
  lemma NewGroupFollowsMain(entries: seq<Entry>, i: nat, processed: set<int>)
    requires DistinctIds(entries) && i < |entries| && Ids(entries[..i]) <= processed
    ensures var c := SimilarCandidates(entries, entries[i], processed);
      c == SelectByIds(entries[i + 1..], Ids(c))
  {
    var entry := entries[i];
    var c := SimilarCandidates(entries, entry, processed);
    assert Ids(c) !! Ids(entries[..i + 1]) by {
      IdsStep(entries, i);
      forall x | x in Ids(c) ensures x !in processed && x != entry.id {
        IdsWitness(c, x);
        var k :| 0 <= k < |c| && c[k].id == x;
        assert c[k] in c;
      }
    }
    CandidatesAreSelection(entries, entry, processed);
    SelectDropPrefix(entries, i + 1, Ids(c));
  }

  /** Every unprocessed entry after `entries[i]` that is similar to it is among its candidates. */
  lemma CandidateTaken(entries: seq<Entry>, i: nat, processed: set<int>, k: nat)
    requires DistinctIds(entries) && i < k < |entries| && entries[k].id !in processed
    requires AreEntriesSimilar(entries[i], entries[k])
    ensures entries[k] in SimilarCandidates(entries, entries[i], processed)
  {
    var c := SimilarCandidates(entries, entries[i], processed);
    assert Collectable(entries[i], processed, entries[k]);
    CandidatesComplete(entries, entries[i], processed, k);
    SelectHas(entries, Ids(c), k);
    CandidatesAreSelection(entries, entries[i], processed);
  }

  /** A new group for the unprocessed `entries[i]` keeps the greedy rule. */
  lemma AbsorbTake(entries: seq<Entry>, i: nat, gs: seq<SimilarityGroup>, processed: set<int>, g: SimilarityGroup)
    requires DistinctIds(entries) && i < |entries| && Ids(entries[..i]) <= processed
    requires entries[i].id !in processed && TakesEntry(entries, i, processed, g)
    requires AbsorbInv(entries, i, gs, processed)
    ensures AbsorbInv(entries, i + 1, gs + [g], processed + Ids(g.similarEntries) + {entries[i].id})
  {
    TakeMains(entries, i, gs, g);
    TakeFollows(entries, i, gs, processed, g);
    TakeAbsorbs(entries, i, gs, processed, g);
    TakeProcessed(entries, i, gs, processed, g);
  }

  lemma TakeMains(entries: seq<Entry>, i: nat, gs: seq<SimilarityGroup>, g: SimilarityGroup)
    requires i < |entries| && g.mainEntry == entries[i]
    requires forall h :: h in gs ==> h.mainEntry in entries[..i]
    ensures forall h :: h in gs + [g] ==> h.mainEntry in entries[..i + 1]
  {
    assert entries[..i] <= entries[..i + 1];
    assert entries[..i + 1][i] == entries[i];
  }

  lemma TakeFollows(entries: seq<Entry>, i: nat, gs: seq<SimilarityGroup>, processed: set<int>, g: SimilarityGroup)
    requires DistinctIds(entries) && i < |entries| && Ids(entries[..i]) <= processed
    requires TakesEntry(entries, i, processed, g)
    requires MembersFollowMain(entries, gs)
    ensures MembersFollowMain(entries, gs + [g])
  {
    forall h, a | h in gs + [g] && 0 <= a < |entries| && entries[a] == h.mainEntry
      ensures h.similarEntries == SelectByIds(entries[a + 1..], Ids(h.similarEntries))
    {
      if h !in gs {
        assert a == i;
        NewGroupFollowsMain(entries, i, processed);
      }
    }
  }

  lemma TakeAbsorbs(entries: seq<Entry>, i: nat, gs: seq<SimilarityGroup>, processed: set<int>, g: SimilarityGroup)
    requires DistinctIds(entries) && i < |entries|
    requires TakesEntry(entries, i, processed, g)
    requires AbsorbsSimilar(entries, gs)
    requires forall k :: i <= k < |entries| && entries[k].id in processed ==> TakenBefore(entries, gs, i, entries[k])
    ensures AbsorbsSimilar(entries, gs + [g])
  {
    var gs' := gs + [g];
    forall h, a, k | h in gs' && 0 <= a < k < |entries| && entries[a] == h.mainEntry
        && AreEntriesSimilar(entries[a], entries[k])
      ensures entries[k] in h.similarEntries || TakenBefore(entries, gs', a, entries[k])
    {
      if h in gs {
        if entries[k] !in h.similarEntries {
          TakenBeforeMono(entries, gs, gs', a, a, entries[k]);
        }
      } else {
        assert a == i;
        if entries[k].id in processed {
          TakenBeforeMono(entries, gs, gs', i, i, entries[k]);
        } else {
          CandidateTaken(entries, i, processed, k);
        }
      }
    }
  }

  lemma TakeProcessed(entries: seq<Entry>, i: nat, gs: seq<SimilarityGroup>, processed: set<int>, g: SimilarityGroup)
    requires DistinctIds(entries) && i < |entries|
    requires TakesEntry(entries, i, processed, g)
    requires forall k :: i <= k < |entries| && entries[k].id in processed ==> TakenBefore(entries, gs, i, entries[k])
    ensures forall k ::
      (i + 1 <= k < |entries| && entries[k].id in processed + Ids(g.similarEntries) + {entries[i].id}) ==>
      TakenBefore(entries, gs + [g], i + 1, entries[k])
  {
    var gs' := gs + [g];
    forall k | i + 1 <= k < |entries| && entries[k].id in processed + Ids(g.similarEntries) + {entries[i].id}
      ensures TakenBefore(entries, gs', i + 1, entries[k])
    {
      if entries[k].id in processed {
        TakenBeforeMono(entries, gs, gs', i, i + 1, entries[k]);
      } else {
        assert entries[k].id != entries[i].id;
        CandidatesAreSelection(entries, entries[i], processed);
        SelectHas(entries, Ids(g.similarEntries), k);
        assert g in gs' && entries[i] == g.mainEntry;
      }
    }
  }

  /** The greedy rule after the outer loop's step for the unprocessed `entries[i]`. */
  lemma AbsorbStep(
    entries: seq<Entry>, i: nat, multi: seq<SimilarityGroup>, singles: seq<SimilarityGroup>,
    processed: set<int>, g: SimilarityGroup)
    requires DistinctIds(entries) && i < |entries| && Ids(entries[..i]) <= processed
    requires entries[i].id !in processed && TakesEntry(entries, i, processed, g)
    requires var a := AbsorbInv(entries, i, multi + singles, processed); a
    ensures var a := AbsorbInv(entries, i + 1,
      (if IsSingleton(g) then multi else multi + [g]) + (if IsSingleton(g) then singles + [g] else singles),
      processed + Ids(g.similarEntries) + {entries[i].id}); a
  {
    var after := processed + Ids(g.similarEntries) + {entries[i].id};
    AbsorbTake(entries, i, multi + singles, processed, g);
    if IsSingleton(g) {
      assert multi + singles + [g] == multi + (singles + [g]);
    } else {
      AbsorbInvSameGroups(entries, i + 1, multi + singles + [g], multi + [g] + singles, after);
    }
  }

  /** Skipping the already processed `entries[i]` keeps the greedy rule. */
  lemma AbsorbSkip(entries: seq<Entry>, i: nat, gs: seq<SimilarityGroup>, processed: set<int>)
    requires i < |entries| && entries[i].id in processed
    requires AbsorbInv(entries, i, gs, processed)
    ensures AbsorbInv(entries, i + 1, gs, processed)
  {
    assert entries[..i] <= entries[..i + 1];
    forall k | i + 1 <= k < |entries| && entries[k].id in processed
      ensures TakenBefore(entries, gs, i + 1, entries[k])
    {
      TakenBeforeMono(entries, gs, gs, i, i + 1, entries[k]);
    }
  }

  /** The state of the outer loop of groupEntriesBySimilarity after the first `i` entries. */
  ghost predicate PartitionInv(
    entries: seq<Entry>, i: nat, multi: seq<SimilarityGroup>, singles: seq<SimilarityGroup>,
    processed: set<int>)
  {
    && i <= |entries| && DistinctIds(entries)
    && Ids(entries[..i]) <= processed <= Ids(entries)
    && multiset(GroupedEntries(multi)) + multiset(GroupedEntries(singles))
       == multiset(SelectByIds(entries, processed))
    && MultiInv(entries, i, multi)
    && SinglesInv(entries, i, singles)
    && GreedyInv(entries, i, Ids(MainEntries(multi)) + Ids(MainEntries(singles)), processed)
    && AbsorbInv(entries, i, multi + singles, processed)
  }

  /** The parts of the loop state, each taken as one fact. */
  lemma PartitionParts(
    entries: seq<Entry>, i: nat, multi: seq<SimilarityGroup>, singles: seq<SimilarityGroup>,
    processed: set<int>)
    requires var inv := PartitionInv(entries, i, multi, singles, processed); inv
    ensures i <= |entries| && DistinctIds(entries)
    ensures Ids(entries[..i]) <= processed <= Ids(entries)
    ensures multiset(GroupedEntries(multi)) + multiset(GroupedEntries(singles))
         == multiset(SelectByIds(entries, processed))
    ensures var m := MultiInv(entries, i, multi); m
    ensures var s := SinglesInv(entries, i, singles); s
    ensures var g := GreedyInv(entries, i, Ids(MainEntries(multi)) + Ids(MainEntries(singles)), processed); g
    ensures var a := AbsorbInv(entries, i, multi + singles, processed); a
  {
  }

  /** The loop state from its parts. */
  lemma PartitionFromParts(
    entries: seq<Entry>, i: nat, multi: seq<SimilarityGroup>, singles: seq<SimilarityGroup>,
    processed: set<int>)
    requires i <= |entries| && DistinctIds(entries)
    requires Ids(entries[..i]) <= processed <= Ids(entries)
    requires multiset(GroupedEntries(multi)) + multiset(GroupedEntries(singles))
          == multiset(SelectByIds(entries, processed))
    requires var m := MultiInv(entries, i, multi); m
    requires var s := SinglesInv(entries, i, singles); s
    requires var g := GreedyInv(entries, i, Ids(MainEntries(multi)) + Ids(MainEntries(singles)), processed); g
    requires var a := AbsorbInv(entries, i, multi + singles, processed); a
    ensures var inv := PartitionInv(entries, i, multi, singles, processed); inv
  {
  }

  /** `g` is the group the outer loop builds for the unprocessed `entries[i]`. */
  ghost predicate TakesEntry(entries: seq<Entry>, i: nat, processed: set<int>, g: SimilarityGroup)
    requires i < |entries|
  {
    && g.mainEntry == entries[i]
    && g.similarEntries == SimilarCandidates(entries, entries[i], processed)
    && g.totalAmount == entries[i].amount + SumAmounts(g.similarEntries)
  }

  /** What a new group for `entries[i]` does to the processed ids and the greedy invariants. */
  lemma TakeCommon(entries: seq<Entry>, i: nat, processed: set<int>, mainIds: set<int>, g: SimilarityGroup)
    requires DistinctIds(entries) && i < |entries| && processed <= Ids(entries)
    requires mainIds <= Ids(entries[..i]) && GreedyInv(entries, i, mainIds, processed)
    requires entries[i].id !in processed && TakesEntry(entries, i, processed, g)
    ensures var after := processed + Ids(g.similarEntries) + {entries[i].id};
      && after <= Ids(entries)
      && multiset(SelectByIds(entries, after))
         == multiset(SelectByIds(entries, processed)) + multiset(Members(g))
      && ConsistentGroup(g)
      && GreedyInv(entries, i + 1, mainIds + {entries[i].id}, after)
  {
    var entry := entries[i];
    assert processed + Ids(g.similarEntries) + {entry.id} <= Ids(entries) by {
      CandidatesIds(entries, entry, processed);
      IdsHas(entries, i);
    }
    assert ConsistentGroup(g) by {
      GroupTotal(g);
    }
    PlaceMainPairwise(entries, i, processed, mainIds);
    PlaceMainExclude(entries, i, processed, mainIds);
    PlaceMembers(entries, i, processed);
  }

  lemma MultiAppend(entries: seq<Entry>, i: nat, multi: seq<SimilarityGroup>, g: SimilarityGroup)
    requires i < |entries| && MultiInv(entries, i, multi)
    requires g.mainEntry == entries[i] && !IsSingleton(g) && ConsistentGroup(g)
    ensures MultiInv(entries, i + 1, multi + [g])
    ensures Ids(MainEntries(multi + [g])) == Ids(MainEntries(multi)) + {entries[i].id}
    ensures GroupedEntries(multi + [g]) == GroupedEntries(multi) + Members(g)
  {
    MainEntriesAppend(multi, g);
    IdsConcat(MainEntries(multi), [entries[i]]);
    IdsSingle(entries[i]);
    IdsStep(entries, i);
  }

  lemma MultiKeep(entries: seq<Entry>, i: nat, multi: seq<SimilarityGroup>)
    requires i < |entries| && MultiInv(entries, i, multi)
    ensures MultiInv(entries, i + 1, multi)
  {
    IdsStep(entries, i);
  }

  lemma SinglesAppend(entries: seq<Entry>, i: nat, singles: seq<SimilarityGroup>, g: SimilarityGroup)
    requires DistinctIds(entries) && i < |entries| && SinglesInv(entries, i, singles)
    requires g.mainEntry == entries[i] && IsSingleton(g) && ConsistentGroup(g)
    ensures SinglesInv(entries, i + 1, singles + [g])
    ensures Ids(MainEntries(singles + [g])) == Ids(MainEntries(singles)) + {entries[i].id}
    ensures GroupedEntries(singles + [g]) == GroupedEntries(singles) + Members(g)
  {
    var ps := MainEntries(singles);
    MainEntriesAppend(singles, g);
    assert Members(g) == [entries[i]] && MainOnly(g) == [entries[i]];
    IdsConcat(ps, [entries[i]]);
    IdsSingle(entries[i]);
    IdsStep(entries, i);
    SinglesStep(entries, i, ps);
  }

  lemma SinglesKeep(entries: seq<Entry>, i: nat, singles: seq<SimilarityGroup>)
    requires DistinctIds(entries) && i < |entries| && SinglesInv(entries, i, singles)
    ensures SinglesInv(entries, i + 1, singles)
  {
    IdsStep(entries, i);
    SinglesStep(entries, i, MainEntries(singles));
  }

  lemma MultisetAddRight<T>(x: multiset<T>, y: multiset<T>, z: multiset<T>, s: multiset<T>, s': multiset<T>)
    requires x + y == s && s' == s + z
    ensures x + (y + z) == s' && (x + z) + y == s'
  {
  }

  /** Appending a multi-entry group for the unprocessed `entries[i]` keeps the loop state. */
  lemma TakeGroup(
    entries: seq<Entry>, i: nat, multi: seq<SimilarityGroup>, singles: seq<SimilarityGroup>,
    processed: set<int>, g: SimilarityGroup)
    requires i < |entries|
    requires var inv := PartitionInv(entries, i, multi, singles, processed); inv
    requires entries[i].id !in processed && TakesEntry(entries, i, processed, g)
    requires g.similarEntries != []
    ensures var inv := PartitionInv(entries, i + 1, multi + [g], singles, processed + Ids(g.similarEntries) + {entries[i].id}); inv
  {
    PartitionParts(entries, i, multi, singles, processed);
    var mainIds := Ids(MainEntries(multi)) + Ids(MainEntries(singles));
    var after := processed + Ids(g.similarEntries) + {entries[i].id};
    TakeCommon(entries, i, processed, mainIds, g);
    GroupParts(entries, i, multi, singles, g);
    MultisetAddRight(multiset(GroupedEntries(multi)), multiset(GroupedEntries(singles)), multiset(Members(g)),
      multiset(SelectByIds(entries, processed)), multiset(SelectByIds(entries, after)));
    assert Ids(entries[..i + 1]) <= after by {
      IdsStep(entries, i);
    }
    AbsorbStep(entries, i, multi, singles, processed, g);
    PartitionFromParts(entries, i + 1, multi + [g], singles, after);
  }

  /** How appending a singleton for `entries[i]` advances the invariants on the groups. */
  lemma SingleParts(
    entries: seq<Entry>, i: nat, multi: seq<SimilarityGroup>, singles: seq<SimilarityGroup>,
    g: SimilarityGroup)
    requires i < |entries| && DistinctIds(entries)
    requires var m := MultiInv(entries, i, multi); m
    requires var s := SinglesInv(entries, i, singles); s
    requires g.mainEntry == entries[i] && IsSingleton(g) && ConsistentGroup(g)
    ensures var m := MultiInv(entries, i + 1, multi); m
    ensures var s := SinglesInv(entries, i + 1, singles + [g]); s
    ensures Ids(MainEntries(multi)) + Ids(MainEntries(singles + [g]))
         == Ids(MainEntries(multi)) + Ids(MainEntries(singles)) + {entries[i].id}
    ensures multiset(GroupedEntries(singles + [g])) == multiset(GroupedEntries(singles)) + multiset(Members(g))
  {
    MultiKeep(entries, i, multi);
    SinglesAppend(entries, i, singles, g);
  }

  /** How appending a multi-entry group for `entries[i]` advances the invariants on the groups. */
  lemma GroupParts(
    entries: seq<Entry>, i: nat, multi: seq<SimilarityGroup>, singles: seq<SimilarityGroup>,
    g: SimilarityGroup)
    requires i < |entries| && DistinctIds(entries)
    requires var m := MultiInv(entries, i, multi); m
    requires var s := SinglesInv(entries, i, singles); s
    requires g.mainEntry == entries[i] && !IsSingleton(g) && ConsistentGroup(g)
    ensures var m := MultiInv(entries, i + 1, multi + [g]); m
    ensures var s := SinglesInv(entries, i + 1, singles); s
    ensures Ids(MainEntries(multi + [g])) + Ids(MainEntries(singles))
         == Ids(MainEntries(multi)) + Ids(MainEntries(singles)) + {entries[i].id}
    ensures multiset(GroupedEntries(multi + [g])) == multiset(GroupedEntries(multi)) + multiset(Members(g))
  {
    MultiAppend(entries, i, multi, g);
    SinglesKeep(entries, i, singles);
  }

  /** Appending a singleton for the unprocessed `entries[i]` keeps the loop state. */
  lemma TakeSingle(
    entries: seq<Entry>, i: nat, multi: seq<SimilarityGroup>, singles: seq<SimilarityGroup>,
    processed: set<int>, g: SimilarityGroup)
    requires i < |entries|
    requires var inv := PartitionInv(entries, i, multi, singles, processed); inv
    requires entries[i].id !in processed && TakesEntry(entries, i, processed, g)
    requires g.similarEntries == []
    ensures var inv := PartitionInv(entries, i + 1, multi, singles + [g], processed + Ids(g.similarEntries) + {entries[i].id}); inv
  {
    PartitionParts(entries, i, multi, singles, processed);
    var mainIds := Ids(MainEntries(multi)) + Ids(MainEntries(singles));
    var after := processed + Ids(g.similarEntries) + {entries[i].id};
    TakeCommon(entries, i, processed, mainIds, g);
    SingleParts(entries, i, multi, singles, g);
    MultisetAddRight(multiset(GroupedEntries(multi)), multiset(GroupedEntries(singles)), multiset(Members(g)),
      multiset(SelectByIds(entries, processed)), multiset(SelectByIds(entries, after)));
    assert Ids(entries[..i + 1]) <= after by {
      IdsStep(entries, i);
    }
    AbsorbStep(entries, i, multi, singles, processed, g);
    PartitionFromParts(entries, i + 1, multi, singles + [g], after);
  }

  /** Skipping the already processed `entries[i]` keeps the loop state. */
  lemma SkipEntry(
    entries: seq<Entry>, i: nat, multi: seq<SimilarityGroup>, singles: seq<SimilarityGroup>,
    processed: set<int>)
    requires i < |entries|
    requires var inv := PartitionInv(entries, i, multi, singles, processed); inv
    requires entries[i].id in processed
    ensures var inv := PartitionInv(entries, i + 1, multi, singles, processed); inv
  {
    PartitionParts(entries, i, multi, singles, processed);
    var mainIds := Ids(MainEntries(multi)) + Ids(MainEntries(singles));
    IdsStep(entries, i);
    SkipProcessed(entries, i, processed, mainIds);
    AbsorbSkip(entries, i, multi + singles, processed);
    MultiKeep(entries, i, multi);
    SinglesKeep(entries, i, singles);
    PartitionFromParts(entries, i + 1, multi, singles, processed);
  }

  /** The group for the unprocessed `entries[i]` goes to the multi-entry groups or to the singletons. */
  lemma TakeEither(
    entries: seq<Entry>, i: nat, multi: seq<SimilarityGroup>, singles: seq<SimilarityGroup>,
    processed: set<int>, g: SimilarityGroup)
    requires i < |entries|
    requires var inv := PartitionInv(entries, i, multi, singles, processed); inv
    requires entries[i].id !in processed && TakesEntry(entries, i, processed, g)
    ensures var inv := PartitionInv(entries, i + 1,
      if IsSingleton(g) then multi else multi + [g],
      if IsSingleton(g) then singles + [g] else singles,
      processed + Ids(g.similarEntries) + {entries[i].id}); inv
  {
    if IsSingleton(g) {
      TakeSingle(entries, i, multi, singles, processed, g);
    } else {
      TakeGroup(entries, i, multi, singles, processed, g);
    }
  }

  /**
   * An unprocessed entry becomes a main entry: it goes to the groups when it
   * collected similar entries, else to the single entries.
   */
  method TakeEntry(
    entries: seq<Entry>, i: nat, multi: seq<SimilarityGroup>, singles: seq<SimilarityGroup>,
    processed: set<int>)
    returns (multi': seq<SimilarityGroup>, singles': seq<SimilarityGroup>, processed': set<int>)
    requires i < |entries| && entries[i].id !in processed
    requires var inv := PartitionInv(entries, i, multi, singles, processed); inv
    ensures var inv := PartitionInv(entries, i + 1, multi', singles', processed'); inv
  {
    multi', singles' := multi, singles;
    var entry := entries[i];
    var similar, total, processedAfter := CollectSimilar(entries, entry, processed);
    // With no similar entries this is the record built afresh for the singles:
    // the entry, no similar entries, and the entry's own amount.
    var g := SimilarityGroup(entry, similar, total);
    TakeEither(entries, i, multi, singles, processed, g);
    if similar != [] {
      multi' := multi + [g];
    } else {
      singles' := singles + [g];
    }
    processed' := processedAfter + {entry.id};
  }

  /** The outer loop of groupEntriesBySimilarity, before the sort. */
  method PartitionBySimilarity(entries: seq<Entry>)
    returns (multi: seq<SimilarityGroup>, singles: seq<SimilarityGroup>)
    requires DistinctIds(entries)
    ensures multiset(GroupedEntries(multi)) + multiset(GroupedEntries(singles)) == multiset(entries)
    ensures forall g :: g in multi ==> !IsSingleton(g) && ConsistentGroup(g)
    ensures forall g :: g in singles ==> IsSingleton(g) && ConsistentGroup(g)
    ensures MainEntries(singles) == SelectByIds(entries, Ids(MainEntries(singles)))
    ensures MainsPairwiseDissimilar(entries, |entries|, Ids(MainEntries(multi)) + Ids(MainEntries(singles)))
    ensures MembersFollowMain(entries, multi + singles) && AbsorbsSimilar(entries, multi + singles)
  {
    multi := [];
    singles := [];
    var processed: set<int> := {};
    PartitionStart(entries);
    var i := 0;
    while i < |entries|
      invariant i <= |entries|
      // Bound to a name so that the verifier takes the invariant as one fact
      // instead of re-proving each of its conjuncts on each path.
      invariant var inv := PartitionInv(entries, i, multi, singles, processed); inv
    {
      if entries[i].id !in processed {
        multi, singles, processed := TakeEntry(entries, i, multi, singles, processed);
      } else {
        SkipEntry(entries, i, multi, singles, processed);
      }
      i := i + 1;
    }
    PartitionDone(entries, multi, singles, processed);
  }

  lemma PartitionStart(entries: seq<Entry>)
    requires DistinctIds(entries)
    ensures var inv := PartitionInv(entries, 0, [], [], {}); inv
  {
    SelectNone(entries);
  }

  /** The loop state after the last entry gives the partition's contract. */
  lemma PartitionDone(entries: seq<Entry>, multi: seq<SimilarityGroup>, singles: seq<SimilarityGroup>, processed: set<int>)
    requires var inv := PartitionInv(entries, |entries|, multi, singles, processed); inv
    ensures multiset(GroupedEntries(multi)) + multiset(GroupedEntries(singles)) == multiset(entries)
    ensures forall g :: g in multi ==> !IsSingleton(g) && ConsistentGroup(g)
    ensures forall g :: g in singles ==> IsSingleton(g) && ConsistentGroup(g)
    ensures MainEntries(singles) == SelectByIds(entries, Ids(MainEntries(singles)))
    ensures MainsPairwiseDissimilar(entries, |entries|, Ids(MainEntries(multi)) + Ids(MainEntries(singles)))
    ensures MembersFollowMain(entries, multi + singles) && AbsorbsSimilar(entries, multi + singles)
  {
    PartitionParts(entries, |entries|, multi, singles, processed);
    assert entries[..|entries|] == entries;
    SelectAll(entries, processed);
  }

  method GroupEntriesBySimilarity(entries: seq<Entry>) returns (groups: seq<SimilarityGroup>)
    requires DistinctIds(entries)
    ensures IsSimilarityGrouping(entries, groups)
  {
    var multi, singles := PartitionBySimilarity(entries);
    var sorted := StableSort.Sort(multi, GroupBefore);
    groups := sorted + singles;
    SortedGroupsFacts(entries, multi, singles, sorted);
  }

  lemma {:induction false} SingletonsConcat(a: seq<SimilarityGroup>, b: seq<SimilarityGroup>)
    ensures Singletons(a + b) == Singletons(a) + Singletons(b)
    decreases |b|
  {
    if b == [] {
      assert a + b == a;
    } else {
      var b' := b[..|b| - 1];
      assert (a + b)[..|a + b| - 1] == a + b';
      SingletonsConcat(a, b');
    }
  }

  lemma {:induction false} SingletonsOfAll(gs: seq<SimilarityGroup>)
    ensures (forall g :: g in gs ==> IsSingleton(g)) ==> Singletons(gs) == gs
    ensures (forall g :: g in gs ==> !IsSingleton(g)) ==> Singletons(gs) == []
    decreases |gs|
  {
    if gs != [] {
      SingletonsOfAll(gs[..|gs| - 1]);
      assert gs == gs[..|gs| - 1] + [gs[|gs| - 1]];
    }
  }

  lemma SortedGroupsFacts(
    entries: seq<Entry>, multi: seq<SimilarityGroup>, singles: seq<SimilarityGroup>,
    sorted: seq<SimilarityGroup>)
    requires sorted == StableSort.Sort(multi, GroupBefore)
    requires multiset(GroupedEntries(multi)) + multiset(GroupedEntries(singles)) == multiset(entries)
    requires forall g :: g in multi ==> !IsSingleton(g) && ConsistentGroup(g)
    requires forall g :: g in singles ==> IsSingleton(g) && ConsistentGroup(g)
    requires MainEntries(singles) == SelectByIds(entries, Ids(MainEntries(singles)))
    requires MainsPairwiseDissimilar(entries, |entries|, Ids(MainEntries(multi)) + Ids(MainEntries(singles)))
    requires MembersFollowMain(entries, multi + singles) && AbsorbsSimilar(entries, multi + singles)
    ensures IsSimilarityGrouping(entries, sorted + singles)
  {
    var groups := sorted + singles;
    forall g | g in sorted ensures g in multi {
      assert g in multiset(sorted);
    }
    forall g ensures g in multi + singles <==> g in groups {
      assert g in multi <==> g in multiset(sorted);
    }
    GreedyRuleSameGroups(entries, multi + singles, groups);
    assert multiset(GroupedEntries(groups)) == multiset(entries) by {
      Sequences.FlatMapPermutation(sorted, multi, Members);
      Sequences.FlatMapConcat(sorted, singles, Members);
    }
    assert Ids(MainEntries(groups)) == Ids(MainEntries(multi)) + Ids(MainEntries(singles)) by {
      Sequences.FlatMapPermutation(sorted, multi, MainOnly);
      Sequences.FlatMapConcat(sorted, singles, MainOnly);
      IdsOfPermutation(MainEntries(sorted), MainEntries(multi));
      IdsConcat(MainEntries(sorted), MainEntries(singles));
    }
    assert Singletons(groups) == singles by {
      SingletonsConcat(sorted, singles);
      SingletonsOfAll(sorted);
      SingletonsOfAll(singles);
    }
    SortedMultiFirst(multi, singles, sorted);
  }

  /** The ordering half of the grouping: multi-entry groups, sorted, then singletons. */
  lemma SortedMultiFirst(multi: seq<SimilarityGroup>, singles: seq<SimilarityGroup>, sorted: seq<SimilarityGroup>)
    requires sorted == StableSort.Sort(multi, GroupBefore)
    requires forall g :: g in multi ==> !IsSingleton(g)
    requires forall g :: g in singles ==> IsSingleton(g)
    ensures var groups := sorted + singles;
      && (forall i, j :: 0 <= i < j < |groups| && IsSingleton(groups[i]) ==> IsSingleton(groups[j]))
      && (forall i :: 0 <= i < |groups| - 1 && !IsSingleton(groups[i + 1]) ==>
            !GroupBefore(groups[i + 1], groups[i]))
      && (GroupTotalsSeparated(groups) ==>
            forall i, j :: 0 <= i < j < |groups| && !IsSingleton(groups[j]) ==>
              Abs(groups[i].totalAmount) >= Abs(groups[j].totalAmount))
  {
    SortedKinds(multi, singles, sorted);
    SortedNoInversion(multi, singles, sorted);
    if GroupTotalsSeparated(sorted + singles) {
      SortedDescending(multi, singles, sorted);
    }
  }

  /** The sorted multi-entry groups come first, the singletons after them. */
  lemma SortedKinds(multi: seq<SimilarityGroup>, singles: seq<SimilarityGroup>, sorted: seq<SimilarityGroup>)
    requires multiset(sorted) == multiset(multi)
    requires forall g :: g in multi ==> !IsSingleton(g)
    requires forall g :: g in singles ==> IsSingleton(g)
    ensures forall k :: 0 <= k < |sorted + singles| ==> ((k < |sorted|) == !IsSingleton((sorted + singles)[k]))
  {
    var groups := sorted + singles;
    forall k | 0 <= k < |groups| ensures (k < |sorted|) == !IsSingleton(groups[k]) {
      if k < |sorted| {
        assert groups[k] == sorted[k] && sorted[k] in multiset(multi);
      } else {
        assert groups[k] in singles;
      }
    }
  }

  lemma GroupBeforeAsymmetric()
    ensures forall a: SimilarityGroup, b: SimilarityGroup :: GroupBefore(a, b) ==> !GroupBefore(b, a)
  {
    forall a: SimilarityGroup, b: SimilarityGroup | GroupBefore(a, b) ensures !GroupBefore(b, a) {
      CompareAbsTotalsMeaning(a.totalAmount, b.totalAmount);
      CompareAbsTotalsMeaning(b.totalAmount, a.totalAmount);
    }
  }

  lemma SortedNoInversion(multi: seq<SimilarityGroup>, singles: seq<SimilarityGroup>, sorted: seq<SimilarityGroup>)
    requires sorted == StableSort.Sort(multi, GroupBefore)
    requires forall k :: 0 <= k < |sorted + singles| ==> ((k < |sorted|) == !IsSingleton((sorted + singles)[k]))
    ensures var groups := sorted + singles;
      forall i :: 0 <= i < |groups| - 1 && !IsSingleton(groups[i + 1]) ==> !GroupBefore(groups[i + 1], groups[i])
  {
    GroupBeforeAsymmetric();
    StableSort.SortNoAdjacentInversion(multi, GroupBefore);
  }

  /** With separated totals, the comparator ranks the multi-entry groups by absolute total. */
  lemma MultiAgreesWithRank(multi: seq<SimilarityGroup>, singles: seq<SimilarityGroup>, sorted: seq<SimilarityGroup>)
    requires multiset(sorted) == multiset(multi)
    requires forall g :: g in multi ==> !IsSingleton(g)
    requires GroupTotalsSeparated(sorted + singles)
    ensures StableSort.AgreesWithRank(multi, GroupBefore, GroupAbsTotal)
  {
    var groups := sorted + singles;
    forall x, y | x in multi && y in multi
      ensures GroupBefore(x, y) <==> GroupAbsTotal(x) > GroupAbsTotal(y)
    {
      assert x in multiset(sorted) && y in multiset(sorted);
      var i :| 0 <= i < |sorted| && sorted[i] == x;
      var j :| 0 <= j < |sorted| && sorted[j] == y;
      assert groups[i] == x && groups[j] == y;
      CompareAbsTotalsMeaning(x.totalAmount, y.totalAmount);
    }
  }

  lemma SortedDescending(multi: seq<SimilarityGroup>, singles: seq<SimilarityGroup>, sorted: seq<SimilarityGroup>)
    requires sorted == StableSort.Sort(multi, GroupBefore)
    requires forall g :: g in multi ==> !IsSingleton(g)
    requires forall k :: 0 <= k < |sorted + singles| ==> ((k < |sorted|) == !IsSingleton((sorted + singles)[k]))
    requires GroupTotalsSeparated(sorted + singles)
    ensures var groups := sorted + singles;
      forall i, j :: 0 <= i < j < |groups| && !IsSingleton(groups[j]) ==>
        Abs(groups[i].totalAmount) >= Abs(groups[j].totalAmount)
  {
    var groups := sorted + singles;
    MultiAgreesWithRank(multi, singles, sorted);
    StableSort.SortDescending(multi, GroupBefore, GroupAbsTotal);
    forall i, j | 0 <= i < j < |groups| && !IsSingleton(groups[j])
      ensures Abs(groups[i].totalAmount) >= Abs(groups[j].totalAmount)
    {
      assert GroupAbsTotal(sorted[i]) >= GroupAbsTotal(sorted[j]);
    }
  }


  // ---------------------------------------------------------------------------
  // Grouping by type
  // ---------------------------------------------------------------------------

  function BucketEntries(b: TypeBucket): seq<Entry>
  {
    b.entries
  }

  function TypeNames(bs: seq<TypeBucket>): set<string>
  {
    set b | b in bs :: b.typeName
  }

  lemma TypeNamesAppend(bs: seq<TypeBucket>, nb: TypeBucket)
    ensures TypeNames(bs + [nb]) == TypeNames(bs) + {nb.typeName}
  {
    assert forall b :: b in bs + [nb] <==> b in bs || b == nb;
  }

  lemma TypeNamesUpdate(bs: seq<TypeBucket>, idx: nat, nb: TypeBucket)
    requires idx < |bs| && nb.typeName == bs[idx].typeName
    ensures TypeNames(bs[idx := nb]) == TypeNames(bs)
  {
    var bs' := bs[idx := nb];
    forall x | x in TypeNames(bs') ensures x in TypeNames(bs) {
      var c :| c in bs' && c.typeName == x;
      var m :| 0 <= m < |bs'| && bs'[m] == c;
      assert bs[m].typeName == x;
    }
    forall x | x in TypeNames(bs) ensures x in TypeNames(bs') {
      var c :| c in bs && c.typeName == x;
      var m :| 0 <= m < |bs| && bs[m] == c;
      assert bs'[m].typeName == x;
    }
  }

  /** The type keys of `es`, each once, in order of first appearance. */
  function TypeOrder(es: seq<Entry>): seq<string>
    decreases |es|
  {
    if es == [] then []
    else
      var r := TypeOrder(es[..|es| - 1]);
      var t := TypeKey(es[|es| - 1]);
      if t in r then r else r + [t]
  }

  lemma TypeOrderStep(es: seq<Entry>, i: nat)
    requires i < |es|
    ensures TypeOrder(es[..i + 1])
         == if TypeKey(es[i]) in TypeOrder(es[..i]) then TypeOrder(es[..i]) else TypeOrder(es[..i]) + [TypeKey(es[i])]
  {
    assert es[..i + 1][..i] == es[..i];
  }

  /** No key occurs twice in the order. */
  lemma {:induction false} TypeOrderDistinct(es: seq<Entry>)
    ensures forall p, q :: 0 <= p < q < |TypeOrder(es)| ==> TypeOrder(es)[p] != TypeOrder(es)[q]
    decreases |es|
  {
    if es != [] {
      TypeOrderDistinct(es[..|es| - 1]);
    }
  }

  /** The order lists exactly the type keys of `es`. */
  lemma {:induction false} TypeOrderKeys(es: seq<Entry>)
    ensures forall t :: t in TypeOrder(es) <==> t in TypeKeys(es)
    decreases |es|
  {
    if es != [] {
      var n := |es| - 1;
      TypeOrderKeys(es[..n]);
      assert forall e :: e in es <==> e in es[..n] || e == es[n] by {
        assert es == es[..n] + [es[n]];
      }
      assert TypeKeys(es) == TypeKeys(es[..n]) + {TypeKey(es[n])};
    }
  }

  /** Some entry of type `t` comes before every entry of type `u`. */
  ghost predicate FirstSeenBefore(es: seq<Entry>, t: string, u: string)
  {
    exists k :: 0 <= k < |es| && TypeKey(es[k]) == t && forall m :: 0 <= m <= k ==> TypeKey(es[m]) != u
  }

  lemma FirstSeenExtend(es: seq<Entry>, n: nat, t: string, u: string)
    requires n <= |es| && FirstSeenBefore(es[..n], t, u)
    ensures FirstSeenBefore(es, t, u)
  {
    var k :| 0 <= k < n && TypeKey(es[..n][k]) == t && forall m :: 0 <= m <= k ==> TypeKey(es[..n][m]) != u;
    forall m | 0 <= m <= k ensures TypeKey(es[m]) != u {
      assert es[..n][m] == es[m];
    }
    assert es[..n][k] == es[k];
  }

  /** Of two keys in the order, the earlier one was seen first. */
  lemma {:induction false} TypeOrderFirstSeen(es: seq<Entry>)
    ensures forall p, q :: 0 <= p < q < |TypeOrder(es)| ==> FirstSeenBefore(es, TypeOrder(es)[p], TypeOrder(es)[q])
    decreases |es|
  {
    if es != [] {
      var n := |es| - 1;
      var es' := es[..n];
      var r' := TypeOrder(es');
      var t := TypeKey(es[n]);
      var r := TypeOrder(es);
      TypeOrderFirstSeen(es');
      TypeOrderKeys(es');
      forall p, q | 0 <= p < q < |r| ensures FirstSeenBefore(es, r[p], r[q]) {
        assert r[p] == r'[p];
        if q < |r'| {
          assert r[q] == r'[q];
          assert FirstSeenBefore(es', r'[p], r'[q]);
          FirstSeenExtend(es, n, r'[p], r'[q]);
        } else {
          assert r[q] == t && t !in TypeKeys(es');
          assert r'[p] in r';
          var e :| e in es' && TypeKey(e) == r'[p];
          var k :| 0 <= k < n && es'[k] == e;
          forall m | 0 <= m <= k ensures TypeKey(es[m]) != t {
            assert es[m] == es'[m] && es'[m] in es';
          }
          assert es[k] == es'[k];
        }
      }
    }
  }

  /** The names of `bs`, in order. */
  function BucketNames(bs: seq<TypeBucket>): (r: seq<string>)
    ensures |r| == |bs| && forall k :: 0 <= k < |bs| ==> r[k] == bs[k].typeName
  {
    seq(|bs|, k requires 0 <= k < |bs| => bs[k].typeName)
  }

  /** What a pass of the bucketing loop does to the order of bucket names. */
  lemma BucketNamesStep(entries: seq<Entry>, i: nat, buckets: seq<TypeBucket>, buckets': seq<TypeBucket>, isNew: bool)
    requires i < |entries| && BucketNames(buckets) == TypeOrder(entries[..i])
    requires isNew ==> forall b :: b in buckets ==> b.typeName != TypeKey(entries[i])
    requires !isNew ==> exists b :: b in buckets && b.typeName == TypeKey(entries[i])
    requires BucketNames(buckets') == BucketNames(buckets) + (if isNew then [TypeKey(entries[i])] else [])
    ensures BucketNames(buckets') == TypeOrder(entries[..i + 1])
  {
    TypeOrderStep(entries, i);
    var t := TypeKey(entries[i]);
    if isNew {
      forall k | 0 <= k < |buckets| ensures BucketNames(buckets)[k] != t {
        assert buckets[k] in buckets;
      }
    } else {
      var b :| b in buckets && b.typeName == t;
      var k :| 0 <= k < |buckets| && buckets[k] == b;
      assert BucketNames(buckets)[k] == t;
    }
  }

  function FindBucket(buckets: seq<TypeBucket>, t: string): (k: Option<nat>)
    ensures k.Some? ==> k.value < |buckets| && buckets[k.value].typeName == t
    ensures k.None? ==> forall b :: b in buckets ==> b.typeName != t
    decreases |buckets|
  {
    if buckets == [] then None
    else if buckets[|buckets| - 1].typeName == t then Some(|buckets| - 1)
    else FindBucket(buckets[..|buckets| - 1], t)
  }

  /**
   * The first loop of getGroupedEntries: one bucket per type key, in order of first
   * appearance (PHP arrays keep insertion order), holding that type's entries and
   * their total.
   */
  method BucketByType(entries: seq<Entry>) returns (buckets: seq<TypeBucket>)
    ensures BucketsOf(entries, buckets)
    ensures TypeNames(buckets) == TypeKeys(entries)
    ensures BucketNames(buckets) == TypeOrder(entries)
    ensures multiset(Sequences.FlatMap(buckets, BucketEntries)) == multiset(entries)
  {
    buckets := [];
    for i := 0 to |entries|
      invariant BucketsOf(entries[..i], buckets)
      invariant TypeNames(buckets) <= TypeKeys(entries[..i])
      invariant BucketNames(buckets) == TypeOrder(entries[..i])
    {
      buckets := AddEntry(entries, i, buckets);
    }
    assert entries[..|entries|] == entries;
    BucketsPartition(entries, buckets);
  }

  /**
   * One pass of that loop: find the bucket of the entry's type, creating it when the
   * type is new, then append the entry and add its amount.
   */
  method AddEntry(entries: seq<Entry>, i: nat, buckets: seq<TypeBucket>) returns (buckets': seq<TypeBucket>)
    requires i < |entries|
    requires BucketsOf(entries[..i], buckets) && TypeNames(buckets) <= TypeKeys(entries[..i])
    requires BucketNames(buckets) == TypeOrder(entries[..i])
    ensures BucketsOf(entries[..i + 1], buckets') && TypeNames(buckets') <= TypeKeys(entries[..i + 1])
    ensures BucketNames(buckets') == TypeOrder(entries[..i + 1])
  {
    var entry := entries[i];
    var t := TypeKey(entry);
    var k := FindBucket(buckets, t);
    buckets' := buckets;
    var idx: nat;
    if k.None? {
      NewBucket(entries, i, buckets);
      buckets' := buckets + [TypeBucket(t, [], 0)];
      idx := |buckets'| - 1;
    } else {
      idx := k.value;
      TypeKeysGrow(entries, i, buckets);
    }
    var b := buckets'[idx];
    var added := TypeBucket(b.typeName, b.entries + [entry], b.totalAmount + entry.amount);
    AddToBucket(entries, i, buckets', idx, added);
    if k.Some? {
      assert buckets[k.value] in buckets;
    }
    AddEntryNames(entries, i, buckets, buckets', idx, added, k.None?);
    buckets' := buckets'[idx := added];
  }

  lemma AddEntryNames(
    entries: seq<Entry>, i: nat, buckets: seq<TypeBucket>, grown: seq<TypeBucket>, idx: nat,
    added: TypeBucket, isNew: bool)
    requires i < |entries| && BucketNames(buckets) == TypeOrder(entries[..i])
    requires isNew ==> forall b :: b in buckets ==> b.typeName != TypeKey(entries[i])
    requires !isNew ==> exists b :: b in buckets && b.typeName == TypeKey(entries[i])
    requires grown == if isNew then buckets + [TypeBucket(TypeKey(entries[i]), [], 0)] else buckets
    requires idx < |grown| && added.typeName == grown[idx].typeName
    ensures BucketNames(grown[idx := added]) == TypeOrder(entries[..i + 1])
  {
    assert BucketNames(grown[idx := added]) == BucketNames(buckets) + (if isNew then [TypeKey(entries[i])] else []);
    BucketNamesStep(entries, i, buckets, grown[idx := added], isNew);
  }

  /**
   * `buckets` is the state of the first loop of getGroupedEntries after `prefix`:
   * names are distinct, every type seen has a bucket, each bucket holds exactly the
   * entries of its type with their total.
   */
  ghost predicate BucketsOf(prefix: seq<Entry>, buckets: seq<TypeBucket>)
  {
    && DistinctNames(buckets)
    && TypeKeys(prefix) <= TypeNames(buckets)
    && (forall b :: b in buckets ==>
          b.entries == FilterByType(prefix, b.typeName) && b.totalAmount == SumAmounts(b.entries))
  }

  ghost predicate DistinctNames(bs: seq<TypeBucket>)
  {
    forall i, j :: 0 <= i < j < |bs| ==> bs[i].typeName != bs[j].typeName
  }

  /** A type's filter holds every occurrence of the entries of that type and nothing else. */
  lemma {:induction false} FilterCount(es: seq<Entry>, t: string, x: Entry)
    ensures multiset(FilterByType(es, t))[x] == if TypeKey(x) == t then multiset(es)[x] else 0
    decreases |es|
  {
    if es != [] {
      var n := |es| - 1;
      FilterCount(es[..n], t, x);
      assert es == es[..n] + [es[n]];
    }
  }

  /** Buckets with distinct names, each holding its type's filter, hold those types' entries once each. */
  lemma {:induction false} BucketsCount(es: seq<Entry>, buckets: seq<TypeBucket>, x: Entry)
    requires DistinctNames(buckets)
    requires forall b :: b in buckets ==> b.entries == FilterByType(es, b.typeName)
    ensures multiset(Sequences.FlatMap(buckets, BucketEntries))[x]
         == if TypeKey(x) in TypeNames(buckets) then multiset(es)[x] else 0
    decreases |buckets|
  {
    if buckets != [] {
      var n := |buckets| - 1;
      var rest := buckets[..n];
      assert DistinctNames(rest);
      BucketsCount(es, rest, x);
      FilterCount(es, buckets[n].typeName, x);
      assert buckets == rest + [buckets[n]];
      TypeNamesAppend(rest, buckets[n]);
      if TypeKey(x) in TypeNames(rest) {
        var c :| c in rest && c.typeName == TypeKey(x);
        var m :| 0 <= m < n && rest[m] == c;
        assert buckets[m].typeName != buckets[n].typeName;
      }
    }
  }

  lemma BucketsPartition(es: seq<Entry>, buckets: seq<TypeBucket>)
    requires BucketsOf(es, buckets) && TypeNames(buckets) <= TypeKeys(es)
    ensures multiset(Sequences.FlatMap(buckets, BucketEntries)) == multiset(es)
  {
    forall x ensures multiset(Sequences.FlatMap(buckets, BucketEntries))[x] == multiset(es)[x] {
      BucketsCount(es, buckets, x);
      if x in es {
        assert TypeKey(x) in TypeKeys(es);
      }
    }
  }

  lemma TypeKeysStep(es: seq<Entry>, i: nat)
    requires i < |es|
    ensures TypeKeys(es[..i + 1]) == TypeKeys(es[..i]) + {TypeKey(es[i])}
  {
    assert es[..i + 1] == es[..i] + [es[i]];
    assert forall x :: x in es[..i + 1] <==> x in es[..i] || x == es[i];
  }

  /** Seeing one more entry only adds its type key. */
  lemma TypeKeysGrow(entries: seq<Entry>, i: nat, buckets: seq<TypeBucket>)
    requires i < |entries|
    requires TypeNames(buckets) <= TypeKeys(entries[..i])
    ensures TypeNames(buckets) <= TypeKeys(entries[..i + 1])
  {
    TypeKeysStep(entries, i);
  }

  lemma NewBucket(entries: seq<Entry>, i: nat, buckets: seq<TypeBucket>)
    requires i < |entries|
    requires BucketsOf(entries[..i], buckets) && TypeNames(buckets) <= TypeKeys(entries[..i])
    requires forall b :: b in buckets ==> b.typeName != TypeKey(entries[i])
    ensures BucketsOf(entries[..i], buckets + [TypeBucket(TypeKey(entries[i]), [], 0)])
    ensures TypeNames(buckets + [TypeBucket(TypeKey(entries[i]), [], 0)]) <= TypeKeys(entries[..i + 1])
  {
    var t := TypeKey(entries[i]);
    var nb := TypeBucket(t, [], 0);
    assert t !in TypeNames(buckets);
    FilterAbsent(entries[..i], t);
    TypeNamesAppend(buckets, nb);
    TypeKeysStep(entries, i);
    assert forall b :: b in buckets + [nb] <==> b in buckets || b == nb;
  }

  lemma AddToBucket(entries: seq<Entry>, i: nat, buckets: seq<TypeBucket>, idx: nat, added: TypeBucket)
    requires i < |entries| && BucketsOf(entries[..i], buckets)
    requires TypeNames(buckets) <= TypeKeys(entries[..i + 1])
    requires idx < |buckets| && buckets[idx].typeName == TypeKey(entries[i])
    requires added == TypeBucket(buckets[idx].typeName, buckets[idx].entries + [entries[i]],
                                 buckets[idx].totalAmount + entries[i].amount)
    ensures BucketsOf(entries[..i + 1], buckets[idx := added])
    ensures TypeNames(buckets[idx := added]) <= TypeKeys(entries[..i + 1])
  {
    DistinctNamesUpdate(buckets, idx, added);
    AddToBucketContents(entries, i, buckets, idx, added);
    TypeNamesUpdate(buckets, idx, added);
    TypeKeysStep(entries, i);
  }

  /** Replacing a bucket by one of the same name keeps the names distinct. */
  lemma DistinctNamesUpdate(bs: seq<TypeBucket>, idx: nat, nb: TypeBucket)
    requires DistinctNames(bs) && idx < |bs| && nb.typeName == bs[idx].typeName
    ensures DistinctNames(bs[idx := nb])
    ensures forall m :: 0 <= m < |bs| && m != idx ==> bs[m].typeName != nb.typeName
  {
  }

  lemma AddToBucketContents(entries: seq<Entry>, i: nat, buckets: seq<TypeBucket>, idx: nat, added: TypeBucket)
    requires i < |entries|
    requires forall b :: b in buckets ==>
      b.entries == FilterByType(entries[..i], b.typeName) && b.totalAmount == SumAmounts(b.entries)
    requires idx < |buckets| && buckets[idx].typeName == TypeKey(entries[i])
    requires forall m :: 0 <= m < |buckets| && m != idx ==> buckets[m].typeName != TypeKey(entries[i])
    requires added == TypeBucket(buckets[idx].typeName, buckets[idx].entries + [entries[i]],
                                 buckets[idx].totalAmount + entries[i].amount)
    ensures forall b :: b in buckets[idx := added] ==>
      b.entries == FilterByType(entries[..i + 1], b.typeName) && b.totalAmount == SumAmounts(b.entries)
  {
    var after := buckets[idx := added];
    SumAmountsAppend(buckets[idx].entries, entries[i]);
    forall c | c in after
      ensures c.entries == FilterByType(entries[..i + 1], c.typeName) && c.totalAmount == SumAmounts(c.entries)
    {
      var m :| 0 <= m < |after| && after[m] == c;
      FilterStep(entries, i, c.typeName);
      assert buckets[m] in buckets;
      if m != idx {
        assert buckets[m] == c;
      }
    }
  }

  function TypeGroupEntries(tg: TypeGroup): seq<Entry>
  {
    GroupedEntries(tg.groups)
  }

  predicate TypeBefore(a: TypeGroup, b: TypeGroup)
  {
    CompareAbsTotals(a.totalAmount, b.totalAmount) < 0
  }

  function TypeAbsTotal(tg: TypeGroup): real
  {
    Abs(tg.totalAmount) as real
  }

  ghost predicate TypeTotalsSeparated(tgs: seq<TypeGroup>)
  {
    forall i, j :: 0 <= i < |tgs| && 0 <= j < |tgs| ==>
      Abs(tgs[i].totalAmount) == Abs(tgs[j].totalAmount)
      || Abs(tgs[i].totalAmount) >= Abs(tgs[j].totalAmount) + 100
      || Abs(tgs[j].totalAmount) >= Abs(tgs[i].totalAmount) + 100
  }

  /** `tg` is the type group the second loop of getGroupedEntries builds from bucket `b`. */
  ghost predicate BuiltFrom(b: TypeBucket, tg: TypeGroup)
  {
    && tg.typeName == b.typeName
    && tg.totalAmount == b.totalAmount
    && IsSimilarityGrouping(b.entries, tg.groups)
  }

  lemma BuiltGroup(b: TypeBucket, groups: seq<SimilarityGroup>)
    requires var ok := IsSimilarityGrouping(b.entries, groups); ok
    ensures var built := BuiltFrom(b, TypeGroup(b.typeName, groups, b.totalAmount)); built
  {
  }

  /** Each of `unsorted` is built from the bucket at the same position. */
  ghost predicate AllBuilt(buckets: seq<TypeBucket>, unsorted: seq<TypeGroup>)
  {
    && |unsorted| <= |buckets|
    && forall k :: 0 <= k < |unsorted| ==> BuiltFrom(buckets[k], unsorted[k])
  }

  lemma AllBuiltStep(buckets: seq<TypeBucket>, unsorted: seq<TypeGroup>, tg: TypeGroup)
    requires |unsorted| < |buckets|
    requires var built := AllBuilt(buckets, unsorted); built
    requires var built := BuiltFrom(buckets[|unsorted|], tg); built
    ensures var built := AllBuilt(buckets, unsorted + [tg]); built
  {
    var u := unsorted + [tg];
    forall k | 0 <= k < |u| ensures BuiltFrom(buckets[k], u[k]) {
      if k < |unsorted| {
        assert u[k] == unsorted[k];
      }
    }
  }

  lemma TypeGroupsAppend(unsorted: seq<TypeGroup>, tg: TypeGroup)
    ensures multiset(Sequences.FlatMap(unsorted + [tg], TypeGroupEntries))
         == multiset(Sequences.FlatMap(unsorted, TypeGroupEntries)) + multiset(TypeGroupEntries(tg))
  {
    assert (unsorted + [tg])[..|unsorted|] == unsorted;
  }

  lemma BucketsPrefixStep(buckets: seq<TypeBucket>, i: nat)
    requires i < |buckets|
    ensures multiset(Sequences.FlatMap(buckets[..i + 1], BucketEntries))
         == multiset(Sequences.FlatMap(buckets[..i], BucketEntries)) + multiset(buckets[i].entries)
  {
    assert buckets[..i + 1][..i] == buckets[..i];
  }

  /** The entries of a type group are those of the bucket it is built from, regrouped. */
  lemma BuiltEntries(b: TypeBucket, tg: TypeGroup)
    requires BuiltFrom(b, tg)
    ensures multiset(TypeGroupEntries(tg)) == multiset(b.entries)
  {
  }

  /** The state of the second loop of getGroupedEntries after the first `i` buckets. */
  ghost predicate BuildInv(entries: seq<Entry>, buckets: seq<TypeBucket>, i: nat, unsorted: seq<TypeGroup>)
  {
    && i <= |buckets|
    && |unsorted| == i
    && AllBuilt(buckets, unsorted)
    && multiset(Sequences.FlatMap(unsorted, TypeGroupEntries))
       == multiset(Sequences.FlatMap(buckets[..i], BucketEntries))
  }

  /** One iteration of the loop over the buckets: group the i-th bucket's entries. */
  method BuildOne(entries: seq<Entry>, buckets: seq<TypeBucket>, i: nat, unsorted: seq<TypeGroup>)
    returns (unsorted': seq<TypeGroup>)
    requires DistinctIds(entries)
    requires i < |buckets|
    requires buckets[i].entries == FilterByType(entries, buckets[i].typeName)
    requires var inv := BuildInv(entries, buckets, i, unsorted); inv
    ensures var inv := BuildInv(entries, buckets, i + 1, unsorted'); inv
  {
    var b := buckets[i];
    FilterKeepsDistinct(entries, b.typeName);
    var groups := GroupEntriesBySimilarity(b.entries);
    var tg := TypeGroup(b.typeName, groups, b.totalAmount);
    BuiltGroup(b, groups);
    BuildStep(entries, buckets, i, unsorted, tg);
    unsorted' := unsorted + [tg];
  }

  lemma BuildStep(entries: seq<Entry>, buckets: seq<TypeBucket>, i: nat, unsorted: seq<TypeGroup>, tg: TypeGroup)
    requires i < |buckets|
    requires var inv := BuildInv(entries, buckets, i, unsorted); inv
    requires var built := BuiltFrom(buckets[i], tg); built
    ensures var inv := BuildInv(entries, buckets, i + 1, unsorted + [tg]); inv
  {
    AllBuiltStep(buckets, unsorted, tg);
    TypeGroupsAppend(unsorted, tg);
    BucketsPrefixStep(buckets, i);
    BuiltEntries(buckets[i], tg);
  }

  ghost predicate BucketsFiltered(entries: seq<Entry>, buckets: seq<TypeBucket>)
  {
    forall b :: b in buckets ==> b.entries == FilterByType(entries, b.typeName)
  }

  lemma BucketFilteredAt(entries: seq<Entry>, buckets: seq<TypeBucket>, i: nat)
    requires BucketsFiltered(entries, buckets) && i < |buckets|
    ensures buckets[i].entries == FilterByType(entries, buckets[i].typeName)
  {
    assert buckets[i] in buckets;
  }

  /** The second loop of getGroupedEntries: one type group per bucket, in bucket order. */
  method BuildTypeGroups(entries: seq<Entry>, buckets: seq<TypeBucket>) returns (unsorted: seq<TypeGroup>)
    requires DistinctIds(entries)
    requires BucketsFiltered(entries, buckets)
    ensures |unsorted| == |buckets|
    ensures var built := AllBuilt(buckets, unsorted); built
    ensures multiset(Sequences.FlatMap(unsorted, TypeGroupEntries))
         == multiset(Sequences.FlatMap(buckets, BucketEntries))
  {
    unsorted := [];
    var i := 0;
    while i < |buckets|
      invariant i <= |buckets|
      invariant var inv := BuildInv(entries, buckets, i, unsorted); inv
    {
      BucketFilteredAt(entries, buckets, i);
      unsorted := BuildOne(entries, buckets, i, unsorted);
      i := i + 1;
    }
    BuildDone(entries, buckets, unsorted);
  }

  lemma BuildDone(entries: seq<Entry>, buckets: seq<TypeBucket>, unsorted: seq<TypeGroup>)
    requires var inv := BuildInv(entries, buckets, |buckets|, unsorted); inv
    ensures |unsorted| == |buckets|
    ensures var built := AllBuilt(buckets, unsorted); built
    ensures multiset(Sequences.FlatMap(unsorted, TypeGroupEntries))
         == multiset(Sequences.FlatMap(buckets, BucketEntries))
  {
    assert buckets[..|buckets|] == buckets;
  }

  /**
   * getGroupedEntries over a file's entries (already ordered by transaction date):
   * one type group per type key, each grouping exactly that type's entries by
   * similarity, with the type's total of raw amounts, sorted by absolute total with
   * the truncating comparator. The last clause, on the order of types whose totals
   * tie, is a property of the stable insertion sort that stands for usort.
   */
  method GetGroupedEntries(entries: seq<Entry>) returns (result: seq<TypeGroup>)
    requires DistinctIds(entries)
    ensures multiset(Sequences.FlatMap(result, TypeGroupEntries)) == multiset(entries)
    ensures forall i, j :: 0 <= i < j < |result| ==> result[i].typeName != result[j].typeName
    ensures TypeGroupNames(result) == TypeKeys(entries)
    ensures forall tg :: tg in result ==>
      && IsSimilarityGrouping(FilterByType(entries, tg.typeName), tg.groups)
      && tg.totalAmount == SumAmounts(FilterByType(entries, tg.typeName))
    ensures StableSort.NoAdjacentInversion(result, TypeBefore)
    ensures TypeTotalsSeparated(result) ==> StableSort.DescendingBy(result, TypeAbsTotal)
    ensures forall p, q, i, j ::
      (0 <= p < q < |result| && 0 <= i < j < |TypeOrder(entries)|
       && result[p].typeName == TypeOrder(entries)[j] && result[q].typeName == TypeOrder(entries)[i]) ==>
      TypeBefore(result[p], result[q])
  {
    var buckets := BucketByType(entries);
    var unsorted := BuildTypeGroups(entries, buckets);
    result := StableSort.Sort(unsorted, TypeBefore);
    SortedTypeFacts(entries, buckets, unsorted, result);
  }

  function TypeGroupNames(tgs: seq<TypeGroup>): set<string>
  {
    set tg | tg in tgs :: tg.typeName
  }

  lemma SortedTypeFacts(
    entries: seq<Entry>, buckets: seq<TypeBucket>, unsorted: seq<TypeGroup>, result: seq<TypeGroup>)
    requires result == StableSort.Sort(unsorted, TypeBefore)
    requires BucketsOf(entries, buckets) && TypeNames(buckets) == TypeKeys(entries)
    requires BucketNames(buckets) == TypeOrder(entries)
    requires multiset(Sequences.FlatMap(buckets, BucketEntries)) == multiset(entries)
    requires |unsorted| == |buckets|
    requires var built := AllBuilt(buckets, unsorted); built
    requires multiset(Sequences.FlatMap(unsorted, TypeGroupEntries))
          == multiset(Sequences.FlatMap(buckets, BucketEntries))
    ensures multiset(Sequences.FlatMap(result, TypeGroupEntries)) == multiset(entries)
    ensures forall i, j :: 0 <= i < j < |result| ==> result[i].typeName != result[j].typeName
    ensures TypeGroupNames(result) == TypeKeys(entries)
    ensures forall tg :: tg in result ==>
      && IsSimilarityGrouping(FilterByType(entries, tg.typeName), tg.groups)
      && tg.totalAmount == SumAmounts(FilterByType(entries, tg.typeName))
    ensures StableSort.NoAdjacentInversion(result, TypeBefore)
    ensures TypeTotalsSeparated(result) ==> StableSort.DescendingBy(result, TypeAbsTotal)
    ensures forall p, q, i, j ::
      (0 <= p < q < |result| && 0 <= i < j < |TypeOrder(entries)|
       && result[p].typeName == TypeOrder(entries)[j] && result[q].typeName == TypeOrder(entries)[i]) ==>
      TypeBefore(result[p], result[q])
  {
    Sequences.FlatMapPermutation(result, unsorted, TypeGroupEntries);
    AllBuiltNames(buckets, unsorted);
    assert forall i, j :: 0 <= i < j < |unsorted| ==> unsorted[i].typeName != unsorted[j].typeName by {
      assert DistinctNames(buckets);
    }
    DistinctNamesPermutation(unsorted, result);
    assert TypeGroupNames(result) == TypeKeys(entries) by {
      SameNames(buckets, unsorted);
      PermutationNames(unsorted, result);
    }
    SortedGroupsBuilt(entries, buckets, unsorted, result);
    SortedTypeOrder(unsorted, result);
    TieOrderFromBuckets(entries, buckets, unsorted, result);
  }

  lemma TieOrderFromBuckets(entries: seq<Entry>, buckets: seq<TypeBucket>, unsorted: seq<TypeGroup>, result: seq<TypeGroup>)
    requires result == StableSort.Sort(unsorted, TypeBefore)
    requires |unsorted| == |buckets| && forall k :: 0 <= k < |unsorted| ==> unsorted[k].typeName == buckets[k].typeName
    requires BucketNames(buckets) == TypeOrder(entries)
    ensures forall p, q, i, j ::
      (0 <= p < q < |result| && 0 <= i < j < |TypeOrder(entries)|
       && result[p].typeName == TypeOrder(entries)[j] && result[q].typeName == TypeOrder(entries)[i]) ==>
      TypeBefore(result[p], result[q])
  {
    UnsortedInTypeOrder(entries, buckets, unsorted);
    SortedTieOrder(TypeOrder(entries), unsorted, result);
  }

  /** Before the sort, the type groups follow the first appearance of their types. */
  lemma UnsortedInTypeOrder(entries: seq<Entry>, buckets: seq<TypeBucket>, unsorted: seq<TypeGroup>)
    requires |unsorted| == |buckets| && forall k :: 0 <= k < |unsorted| ==> unsorted[k].typeName == buckets[k].typeName
    requires BucketNames(buckets) == TypeOrder(entries)
    ensures |unsorted| == |TypeOrder(entries)|
    ensures forall k :: 0 <= k < |unsorted| ==> unsorted[k].typeName == TypeOrder(entries)[k]
    ensures forall i, j :: 0 <= i < j < |TypeOrder(entries)| ==> TypeOrder(entries)[i] != TypeOrder(entries)[j]
  {
    TypeOrderDistinct(entries);
  }

  /**
   * Stability on type groups: a type group whose name comes later in `order` sits
   * ahead of one whose name comes earlier only when the comparator puts it there.
   */
  lemma SortedTieOrder(order: seq<string>, unsorted: seq<TypeGroup>, result: seq<TypeGroup>)
    requires result == StableSort.Sort(unsorted, TypeBefore)
    requires |unsorted| == |order| && forall k :: 0 <= k < |order| ==> unsorted[k].typeName == order[k]
    requires forall i, j :: 0 <= i < j < |order| ==> order[i] != order[j]
    ensures forall p, q, i, j ::
      (0 <= p < q < |result| && 0 <= i < j < |order|
       && result[p].typeName == order[j] && result[q].typeName == order[i]) ==>
      TypeBefore(result[p], result[q])
  {
    assert forall i, j :: 0 <= i < j < |unsorted| ==> unsorted[i] != unsorted[j];
    StableSort.SortStable(unsorted, TypeBefore);
    forall p, q, i, j | 0 <= p < q < |result| && 0 <= i < j < |order|
        && result[p].typeName == order[j] && result[q].typeName == order[i]
      ensures TypeBefore(result[p], result[q])
    {
      PlacedByName(order, unsorted, result, p, j);
      PlacedByName(order, unsorted, result, q, i);
      assert StableSort.StableFor(unsorted, result, TypeBefore);
      assert result[p] == unsorted[j] && result[q] == unsorted[i];
    }
  }

  /** With distinct names, the sorted group named `order[j]` is the j-th unsorted one. */
  lemma PlacedByName(order: seq<string>, unsorted: seq<TypeGroup>, result: seq<TypeGroup>, p: nat, j: nat)
    requires multiset(result) == multiset(unsorted)
    requires |unsorted| == |order| && forall k :: 0 <= k < |order| ==> unsorted[k].typeName == order[k]
    requires forall i, j :: 0 <= i < j < |order| ==> order[i] != order[j]
    requires p < |result| && j < |order| && result[p].typeName == order[j]
    ensures result[p] == unsorted[j]
  {
    assert result[p] in multiset(unsorted);
    var m :| 0 <= m < |unsorted| && unsorted[m] == result[p];
    assert unsorted[m].typeName == order[j];
  }

  /** Type groups keep the names and totals of the buckets they are built from. */
  lemma AllBuiltNames(buckets: seq<TypeBucket>, unsorted: seq<TypeGroup>)
    requires |unsorted| == |buckets|
    requires var built := AllBuilt(buckets, unsorted); built
    ensures forall k :: 0 <= k < |unsorted| ==>
      unsorted[k].typeName == buckets[k].typeName && unsorted[k].totalAmount == buckets[k].totalAmount
  {
    forall k | 0 <= k < |unsorted|
      ensures unsorted[k].typeName == buckets[k].typeName && unsorted[k].totalAmount == buckets[k].totalAmount
    {
      assert BuiltFrom(buckets[k], unsorted[k]);
    }
  }

  lemma SameNames(buckets: seq<TypeBucket>, unsorted: seq<TypeGroup>)
    requires |unsorted| == |buckets|
    requires forall k :: 0 <= k < |unsorted| ==> unsorted[k].typeName == buckets[k].typeName
    ensures TypeGroupNames(unsorted) == TypeNames(buckets)
  {
    forall t | t in TypeGroupNames(unsorted) ensures t in TypeNames(buckets) {
      var tg :| tg in unsorted && tg.typeName == t;
      var k :| 0 <= k < |unsorted| && unsorted[k] == tg;
      assert buckets[k] in buckets;
    }
    forall t | t in TypeNames(buckets) ensures t in TypeGroupNames(unsorted) {
      var b :| b in buckets && b.typeName == t;
      var k :| 0 <= k < |buckets| && buckets[k] == b;
      assert unsorted[k] in unsorted;
    }
  }

  lemma PermutationNames(a: seq<TypeGroup>, b: seq<TypeGroup>)
    requires multiset(a) == multiset(b)
    ensures TypeGroupNames(a) == TypeGroupNames(b)
  {
    forall t | t in TypeGroupNames(a) ensures t in TypeGroupNames(b) {
      var tg :| tg in a && tg.typeName == t;
      assert tg in multiset(b);
    }
    forall t | t in TypeGroupNames(b) ensures t in TypeGroupNames(a) {
      var tg :| tg in b && tg.typeName == t;
      assert tg in multiset(a);
    }
  }

  /** A permutation of type groups with distinct names has distinct names. */
  lemma DistinctNamesPermutation(a: seq<TypeGroup>, b: seq<TypeGroup>)
    requires multiset(a) == multiset(b)
    requires forall i, j :: 0 <= i < j < |a| ==> a[i].typeName != a[j].typeName
    ensures forall i, j :: 0 <= i < j < |b| ==> b[i].typeName != b[j].typeName
  {
    forall i, j | 0 <= i < j < |b| ensures b[i].typeName != b[j].typeName {
      if b[i].typeName == b[j].typeName {
        assert b[i] in multiset(a) && b[j] in multiset(a);
        var ki :| 0 <= ki < |a| && a[ki] == b[i];
        var kj :| 0 <= kj < |a| && a[kj] == b[j];
        assert ki == kj;
        UniqueByName(a, ki);
        CountAtLeastTwo(b, i, j);
      }
    }
  }

  lemma CountAtLeastTwo<T>(s: seq<T>, i: nat, j: nat)
    requires i < j < |s|
    ensures s[i] == s[j] ==> multiset(s)[s[i]] >= 2
  {
    assert s == s[..j] + [s[j]] + s[j + 1..];
    assert s[i] in s[..j];
  }

  /** Type names are distinct, so no type group occurs twice. */
  lemma UniqueByName(a: seq<TypeGroup>, k: nat)
    requires k < |a|
    requires forall i, j :: 0 <= i < j < |a| ==> a[i].typeName != a[j].typeName
    ensures multiset(a)[a[k]] == 1
  {
    var x := a[k];
    assert a == a[..k] + [x] + a[k + 1..];
    forall m | 0 <= m < |a| && m != k ensures a[m] != x {
      if m < k {
        assert a[m].typeName != a[k].typeName;
      } else {
        assert a[k].typeName != a[m].typeName;
      }
    }
    assert x !in a[..k];
    assert x !in a[k + 1..];
    assert x !in multiset(a[..k] + a[k + 1..]);
    assert multiset(a) == multiset(a[..k] + a[k + 1..]) + multiset{x};
  }

  /** Each sorted type group groups exactly its type's entries, with their total. */
  lemma SortedGroupsBuilt(
    entries: seq<Entry>, buckets: seq<TypeBucket>, unsorted: seq<TypeGroup>, result: seq<TypeGroup>)
    requires multiset(result) == multiset(unsorted)
    requires BucketsOf(entries, buckets)
    requires |unsorted| == |buckets|
    requires var built := AllBuilt(buckets, unsorted); built
    ensures forall tg :: tg in result ==>
      && IsSimilarityGrouping(FilterByType(entries, tg.typeName), tg.groups)
      && tg.totalAmount == SumAmounts(FilterByType(entries, tg.typeName))
  {
    forall tg | tg in result
      ensures IsSimilarityGrouping(FilterByType(entries, tg.typeName), tg.groups)
      ensures tg.totalAmount == SumAmounts(FilterByType(entries, tg.typeName))
    {
      assert tg in multiset(unsorted);
      var k :| 0 <= k < |unsorted| && unsorted[k] == tg;
      assert BuiltFrom(buckets[k], unsorted[k]);
      assert buckets[k] in buckets;
    }
  }

  /** The sort's ordering guarantees on type groups. */
  lemma SortedTypeOrder(unsorted: seq<TypeGroup>, result: seq<TypeGroup>)
    requires result == StableSort.Sort(unsorted, TypeBefore)
    ensures StableSort.NoAdjacentInversion(result, TypeBefore)
    ensures TypeTotalsSeparated(result) ==> StableSort.DescendingBy(result, TypeAbsTotal)
  {
    forall a: TypeGroup, b: TypeGroup | TypeBefore(a, b) ensures !TypeBefore(b, a) {
      CompareAbsTotalsMeaning(a.totalAmount, b.totalAmount);
      CompareAbsTotalsMeaning(b.totalAmount, a.totalAmount);
    }
    StableSort.SortNoAdjacentInversion(unsorted, TypeBefore);
    if TypeTotalsSeparated(result) {
      forall x, y | x in unsorted && y in unsorted
        ensures TypeBefore(x, y) <==> TypeAbsTotal(x) > TypeAbsTotal(y)
      {
        assert x in multiset(result) && y in multiset(result);
        var i :| 0 <= i < |result| && result[i] == x;
        var j :| 0 <= j < |result| && result[j] == y;
        CompareAbsTotalsMeaning(x.totalAmount, y.totalAmount);
      }
      StableSort.SortDescending(unsorted, TypeBefore, TypeAbsTotal);
    }
  }
}
