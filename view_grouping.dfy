/**
 * processEntries of the entry list page (resources/js/Pages/Csv/View.jsx): entries
 * with a blank description are set apart, the others are collected under their
 * getEntriesKey in the plain object `groupedData`, the keys seen more than once
 * become group rows, and the list is the groups, then the entries whose key no
 * group shares, then the blank ones.
 *
 * `groupedData` is modelled as the sequence of its values in key insertion order;
 * `Grouped` states which groups the `forEach` loop leaves in it.
 */
module ViewGrouping {
  import opened Wrappers
  import opened Sequences
  import opened View

  /** The property name `groupedData[key]` uses: the key, or "null" for a null key. */
  function PropertyKey(e: JsEntry): string
  {
    match GetEntriesKey(e)
    case Some(k) => k
    case None => "null"
  }

  function Children(g: Group): seq<JsEntry>
  {
    g.children
  }

  /** The entries with property key `k`, in their order. */
  function WithKey(es: seq<JsEntry>, key: JsEntry -> string, k: string): (r: seq<JsEntry>)
    ensures forall i :: 0 <= i < |r| ==> key(r[i]) == k
    decreases |es|
  {
    if es == [] then []
    else
      var last := es[|es| - 1];
      WithKey(es[..|es| - 1], key, k) + (if key(last) == k then [last] else [])
  }

  lemma WithKeyAppend(es: seq<JsEntry>, key: JsEntry -> string, e: JsEntry, k: string)
    ensures WithKey(es + [e], key, k) == WithKey(es, key, k) + (if key(e) == k then [e] else [])
  {
    assert (es + [e])[..|es|] == es;
  }

  /** An entry is among those with key `k` as often as in the list when its key is `k`, else never. */
  lemma {:induction false} WithKeyCount(es: seq<JsEntry>, key: JsEntry -> string, k: string, x: JsEntry)
    ensures multiset(WithKey(es, key, k))[x] == if key(x) == k then multiset(es)[x] else 0
    decreases |es|
  {
    if es != [] {
      var init := es[..|es| - 1];
      assert es == init + [es[|es| - 1]];
      WithKeyCount(init, key, k, x);
    }
  }

  /** The distinct property keys of `es`, in the order they first occur. */
  function KeyOrder(es: seq<JsEntry>, key: JsEntry -> string): (r: seq<string>)
    ensures forall i, j :: 0 <= i < j < |r| ==> r[i] != r[j]
    decreases |es|
  {
    if es == [] then []
    else
      var r := KeyOrder(es[..|es| - 1], key);
      var k := key(es[|es| - 1]);
      if k in r then r else r + [k]
  }

  lemma KeyOrderAppend(es: seq<JsEntry>, key: JsEntry -> string, e: JsEntry)
    ensures KeyOrder(es + [e], key)
         == if key(e) in KeyOrder(es, key) then KeyOrder(es, key) else KeyOrder(es, key) + [key(e)]
  {
    assert (es + [e])[..|es|] == es;
  }

  /** A key is listed exactly when some entry has it. */
  lemma {:induction false} KeyOrderHas(es: seq<JsEntry>, key: JsEntry -> string, k: string)
    ensures k in KeyOrder(es, key) <==> WithKey(es, key, k) != []
    decreases |es|
  {
    if es != [] {
      var init := es[..|es| - 1];
      var e := es[|es| - 1];
      assert es == init + [e];
      KeyOrderHas(init, key, k);
      KeyOrderAppend(init, key, e);
      WithKeyAppend(init, key, e, k);
    }
  }

  /** Every listed key has an entry. */
  lemma KeyOrderNonEmpty(es: seq<JsEntry>, key: JsEntry -> string)
    ensures forall i :: 0 <= i < |KeyOrder(es, key)| ==> WithKey(es, key, KeyOrder(es, key)[i]) != []
  {
    forall i | 0 <= i < |KeyOrder(es, key)| ensures WithKey(es, key, KeyOrder(es, key)[i]) != [] {
      KeyOrderHas(es, key, KeyOrder(es, key)[i]);
    }
  }

  function SumAmounts(es: seq<JsEntry>): real
    decreases |es|
  {
    if es == [] then 0.0 else SumAmounts(es[..|es| - 1]) + es[|es| - 1].amount
  }

  /** The record a key's first entry creates in `groupedData`. */
  function NewGroup(e: JsEntry, k: string): Group
  {
    Group(k, e.description, e.recipient, e.amount, 1, [e])
  }

  /** A further entry with the key: one more in the count, its amount added, appended. */
  function AddToGroup(g: Group, e: JsEntry): Group
  {
    g.(count := g.count + 1, amount := g.amount + e.amount, children := g.children + [e])
  }

  /**
   * What `groupedData[k]` holds once every entry is seen: all entries with key `k`
   * in order, their number and total, and the texts of the first of them.
   */
  function GroupFor(es: seq<JsEntry>, key: JsEntry -> string, k: string): Group
    requires WithKey(es, key, k) != []
  {
    var c := WithKey(es, key, k);
    Group(k, c[0].description, c[0].recipient, SumAmounts(c), |c|, c)
  }

  function GroupsFor(es: seq<JsEntry>, key: JsEntry -> string, ks: seq<string>): (r: seq<Group>)
    requires forall i :: 0 <= i < |ks| ==> WithKey(es, key, ks[i]) != []
    ensures |r| == |ks|
    ensures forall i :: 0 <= i < |ks| ==> r[i] == GroupFor(es, key, ks[i])
    decreases |ks|
  {
    if ks == [] then [] else GroupsFor(es, key, ks[..|ks| - 1]) + [GroupFor(es, key, ks[|ks| - 1])]
  }

  /** `Object.values(groupedData)` after the loop: one group per key, keys in first-seen order. */
  function Grouped(es: seq<JsEntry>, key: JsEntry -> string): seq<Group>
  {
    KeyOrderNonEmpty(es, key);
    GroupsFor(es, key, KeyOrder(es, key))
  }

  /** `groupedData[key]`: the index of the group stored under `key`, if any. */
  function FindGroup(groups: seq<Group>, key: string): (r: Option<nat>)
    ensures r.Some? ==> r.value < |groups| && groups[r.value].groupId == key
    ensures r.None? ==> forall i :: 0 <= i < |groups| ==> groups[i].groupId != key
    decreases |groups|
  {
    if groups == [] then None
    else if groups[|groups| - 1].groupId == key then Some(|groups| - 1)
    else FindGroup(groups[..|groups| - 1], key)
  }

  lemma SumAmountsAppend(es: seq<JsEntry>, e: JsEntry)
    ensures SumAmounts(es + [e]) == SumAmounts(es) + e.amount
  {
    assert (es + [e])[..|es|] == es;
  }

  /** An entry whose key is stored already is added to that key's group. */
  lemma GroupForAppendSame(es: seq<JsEntry>, key: JsEntry -> string, e: JsEntry)
    requires WithKey(es, key, key(e)) != []
    ensures GroupFor(es + [e], key, key(e)) == AddToGroup(GroupFor(es, key, key(e)), e)
  {
    WithKeyAppend(es, key, e, key(e));
    GroupOfAppend(WithKey(es, key, key(e)), e, key(e));
  }

  /** The group of a list of entries, with one more entry at its end. */
  lemma GroupOfAppend(c: seq<JsEntry>, e: JsEntry, k: string)
    requires c != []
    ensures var c' := c + [e];
      Group(k, c'[0].description, c'[0].recipient, SumAmounts(c'), |c'|, c')
      == AddToGroup(Group(k, c[0].description, c[0].recipient, SumAmounts(c), |c|, c), e)
  {
    SumAmountsAppend(c, e);
  }

  /** An entry whose key is new starts that key's group. */
  lemma GroupForAppendNew(es: seq<JsEntry>, key: JsEntry -> string, e: JsEntry)
    requires WithKey(es, key, key(e)) == []
    ensures WithKey(es + [e], key, key(e)) != [] && GroupFor(es + [e], key, key(e)) == NewGroup(e, key(e))
  {
    WithKeyAppend(es, key, e, key(e));
    assert WithKey(es + [e], key, key(e)) == [e];
    assert SumAmounts([e]) == e.amount by {
      SumAmountsAppend([], e);
      assert [] + [e] == [e];
    }
  }

  /** The groups of the other keys do not change. */
  lemma GroupForAppendOther(es: seq<JsEntry>, key: JsEntry -> string, e: JsEntry, k: string)
    requires WithKey(es, key, k) != [] && k != key(e)
    ensures WithKey(es + [e], key, k) != [] && GroupFor(es + [e], key, k) == GroupFor(es, key, k)
  {
    WithKeyAppend(es, key, e, k);
    assert WithKey(es + [e], key, k) == WithKey(es, key, k);
  }

  /** The loop step for an entry whose key `groupedData` holds at index `j`. */
  lemma GroupedAppendExisting(es: seq<JsEntry>, key: JsEntry -> string, e: JsEntry, j: nat)
    requires j < |Grouped(es, key)| && Grouped(es, key)[j].groupId == key(e)
    ensures Grouped(es + [e], key) == Grouped(es, key)[j := AddToGroup(Grouped(es, key)[j], e)]
  {
    var ks := KeyOrder(es, key);
    KeyOrderAppend(es, key, e);
    KeyOrderNonEmpty(es, key);
    assert ks[j] == key(e);
    var g := Grouped(es, key);
    var g' := Grouped(es + [e], key);
    forall i | 0 <= i < |ks| ensures g'[i] == g[j := AddToGroup(g[j], e)][i] {
      if i == j {
        GroupForAppendSame(es, key, e);
      } else {
        GroupForAppendOther(es, key, e, ks[i]);
      }
    }
  }

  /** The loop step for an entry whose key `groupedData` does not hold yet. */
  lemma GroupedAppendNew(es: seq<JsEntry>, key: JsEntry -> string, e: JsEntry)
    requires forall i :: 0 <= i < |Grouped(es, key)| ==> Grouped(es, key)[i].groupId != key(e)
    ensures Grouped(es + [e], key) == Grouped(es, key) + [NewGroup(e, key(e))]
  {
    var ks := KeyOrder(es, key);
    assert key(e) !in ks by {
      forall i | 0 <= i < |ks| ensures ks[i] != key(e) {
        assert Grouped(es, key)[i].groupId == ks[i];
      }
    }
    KeyOrderHas(es, key, key(e));
    KeyOrderAppend(es, key, e);
    KeyOrderNonEmpty(es, key);
    var g := Grouped(es, key);
    var g' := Grouped(es + [e], key);
    forall i | 0 <= i < |ks| + 1 ensures g'[i] == (g + [NewGroup(e, key(e))])[i] {
      if i == |ks| {
        GroupForAppendNew(es, key, e);
      } else {
        GroupForAppendOther(es, key, e, ks[i]);
      }
    }
  }

  /**
   * The `validEntries.forEach` loop that fills `groupedData`, for the key function
   * `key` (the page passes getEntriesKey, see `PropertyKey`).
   */
  method GroupByKey(entries: seq<JsEntry>, key: JsEntry -> string) returns (groups: seq<Group>)
    ensures groups == Grouped(entries, key)
  {
    groups := [];
    var i := 0;
    while i < |entries|
      invariant 0 <= i <= |entries|
      invariant groups == Grouped(entries[..i], key)
    {
      groups := GroupOne(entries, key, i, groups);
      i := i + 1;
    }
    assert entries[..i] == entries;
  }

  /** One iteration of the forEach loop: add `entries[i]` to its group or open a new one. */
  method GroupOne(entries: seq<JsEntry>, key: JsEntry -> string, i: nat, groups: seq<Group>)
    returns (groups': seq<Group>)
    requires i < |entries| && groups == Grouped(entries[..i], key)
    ensures groups' == Grouped(entries[..i + 1], key)
  {
    var entry := entries[i];
    var k := key(entry);
    assert entries[..i + 1] == entries[..i] + [entry];
    var j := FindGroup(groups, k);
    if j.Some? {
      GroupedAppendExisting(entries[..i], key, entry, j.value);
      groups' := groups[j.value := AddToGroup(groups[j.value], entry)];
    } else {
      GroupedAppendNew(entries[..i], key, entry);
      groups' := groups + [NewGroup(entry, k)];
    }
  }

  // ---------------------------------------------------------------------------
  // What the groups hold
  // ---------------------------------------------------------------------------

  /** No two groups share a key. */
  lemma GroupedDistinct(es: seq<JsEntry>, key: JsEntry -> string)
    ensures forall i, j :: 0 <= i < j < |Grouped(es, key)| ==> Grouped(es, key)[i].groupId != Grouped(es, key)[j].groupId
  {
  }

  /** There is a group for a key exactly when some entry has that key. */
  lemma GroupedKeys(es: seq<JsEntry>, key: JsEntry -> string, k: string)
    ensures (exists i :: 0 <= i < |Grouped(es, key)| && Grouped(es, key)[i].groupId == k) <==> WithKey(es, key, k) != []
  {
    var ks := KeyOrder(es, key);
    KeyOrderHas(es, key, k);
    KeyOrderNonEmpty(es, key);
    if k in ks {
      var i :| 0 <= i < |ks| && ks[i] == k;
      assert Grouped(es, key)[i].groupId == k;
    }
  }

  /**
   * Every group holds all the entries with its key, in order, and its count and
   * amount are their number and total.
   */
  lemma GroupedContents(es: seq<JsEntry>, key: JsEntry -> string, i: nat)
    requires i < |Grouped(es, key)|
    ensures var g := Grouped(es, key)[i];
      && g.children == WithKey(es, key, g.groupId) && g.children != []
      && g.count == |g.children| && g.amount == SumAmounts(g.children)
      && g.description == g.children[0].description && g.recipient == g.children[0].recipient
  {
    KeyOrderNonEmpty(es, key);
  }

  /** Together the groups hold every entry exactly as often as the list does. */
  lemma {:induction false} GroupedKeepsEntries(es: seq<JsEntry>, key: JsEntry -> string)
    ensures multiset(FlatMap(Grouped(es, key), Children)) == multiset(es)
    decreases |es|
  {
    if es != [] {
      var init := es[..|es| - 1];
      var e := es[|es| - 1];
      assert es == init + [e];
      GroupedKeepsEntries(init, key);
      var g := Grouped(init, key);
      var j := FindGroup(g, key(e));
      if j.Some? {
        GroupedAppendExisting(init, key, e, j.value);
        FlatMapUpdateAppend(g, j.value, AddToGroup(g[j.value], e), e, Children);
      } else {
        GroupedAppendNew(init, key, e);
        FlatMapConcat(g, [NewGroup(e, key(e))], Children);
        assert FlatMap([NewGroup(e, key(e))], Children) == [e] by {
          assert [NewGroup(e, key(e))][..0] == [];
        }
      }
    }
  }

  // ---------------------------------------------------------------------------
  // processEntries on one list
  // ---------------------------------------------------------------------------

  /** `emptyDescEntries`: the entries whose description is absent or blank. */
  function Blanks(es: seq<JsEntry>): seq<JsEntry>
  {
    Filter(es, (e: JsEntry) => IsBlank(e.description))
  }

  /** `validEntries`: the entries with a description that is not blank. */
  function Valids(es: seq<JsEntry>): seq<JsEntry>
  {
    Filter(es, (e: JsEntry) => !IsBlank(e.description))
  }

  /** `.filter(group => group.count > 1)`. */
  function Repeated(groups: seq<Group>): seq<Group>
  {
    Filter(groups, (g: Group) => g.count > 1)
  }

  /** `group.children.some(child => getEntriesKey(child) === getEntriesKey(entry))`. */
  predicate SharesKey(children: seq<JsEntry>, e: JsEntry)
  {
    exists i :: 0 <= i < |children| && GetEntriesKey(children[i]) == GetEntriesKey(e)
  }

  /** `groupedEntries.some(group => ...)`. */
  predicate AnyGroupShares(groups: seq<Group>, e: JsEntry)
  {
    exists i :: 0 <= i < |groups| && SharesKey(groups[i].children, e)
  }

  /** `singleEntries`: the valid entries whose key no listed group shares. */
  function Singles(valid: seq<JsEntry>, groups: seq<Group>): seq<JsEntry>
  {
    Filter(valid, (e: JsEntry) => !AnyGroupShares(groups, e))
  }

  function GroupItems(groups: seq<Group>): (r: seq<Item>)
    ensures |r| == |groups| && forall i :: 0 <= i < |groups| ==> r[i] == GroupItem(groups[i])
  {
    seq(|groups|, i requires 0 <= i < |groups| => GroupItem(groups[i]))
  }

  /** `[...groupedEntries, ...singleEntries, ...emptyDescEntries]` for the entries `es`. */
  function Processed(es: seq<JsEntry>): seq<Item>
  {
    var valid := Valids(es);
    var repeated := Repeated(Grouped(valid, PropertyKey));
    GroupItems(repeated) + AsItems(Singles(valid, repeated)) + AsItems(Blanks(es))
  }

  /** processEntries on one list of entries. */
  method ProcessList(es: seq<JsEntry>) returns (items: seq<Item>)
    ensures items == Processed(es)
  {
    var emptyDesc := Blanks(es);
    var valid := Valids(es);
    var groupedData := GroupByKey(valid, PropertyKey);
    var grouped := Repeated(groupedData);
    var singles := Singles(valid, grouped);
    items := GroupItems(grouped) + AsItems(singles) + AsItems(emptyDesc);
  }

  // ---------------------------------------------------------------------------
  // What processEntries lists
  // ---------------------------------------------------------------------------

  lemma FlatMapOne<T, U>(x: T, f: T -> seq<U>)
    ensures FlatMap([x], f) == f(x)
  {
    assert [x][..0] == [];
  }

  lemma GroupsForAppend(es: seq<JsEntry>, key: JsEntry -> string, ks: seq<string>)
    requires ks != [] && forall i :: 0 <= i < |ks| ==> WithKey(es, key, ks[i]) != []
    ensures GroupsFor(es, key, ks) == GroupsFor(es, key, ks[..|ks| - 1]) + [GroupFor(es, key, ks[|ks| - 1])]
  {
  }

  /** Appending a group adds its children to the repeated groups' entries when it is repeated. */
  lemma RepeatedAppend(gs: seq<Group>, g: Group, x: JsEntry)
    ensures multiset(FlatMap(Repeated(gs + [g]), Children))[x]
         == multiset(FlatMap(Repeated(gs), Children))[x] + (if g.count > 1 then multiset(g.children)[x] else 0)
  {
    FilterAppend(gs, g, (g: Group) => g.count > 1);
    var tail := if g.count > 1 then [g] else [];
    FlatMapConcat(Repeated(gs), tail, Children);
    if g.count > 1 {
      FlatMapOne(g, Children);
    } else {
      assert FlatMap(tail, Children) == [];
    }
  }

  /**
   * Among the groups of the distinct keys `ks` that have more than one entry, an
   * entry occurs as often as in the list when its key is one of them, else never.
   */
  lemma {:induction false} RepeatedCountFor(es: seq<JsEntry>, key: JsEntry -> string, ks: seq<string>, x: JsEntry)
    requires forall i, j :: 0 <= i < j < |ks| ==> ks[i] != ks[j]
    requires forall i :: 0 <= i < |ks| ==> WithKey(es, key, ks[i]) != []
    ensures multiset(FlatMap(Repeated(GroupsFor(es, key, ks)), Children))[x]
         == if key(x) in ks && |WithKey(es, key, key(x))| > 1 then multiset(es)[x] else 0
    decreases |ks|
  {
    if ks == [] {
      assert Repeated([]) == [];
    } else {
      var init := ks[..|ks| - 1];
      var k := ks[|ks| - 1];
      var g := GroupFor(es, key, k);
      RepeatedCountFor(es, key, init, x);
      GroupsForAppend(es, key, ks);
      RepeatedAppend(GroupsFor(es, key, init), g, x);
      WithKeyCount(es, key, k, x);
      KeyInAppend(ks, key(x));
    }
  }

  lemma KeyInAppend(ks: seq<string>, k: string)
    requires ks != [] && forall i, j :: 0 <= i < j < |ks| ==> ks[i] != ks[j]
    ensures k in ks <==> k in ks[..|ks| - 1] || k == ks[|ks| - 1]
    ensures k == ks[|ks| - 1] ==> k !in ks[..|ks| - 1]
  {
    assert ks == ks[..|ks| - 1] + [ks[|ks| - 1]];
  }

  /**
   * The groups with more than one entry hold an entry as often as the list does when
   * its key is shared, else never.
   */
  lemma RepeatedCount(es: seq<JsEntry>, key: JsEntry -> string, x: JsEntry)
    ensures multiset(FlatMap(Repeated(Grouped(es, key)), Children))[x]
         == if |WithKey(es, key, key(x))| > 1 then multiset(es)[x] else 0
  {
    KeyOrderNonEmpty(es, key);
    RepeatedCountFor(es, key, KeyOrder(es, key), x);
    KeyOrderHas(es, key, key(x));
    WithKeyCount(es, key, key(x), x);
  }

  /** Each listed group is the group of its key, with more than one entry. */
  lemma RepeatedGroup(es: seq<JsEntry>, key: JsEntry -> string, i: nat)
    requires i < |Repeated(Grouped(es, key))|
    ensures var g := Repeated(Grouped(es, key))[i];
      WithKey(es, key, g.groupId) != [] && g == GroupFor(es, key, g.groupId) && g.count > 1
  {
    var gs := Grouped(es, key);
    var g := Repeated(gs)[i];
    assert g in multiset(Repeated(gs));
    assert g in gs;
    var j :| 0 <= j < |gs| && gs[j] == g;
    KeyOrderNonEmpty(es, key);
  }

  /** A key has a listed group exactly when more than one entry has it. */
  lemma RepeatedKeys(es: seq<JsEntry>, key: JsEntry -> string, k: string)
    ensures (exists i :: 0 <= i < |Repeated(Grouped(es, key))| && Repeated(Grouped(es, key))[i].groupId == k)
        <==> |WithKey(es, key, k)| > 1
  {
    var gs := Grouped(es, key);
    var r := Repeated(gs);
    if |WithKey(es, key, k)| > 1 {
      KeyOrderHas(es, key, k);
      KeyOrderNonEmpty(es, key);
      var j :| 0 <= j < |KeyOrder(es, key)| && KeyOrder(es, key)[j] == k;
      assert gs[j].count > 1;
      assert gs[j] in multiset(r);
      var i :| 0 <= i < |r| && r[i] == gs[j];
      assert r[i].groupId == k;
    }
    if exists i :: 0 <= i < |r| && r[i].groupId == k {
      var i :| 0 <= i < |r| && r[i].groupId == k;
      RepeatedGroup(es, key, i);
    }
  }

  /** A valid entry's key is the property name it is grouped under. */
  lemma ValidKey(e: JsEntry)
    requires !IsBlank(e.description)
    ensures GetEntriesKey(e) == Some(PropertyKey(e))
  {
  }

  lemma InValids(es: seq<JsEntry>, x: JsEntry)
    requires x in multiset(Valids(es))
    ensures !IsBlank(x.description)
  {
    var v := Valids(es);
    assert x in v;
    var i :| 0 <= i < |v| && v[i] == x;
  }

  /** A child of a group built from the valid entries is one of them. */
  lemma ChildValid(es: seq<JsEntry>, i: nat, m: nat)
    requires i < |Repeated(Grouped(Valids(es), PropertyKey))|
    requires m < |Repeated(Grouped(Valids(es), PropertyKey))[i].children|
    ensures var c := Repeated(Grouped(Valids(es), PropertyKey))[i].children[m];
      !IsBlank(c.description) && PropertyKey(c) == Repeated(Grouped(Valids(es), PropertyKey))[i].groupId
  {
    var v := Valids(es);
    var g := Repeated(Grouped(v, PropertyKey))[i];
    RepeatedGroup(v, PropertyKey, i);
    var c := g.children[m];
    assert c in multiset(WithKey(v, PropertyKey, g.groupId));
    WithKeyCount(v, PropertyKey, g.groupId, c);
    InValids(es, c);
  }

  /**
   * The `some` test of singleEntries: a valid entry shares its key with a listed
   * group exactly when more than one valid entry has that key.
   */
  lemma SharesIffRepeated(es: seq<JsEntry>, x: JsEntry)
    requires !IsBlank(x.description)
    ensures AnyGroupShares(Repeated(Grouped(Valids(es), PropertyKey)), x)
        <==> |WithKey(Valids(es), PropertyKey, PropertyKey(x))| > 1
  {
    var v := Valids(es);
    var r := Repeated(Grouped(v, PropertyKey));
    var k := PropertyKey(x);
    ValidKey(x);
    if |WithKey(v, PropertyKey, k)| > 1 {
      RepeatedKeys(v, PropertyKey, k);
      var i :| 0 <= i < |r| && r[i].groupId == k;
      RepeatedGroup(v, PropertyKey, i);
      ChildValid(es, i, 0);
      ValidKey(r[i].children[0]);
      assert SharesKey(r[i].children, x);
    }
    if AnyGroupShares(r, x) {
      var i :| 0 <= i < |r| && SharesKey(r[i].children, x);
      var m :| 0 <= m < |r[i].children| && GetEntriesKey(r[i].children[m]) == GetEntriesKey(x);
      ChildValid(es, i, m);
      ValidKey(r[i].children[m]);
      RepeatedGroup(v, PropertyKey, i);
    }
  }

  lemma {:induction false} FlatMapGroupItems(gs: seq<Group>)
    ensures FlatMap(GroupItems(gs), ItemEntries) == FlatMap(gs, Children)
    decreases |gs|
  {
    if gs != [] {
      var init := gs[..|gs| - 1];
      FlatMapGroupItems(init);
      assert GroupItems(gs)[..|gs| - 1] == GroupItems(init);
    }
  }

  lemma {:induction false} FlatMapAsItems(es: seq<JsEntry>)
    ensures FlatMap(AsItems(es), ItemEntries) == es
    decreases |es|
  {
    if es != [] {
      var init := es[..|es| - 1];
      FlatMapAsItems(init);
      assert AsItems(es)[..|es| - 1] == AsItems(init);
      assert es == init + [es[|es| - 1]];
    }
  }

  /** A valid entry is listed on its own exactly when no other valid entry has its key. */
  lemma SinglesCount(es: seq<JsEntry>, x: JsEntry)
    ensures var v := Valids(es);
      multiset(Singles(v, Repeated(Grouped(v, PropertyKey))))[x]
      == if !IsBlank(x.description) && |WithKey(v, PropertyKey, PropertyKey(x))| == 1 then multiset(es)[x] else 0
  {
    var v := Valids(es);
    if !IsBlank(x.description) {
      SharesIffRepeated(es, x);
      WithKeyCount(v, PropertyKey, PropertyKey(x), x);
    }
  }

  /** The entries processEntries lists: the groups' children, then the singles, then the blank ones. */
  lemma ProcessedLayout(es: seq<JsEntry>)
    ensures var v := Valids(es);
      var r := Repeated(Grouped(v, PropertyKey));
      FlatMap(Processed(es), ItemEntries) == FlatMap(r, Children) + Singles(v, r) + Blanks(es)
  {
    var v := Valids(es);
    var r := Repeated(Grouped(v, PropertyKey));
    var singles := Singles(v, r);
    var blanks := Blanks(es);
    FlatMapConcat(GroupItems(r) + AsItems(singles), AsItems(blanks), ItemEntries);
    FlatMapConcat(GroupItems(r), AsItems(singles), ItemEntries);
    FlatMapGroupItems(r);
    FlatMapAsItems(singles);
    FlatMapAsItems(blanks);
  }

  /** processEntries neither drops nor repeats an entry: each is listed as often as it is given. */
  lemma ProcessedKeepsEntries(es: seq<JsEntry>)
    ensures multiset(FlatMap(Processed(es), ItemEntries)) == multiset(es)
  {
    ProcessedLayout(es);
    var v := Valids(es);
    var r := Repeated(Grouped(v, PropertyKey));
    forall x ensures multiset(FlatMap(r, Children))[x] + multiset(Singles(v, r))[x] + multiset(Blanks(es))[x] == multiset(es)[x] {
      ProcessedCount(es, x);
    }
    MultisetOfThree(FlatMap(Processed(es), ItemEntries), FlatMap(r, Children), Singles(v, r), Blanks(es), es);
  }

  lemma MultisetOfThree(all: seq<JsEntry>, a: seq<JsEntry>, b: seq<JsEntry>, c: seq<JsEntry>, es: seq<JsEntry>)
    requires all == a + b + c
    requires forall x :: multiset(a)[x] + multiset(b)[x] + multiset(c)[x] == multiset(es)[x]
    ensures multiset(all) == multiset(es)
  {
    forall x ensures multiset(all)[x] == multiset(es)[x] {
      assert multiset(all) == multiset(a) + multiset(b) + multiset(c);
    }
  }

  lemma ProcessedCount(es: seq<JsEntry>, x: JsEntry)
    ensures var v := Valids(es);
      var r := Repeated(Grouped(v, PropertyKey));
      multiset(FlatMap(r, Children))[x] + multiset(Singles(v, r))[x] + multiset(Blanks(es))[x]
      == multiset(es)[x]
  {
    var v := Valids(es);
    RepeatedCount(v, PropertyKey, x);
    SinglesCount(es, x);
    WithKeyCount(v, PropertyKey, PropertyKey(x), x);
  }

  /**
   * Each group row of processEntries is the group of a key more than one valid entry
   * has: all of those entries, their number and total, the first one's texts.
   */
  lemma ProcessedGroup(es: seq<JsEntry>, i: nat)
    requires i < |Repeated(Grouped(Valids(es), PropertyKey))|
    ensures Processed(es)[i].GroupItem?
    ensures var g := Processed(es)[i].group;
      && g.children == WithKey(Valids(es), PropertyKey, g.groupId)
      && g.count == |g.children| > 1 && g.amount == SumAmounts(g.children)
      && g.description == g.children[0].description && g.recipient == g.children[0].recipient
  {
    var r := Repeated(Grouped(Valids(es), PropertyKey));
    ProcessedRow(es, i);
    RepeatedGroup(Valids(es), PropertyKey, i);
    GroupContents(Valids(es), PropertyKey, r[i]);
  }

  lemma ProcessedRow(es: seq<JsEntry>, i: nat)
    requires i < |Repeated(Grouped(Valids(es), PropertyKey))|
    ensures Processed(es)[i] == GroupItem(Repeated(Grouped(Valids(es), PropertyKey))[i])
  {
  }

  lemma GroupContents(es: seq<JsEntry>, key: JsEntry -> string, g: Group)
    requires WithKey(es, key, g.groupId) != [] && g == GroupFor(es, key, g.groupId)
    ensures && g.children == WithKey(es, key, g.groupId)
      && g.count == |g.children| && g.amount == SumAmounts(g.children)
      && g.description == g.children[0].description && g.recipient == g.children[0].recipient
  {
  }

  /** Each type's list processed on its own, the types in their order. */
  function ProcessedTypes(ts: seq<(string, seq<JsEntry>)>): (r: seq<(string, seq<Item>)>)
    ensures |r| == |ts|
    decreases |ts|
  {
    if ts == [] then []
    else ProcessedTypes(ts[..|ts| - 1]) + [(ts[|ts| - 1].0, Processed(ts[|ts| - 1].1))]
  }

  /** Grouping on, each list is processed; grouping off, the listing is passed on unchanged. */
  function ProcessedListing(groupOn: bool, entries: Listing<JsEntry>): Listing<Item>
  {
    if !groupOn then LiftListing(entries)
    else
      match entries
      case Flat(es) => Flat(Processed(es))
      case ByType(ts) => ByType(ProcessedTypes(ts))
  }

  /** The `Object.entries(entries).forEach` loop that fills `processedGroups`. */
  method ProcessTypes(ts: seq<(string, seq<JsEntry>)>) returns (processedGroups: seq<(string, seq<Item>)>)
    ensures processedGroups == ProcessedTypes(ts)
  {
    processedGroups := [];
    var i := 0;
    while i < |ts|
      invariant 0 <= i <= |ts|
      invariant processedGroups == ProcessedTypes(ts[..i])
    {
      var items := ProcessList(ts[i].1);
      ProcessedTypesStep(ts, i, items);
      processedGroups := processedGroups + [(ts[i].0, items)];
      i := i + 1;
    }
    assert ts[..i] == ts;
  }

  lemma ProcessedTypesStep(ts: seq<(string, seq<JsEntry>)>, i: nat, items: seq<Item>)
    requires i < |ts| && items == Processed(ts[i].1)
    ensures ProcessedTypes(ts[..i + 1]) == ProcessedTypes(ts[..i]) + [(ts[i].0, items)]
  {
    assert ts[..i + 1][..i] == ts[..i];
  }

  /** processEntries. */
  method ProcessEntries(groupOn: bool, entries: Listing<JsEntry>) returns (r: Listing<Item>)
    ensures r == ProcessedListing(groupOn, entries)
  {
    if !groupOn {
      return LiftListing(entries);
    }
    match entries
    case Flat(es) =>
      var items := ProcessList(es);
      r := Flat(items);
    case ByType(ts) =>
      var processedGroups := ProcessTypes(ts);
      r := ByType(processedGroups);
  }

  /** With grouping on each type keeps its name, its place and all of its entries. */
  lemma {:induction false} ProcessedTypesKeepEntries(ts: seq<(string, seq<JsEntry>)>, i: nat)
    requires i < |ts|
    ensures ProcessedTypes(ts)[i].0 == ts[i].0
    ensures multiset(FlatMap(ProcessedTypes(ts)[i].1, ItemEntries)) == multiset(ts[i].1)
    decreases |ts|
  {
    if i < |ts| - 1 {
      ProcessedTypesKeepEntries(ts[..|ts| - 1], i);
    } else {
      ProcessedKeepsEntries(ts[i].1);
    }
  }

  // ---------------------------------------------------------------------------
  // groupedData as written: a plain object literal
  // ---------------------------------------------------------------------------

  /** The members a plain object `{}` inherits from Object.prototype. */
  const InheritedNames: set<string> := {
    "constructor", "hasOwnProperty", "isPrototypeOf", "propertyIsEnumerable",
    "toLocaleString", "toString", "valueOf", "__proto__",
    "__defineGetter__", "__defineSetter__", "__lookupGetter__", "__lookupSetter__"}

  /**
   * The loop on `groupedData = {}` as written. For a key not stored yet that names an
   * inherited member, `groupedData[key]` is a function or Object.prototype, so
   * `!groupedData[key]` is false, the update branch runs, and
   * `groupedData[key].children.push` throws a TypeError (None).
   */
  function GroupedAsWritten(es: seq<JsEntry>, key: JsEntry -> string): (r: Option<seq<Group>>)
    decreases |es|
  {
    if es == [] then Some([])
    else
      match GroupedAsWritten(es[..|es| - 1], key)
      case None => None
      case Some(groups) =>
        var e := es[|es| - 1];
        var j := FindGroup(groups, key(e));
        if j.Some? then Some(groups[j.value := AddToGroup(groups[j.value], e)])
        else if key(e) in InheritedNames then None
        else Some(groups + [NewGroup(e, key(e))])
  }

  /** As long as no key names an inherited member, the loop as written groups correctly. */
  lemma {:induction false} AsWrittenAgrees(es: seq<JsEntry>, key: JsEntry -> string)
    requires forall i :: 0 <= i < |es| ==> key(es[i]) !in InheritedNames
    ensures GroupedAsWritten(es, key) == Some(Grouped(es, key))
    decreases |es|
  {
    if es != [] {
      var init := es[..|es| - 1];
      var e := es[|es| - 1];
      assert es == init + [e];
      AsWrittenAgrees(init, key);
      var groups := Grouped(init, key);
      var j := FindGroup(groups, key(e));
      if j.Some? {
        GroupedAppendExisting(init, key, e, j.value);
      } else {
        GroupedAppendNew(init, key, e);
      }
    }
  }

  /** An entry described "toString" with no recipient makes the page throw. */
  lemma AsWrittenThrows()
    ensures GroupedAsWritten([JsEntry(1, 10.0, Some("toString"), None, [])], PropertyKey) == None
  {
    var e := JsEntry(1, 10.0, Some("toString"), None, []);
    TrimNoBorder("toString");
    assert PropertyKey(e) == "toString";
    assert [e][..0] == [];
  }
}
