/**
 * The entry list page of a CSV file (resources/js/Pages/Csv/View.jsx): the keys that
 * group rows with the same description and recipient, zero-amount filtering, the
 * grouping itself, the total of the entries not excluded, the expand / exclude
 * toggles and the local category update after an assignment.
 *
 * JavaScript numbers are modelled as exact reals (parseFloat of the decimal amount
 * strings the server sends), so sums and shares carry no rounding.
 */
module View {
  import opened Wrappers

  datatype JsCategory = JsCategory(id: int, name: string, color: string)

  /** An entry as the page receives it; `amount` is the parsed value of its decimal string. */
  datatype JsEntry = JsEntry(
    id: int,
    amount: real,
    description: Option<string>,
    recipient: Option<string>,
    categories: seq<JsCategory>)

  /** A row of `groupedData`: entries sharing one key, with the first entry's texts. */
  datatype Group = Group(
    groupId: string,
    description: Option<string>,
    recipient: Option<string>,
    amount: real,
    count: nat,
    children: seq<JsEntry>)

  /** What the page lists: a plain entry or a group (`isGroup: true`). */
  datatype Item = EntryItem(entry: JsEntry) | GroupItem(group: Group)

  /**
   * The `entries` prop: a plain list, or (when `groupedByType` is set) an object of
   * per-type lists, kept in its key order.
   */
  datatype Listing<T> = Flat(items: seq<T>) | ByType(types: seq<(string, seq<T>)>)

  /**
   * The strings `entry-<id>` and `group-<key>` kept in `excludedEntries`. Their
   * prefixes differ, so two different ids never share a string.
   */
  datatype ExclusionId = EntryKey(id: int) | GroupKey(key: string)

  // ---------------------------------------------------------------------------
  // String.prototype.trim and getEntriesKey
  // ---------------------------------------------------------------------------

  /** The WhiteSpace and LineTerminator code points that trim removes. */
  predicate IsJsWhitespace(c: char)
  {
    || c == '\t' || c == '\n' || c == '\U{000B}' || c == '\U{000C}' || c == '\r' || c == ' '
    || c == '\U{00A0}' || c == '\U{1680}' || ('\U{2000}' <= c <= '\U{200A}')
    || c == '\U{2028}' || c == '\U{2029}' || c == '\U{202F}' || c == '\U{205F}'
    || c == '\U{3000}' || c == '\U{FEFF}'
  }

  /** The number of whitespace code points `s` starts with. */
  function LeadingSpace(s: string): (n: nat)
    ensures n <= |s|
    ensures forall k :: 0 <= k < n ==> IsJsWhitespace(s[k])
    ensures n < |s| ==> !IsJsWhitespace(s[n])
    decreases |s|
  {
    if s != [] && IsJsWhitespace(s[0]) then 1 + LeadingSpace(s[1..]) else 0
  }

  /** The number of whitespace code points `s` ends with. */
  function TrailingSpace(s: string): (n: nat)
    ensures n <= |s|
    ensures forall k :: |s| - n <= k < |s| ==> IsJsWhitespace(s[k])
    ensures n < |s| ==> !IsJsWhitespace(s[|s| - n - 1])
    decreases |s|
  {
    if s != [] && IsJsWhitespace(s[|s| - 1]) then 1 + TrailingSpace(s[..|s| - 1]) else 0
  }

  /** String.prototype.trim: the slice of `s` between its leading and its trailing whitespace. */
  function Trim(s: string): string
  {
    var start := LeadingSpace(s);
    var end := |s| - TrailingSpace(s);
    if start < end then s[start..end] else []
  }

  /**
   * Trimming keeps the slice after the leading whitespace, drops only whitespace
   * after it, and the slice neither starts nor ends with whitespace.
   */
  lemma {:induction false} TrimSlice(s: string)
    ensures LeadingSpace(s) + |Trim(s)| <= |s|
    ensures Trim(s) == s[LeadingSpace(s)..LeadingSpace(s) + |Trim(s)|]
    ensures forall k :: LeadingSpace(s) + |Trim(s)| <= k < |s| ==> IsJsWhitespace(s[k])
    ensures Trim(s) != [] ==> !IsJsWhitespace(Trim(s)[0]) && !IsJsWhitespace(Trim(s)[|Trim(s)| - 1])
  {
    var start, trailing := LeadingSpace(s), TrailingSpace(s);
    var end := |s| - trailing;
    if start < end {
      assert Trim(s) == s[start..end];
      SliceBorders(s, start, end);
    } else {
      assert Trim(s) == [];
    }
  }

  /** A slice starts and ends with the characters of `s` at its two ends. */
  lemma SliceBorders(s: string, start: nat, end: nat)
    requires start < end <= |s|
    ensures s[start..end][0] == s[start] && s[start..end][end - start - 1] == s[end - 1]
  {
  }

  /** A string that neither starts nor ends with whitespace is its own trim. */
  lemma TrimNoBorder(s: string)
    requires s != [] ==> !IsJsWhitespace(s[0]) && !IsJsWhitespace(s[|s| - 1])
    ensures Trim(s) == s
  {
    if s != [] {
      assert LeadingSpace(s) == 0;
      assert TrailingSpace(s) == 0;
    }
  }

  lemma TrimIdempotent(s: string)
    ensures Trim(Trim(s)) == Trim(s)
  {
    TrimSlice(s);
    TrimNoBorder(Trim(s));
  }

  /** A string trims to nothing exactly when it is all whitespace. */
  lemma TrimEmpty(s: string)
    ensures Trim(s) == [] <==> forall k :: 0 <= k < |s| ==> IsJsWhitespace(s[k])
  {
    TrimSlice(s);
    if Trim(s) == [] {
      assert LeadingSpace(s) == |s|;
    }
  }

  /** `!value?.trim()`: absent, or nothing but whitespace. */
  predicate IsBlank(text: Option<string>)
  {
    text.None? || Trim(text.value) == []
  }

  /**
   * getEntriesKey: no key for a blank description; else the trimmed description,
   * followed by `-` and the trimmed recipient when that is not blank.
   */
  function GetEntriesKey(e: JsEntry): Option<string>
  {
    if IsBlank(e.description) then None
    else if !IsBlank(e.recipient) then
      Some(Trim(e.description.value) + "-" + Trim(e.recipient.value))
    else Some(Trim(e.description.value))
  }

  /**
   * An entry has a key exactly when its description is not blank; the key starts
   * with the trimmed description and is just that when the recipient is blank.
   */
  lemma GetEntriesKeyShape(e: JsEntry)
    ensures GetEntriesKey(e).None? <==> IsBlank(e.description)
    ensures GetEntriesKey(e).Some? ==>
      var key := GetEntriesKey(e).value;
      var d := Trim(e.description.value);
      && d != [] && |d| <= |key| && key[..|d|] == d
      && (IsBlank(e.recipient) <==> key == d)
  {
  }

  /**
   * The key does not tell the description from the recipient: description "a-b"
   * with no recipient and description "a" with recipient "b" share the key "a-b".
   */
  lemma KeysCollide()
    ensures GetEntriesKey(JsEntry(1, 1.0, Some("a-b"), None, []))
         == GetEntriesKey(JsEntry(2, 1.0, Some("a"), Some("b"), []))
         == Some("a-b")
  {
    TrimNoBorder("a-b");
    TrimNoBorder("a");
    TrimNoBorder("b");
    assert "a" + "-" + "b" == "a-b";
  }

  // ---------------------------------------------------------------------------
  // filterEntries
  // ---------------------------------------------------------------------------

  predicate Shown(hideZero: bool, e: JsEntry)
  {
    !hideZero || e.amount != 0.0
  }

  /** The entries that stay listed, in their order. */
  function KeepShown(hideZero: bool, es: seq<JsEntry>): (r: seq<JsEntry>)
    ensures forall x :: multiset(r)[x] == if Shown(hideZero, x) then multiset(es)[x] else 0
    ensures !hideZero ==> r == es
    decreases |es|
  {
    if es == [] then []
    else
      var last := es[|es| - 1];
      assert es == es[..|es| - 1] + [last];
      KeepShown(hideZero, es[..|es| - 1]) + (if Shown(hideZero, last) then [last] else [])
  }

  function TypeNamesOf<T>(ts: seq<(string, seq<T>)>): set<string>
  {
    set i | 0 <= i < |ts| :: ts[i].0
  }

  /** The per-type lists after filtering; a type left with no entry is dropped. */
  function KeepShownTypes(hideZero: bool, ts: seq<(string, seq<JsEntry>)>): (r: seq<(string, seq<JsEntry>)>)
    ensures forall i :: 0 <= i < |r| ==> r[i].1 != []
    decreases |ts|
  {
    if ts == [] then []
    else
      var kept := KeepShown(hideZero, ts[0].1);
      (if kept != [] then [(ts[0].0, kept)] else []) + KeepShownTypes(hideZero, ts[1..])
  }

  /** The keys of an object are distinct. */
  predicate DistinctNames<T>(ts: seq<(string, seq<T>)>)
  {
    forall i, j :: 0 <= i < j < |ts| ==> ts[i].0 != ts[j].0
  }

  /** `entries[name]` on the per-type object. */
  function Lookup<T>(ts: seq<(string, seq<T>)>, name: string): (r: Option<seq<T>>)
    ensures r.None? <==> name !in TypeNamesOf(ts)
    decreases |ts|
  {
    if ts == [] then None
    else if ts[0].0 == name then Some(ts[0].1)
    else
      var r := Lookup(ts[1..], name);
      assert TypeNamesOf(ts) == {ts[0].0} + TypeNamesOf(ts[1..]) by {
        assert forall i :: 1 <= i < |ts| ==> ts[i] == ts[1..][i - 1];
      }
      r
  }

  lemma LookupCons<T>(head: seq<(string, seq<T>)>, rest: seq<(string, seq<T>)>, name: string)
    requires |head| <= 1
    ensures Lookup(head + rest, name)
         == if head != [] && head[0].0 == name then Some(head[0].1) else Lookup(rest, name)
  {
    if head != [] {
      assert (head + rest)[1..] == rest;
    } else {
      assert head + rest == rest;
    }
  }

  lemma DistinctTail<T>(ts: seq<(string, seq<T>)>)
    requires ts != [] && DistinctNames(ts)
    ensures DistinctNames(ts[1..]) && ts[0].0 !in TypeNamesOf(ts[1..])
  {
    assert forall i :: 0 <= i < |ts| - 1 ==> ts[1..][i] == ts[i + 1];
  }

  /**
   * After filtering, each type holds the shown entries of its list, and a type
   * none of whose entries is shown is gone.
   */
  lemma {:induction false} KeepShownTypesLookup(hideZero: bool, ts: seq<(string, seq<JsEntry>)>, name: string)
    requires DistinctNames(ts)
    ensures Lookup(KeepShownTypes(hideZero, ts), name)
         == if Lookup(ts, name).Some? && KeepShown(hideZero, Lookup(ts, name).value) != []
            then Some(KeepShown(hideZero, Lookup(ts, name).value))
            else None
    decreases |ts|
  {
    if ts != [] {
      var kept := KeepShown(hideZero, ts[0].1);
      var head := if kept != [] then [(ts[0].0, kept)] else [];
      var rest := KeepShownTypes(hideZero, ts[1..]);
      assert KeepShownTypes(hideZero, ts) == head + rest;
      DistinctTail(ts);
      KeepShownTypesLookup(hideZero, ts[1..], name);
      LookupCons(head, rest, name);
      LookupFirst(ts, name);
      if ts[0].0 == name {
        assert Lookup(ts[1..], name).None?;
      }
    }
  }

  lemma LookupFirst<T>(ts: seq<(string, seq<T>)>, name: string)
    requires ts != []
    ensures Lookup(ts, name) == if ts[0].0 == name then Some(ts[0].1) else Lookup(ts[1..], name)
  {
  }

  /** filterEntries: with hideZeroEntries set, entries whose amount parses to 0 are hidden. */
  function FilterEntries(hideZero: bool, entries: Listing<JsEntry>): Listing<JsEntry>
  {
    match entries
    case Flat(es) => Flat(KeepShown(hideZero, es))
    case ByType(ts) => ByType(KeepShownTypes(hideZero, ts))
  }

  /** With hideZeroEntries off a plain list is returned as it is. */
  lemma FilterOffKeepsAll(es: seq<JsEntry>)
    ensures FilterEntries(false, Flat(es)) == Flat(es)
  {
  }

  // ---------------------------------------------------------------------------
  // Exclusions and calculateTotalAmount
  // ---------------------------------------------------------------------------

  /** The exclusion id of an item: `group-<groupId>` for a group, `entry-<id>` otherwise. */
  function ItemId(item: Item): ExclusionId
  {
    match item
    case EntryItem(e) => EntryKey(e.id)
    case GroupItem(g) => GroupKey(g.groupId)
  }

  function ItemAmount(item: Item): real
  {
    match item
    case EntryItem(e) => e.amount
    case GroupItem(g) => g.amount
  }

  /** The entries an item stands for: the entry itself, or a group's children. */
  function ItemEntries(item: Item): seq<JsEntry>
  {
    match item
    case EntryItem(e) => [e]
    case GroupItem(g) => g.children
  }

  function AsItems(es: seq<JsEntry>): (r: seq<Item>)
    ensures |r| == |es| && forall i :: 0 <= i < |es| ==> r[i] == EntryItem(es[i])
  {
    seq(|es|, i requires 0 <= i < |es| => EntryItem(es[i]))
  }

  /** The sum of the amounts of the items whose exclusion id is not in `excluded`. */
  function TotalAmount(items: seq<Item>, excluded: set<ExclusionId>): real
    decreases |items|
  {
    if items == [] then 0.0
    else
      var last := items[|items| - 1];
      TotalAmount(items[..|items| - 1], excluded) + (if ItemId(last) in excluded then 0.0 else ItemAmount(last))
  }

  /** The sum of the amounts of the items with exclusion id `x`. */
  function AmountWithId(items: seq<Item>, x: ExclusionId): real
    decreases |items|
  {
    if items == [] then 0.0
    else
      var last := items[|items| - 1];
      AmountWithId(items[..|items| - 1], x) + (if ItemId(last) == x then ItemAmount(last) else 0.0)
  }

  /** Excluding one more id takes exactly the amounts carrying that id out of the total. */
  lemma {:induction false} ExcludeOne(items: seq<Item>, excluded: set<ExclusionId>, x: ExclusionId)
    requires x !in excluded
    ensures TotalAmount(items, excluded) == TotalAmount(items, excluded + {x}) + AmountWithId(items, x)
    decreases |items|
  {
    if items != [] {
      ExcludeOne(items[..|items| - 1], excluded, x);
    }
  }

  /** With nothing excluded the total is the sum of all amounts. */
  lemma {:induction false} TotalNothingExcluded(items: seq<Item>)
    ensures TotalAmount(items, {}) == AmountSum(items)
    decreases |items|
  {
    if items != [] {
      TotalNothingExcluded(items[..|items| - 1]);
    }
  }

  function AmountSum(items: seq<Item>): real
    decreases |items|
  {
    if items == [] then 0.0 else AmountSum(items[..|items| - 1]) + ItemAmount(items[|items| - 1])
  }

  /** calculateTotalAmount over a plain list or over all per-type lists. */
  function CalculateTotalAmount(entries: Listing<Item>, excluded: set<ExclusionId>): real
  {
    match entries
    case Flat(items) => TotalAmount(items, excluded)
    case ByType(ts) => TypesTotal(ts, excluded)
  }

  function TypesTotal(ts: seq<(string, seq<Item>)>, excluded: set<ExclusionId>): real
    decreases |ts|
  {
    if ts == [] then 0.0
    else TypesTotal(ts[..|ts| - 1], excluded) + TotalAmount(ts[|ts| - 1].1, excluded)
  }

  /** The page shows calculateTotalAmount(filterEntries(entries)) over the plain entries. */
  function ShownTotal(hideZero: bool, entries: Listing<JsEntry>, excluded: set<ExclusionId>): real
  {
    CalculateTotalAmount(LiftListing(FilterEntries(hideZero, entries)), excluded)
  }

  function LiftListing(l: Listing<JsEntry>): Listing<Item>
  {
    match l
    case Flat(es) => Flat(AsItems(es))
    case ByType(ts) => ByType(seq(|ts|, i requires 0 <= i < |ts| => (ts[i].0, AsItems(ts[i].1))))
  }

  /** Plain entries carry entry ids only, so excluding a group id leaves their total alone. */
  lemma {:induction false} EntriesIgnoreGroupKey(es: seq<JsEntry>, excluded: set<ExclusionId>, k: string)
    ensures TotalAmount(AsItems(es), excluded + {GroupKey(k)}) == TotalAmount(AsItems(es), excluded)
    decreases |es|
  {
    if es != [] {
      EntriesIgnoreGroupKey(es[..|es| - 1], excluded, k);
      assert AsItems(es)[..|es| - 1] == AsItems(es[..|es| - 1]);
    }
  }

  lemma {:induction false} TypesIgnoreGroupKey(ts: seq<(string, seq<JsEntry>)>, excluded: set<ExclusionId>, k: string)
    ensures var lifted := LiftListing(ByType(ts)).types;
      TypesTotal(lifted, excluded + {GroupKey(k)}) == TypesTotal(lifted, excluded)
    decreases |ts|
  {
    if ts != [] {
      var init := ts[..|ts| - 1];
      TypesIgnoreGroupKey(init, excluded, k);
      EntriesIgnoreGroupKey(ts[|ts| - 1].1, excluded, k);
      assert LiftListing(ByType(ts)).types[..|ts| - 1] == LiftListing(ByType(init)).types;
    }
  }

  /**
   * The page's total is taken over the filtered entries before grouping, so
   * excluding a group row never changes it.
   */
  lemma ShownTotalIgnoresGroups(hideZero: bool, entries: Listing<JsEntry>, excluded: set<ExclusionId>, k: string)
    ensures ShownTotal(hideZero, entries, excluded + {GroupKey(k)}) == ShownTotal(hideZero, entries, excluded)
  {
    match FilterEntries(hideZero, entries)
    case Flat(es) => EntriesIgnoreGroupKey(es, excluded, k);
    case ByType(ts) => TypesIgnoreGroupKey(ts, excluded, k);
  }

  // ---------------------------------------------------------------------------
  // toggleGroup, toggleExcludeEntry, isEntryExcluded
  // ---------------------------------------------------------------------------

  /** The copied set with `x` deleted when present and added when absent. */
  function Toggle<T(!new)>(s: set<T>, x: T): (r: set<T>)
    ensures x in r <==> x !in s
    ensures forall y :: y != x ==> (y in r <==> y in s)
  {
    if x in s then s - {x} else s + {x}
  }

  lemma ToggleTwice<T(!new)>(s: set<T>, x: T)
    ensures Toggle(Toggle(s, x), x) == s
  {
  }

  /** The sign rule of formatAmount: a positive amount is shown negated. */
  function ExpenseAmount(amount: real): (shown: real)
    ensures shown <= 0.0
    ensures shown == amount || shown == -amount
    ensures amount <= 0.0 ==> shown == amount
  {
    if amount > 0.0 then -amount else amount
  }

  /** The page's React state that the toggles change. */
  class ViewState {
    var expandedGroups: set<string>
    var excludedEntries: set<ExclusionId>

    constructor (expanded: set<string>, excluded: set<ExclusionId>)
      ensures expandedGroups == expanded && excludedEntries == excluded
    {
      expandedGroups := expanded;
      excludedEntries := excluded;
    }

    function IsEntryExcluded(item: Item): bool
      reads this
    {
      ItemId(item) in excludedEntries
    }

    method ToggleGroup(groupId: string)
      modifies this
      ensures expandedGroups == Toggle(old(expandedGroups), groupId)
      ensures excludedEntries == old(excludedEntries)
    {
      var newSet := expandedGroups;
      if groupId in newSet {
        newSet := newSet - {groupId};
      } else {
        newSet := newSet + {groupId};
      }
      expandedGroups := newSet;
    }

    method ToggleExcludeEntry(item: Item)
      modifies this
      ensures excludedEntries == Toggle(old(excludedEntries), ItemId(item))
      ensures expandedGroups == old(expandedGroups)
    {
      var entryId := ItemId(item);
      var newSet := excludedEntries;
      if entryId in newSet {
        newSet := newSet - {entryId};
      } else {
        newSet := newSet + {entryId};
      }
      excludedEntries := newSet;
    }
  }

  // ---------------------------------------------------------------------------
  // assignCategory: the request it posts and the local update after success
  // ---------------------------------------------------------------------------

  /** `entry_ids` of the request: the children's ids for a group, else the entry's id. */
  function RequestIds(item: Item): (ids: seq<int>)
    ensures |ids| == |ItemEntries(item)|
    ensures forall i :: 0 <= i < |ids| ==> ids[i] == ItemEntries(item)[i].id
  {
    match item
    case EntryItem(e) => [e.id]
    case GroupItem(g) => seq(|g.children|, i requires 0 <= i < |g.children| => g.children[i].id)
  }

  /** categories.find(c => c.id === categoryId). */
  function FindCategory(categories: seq<JsCategory>, id: int): (r: Option<JsCategory>)
    ensures r.Some? ==> r.value in categories && r.value.id == id
    ensures r.None? ==> forall c :: c in categories ==> c.id != id
  {
    if categories == [] then None
    else if categories[0].id == id then Some(categories[0])
    else FindCategory(categories[1..], id)
  }

  function WithOnlyCategory(e: JsEntry, c: JsCategory): JsEntry
  {
    e.(categories := [c])
  }

  /**
   * The local update after a successful assignment: the entry, or every child of a
   * group, now has exactly the chosen category. None when the chosen id is not among
   * the page's categories, where the page would store `[undefined]`.
   */
  function AssignCategoryLocally(item: Item, categories: seq<JsCategory>, categoryId: int): (r: Option<Item>)
    ensures r.None? <==> FindCategory(categories, categoryId).None?
    ensures r.Some? ==>
      && ItemId(r.value) == ItemId(item) && ItemAmount(r.value) == ItemAmount(item)
      && |ItemEntries(r.value)| == |ItemEntries(item)|
      && forall i :: 0 <= i < |ItemEntries(r.value)| ==>
        ItemEntries(r.value)[i] == ItemEntries(item)[i].(categories := [FindCategory(categories, categoryId).value])
  {
    match FindCategory(categories, categoryId)
    case None => None
    case Some(c) =>
      match item
      case EntryItem(e) => Some(EntryItem(WithOnlyCategory(e, c)))
      case GroupItem(g) =>
        Some(GroupItem(g.(children := seq(|g.children|, i requires 0 <= i < |g.children| => WithOnlyCategory(g.children[i], c)))))
  }

  /** The entries changed locally are exactly the entries whose ids were posted. */
  lemma AssignTouchesRequested(item: Item, categories: seq<JsCategory>, categoryId: int)
    requires FindCategory(categories, categoryId).Some?
    ensures var r := AssignCategoryLocally(item, categories, categoryId).value;
      && RequestIds(r) == RequestIds(item)
      && forall i :: 0 <= i < |ItemEntries(r)| ==> ItemEntries(r)[i].categories == [FindCategory(categories, categoryId).value]
  {
    var r := AssignCategoryLocally(item, categories, categoryId).value;
    assert RequestIds(r) == RequestIds(item);
  }
}
