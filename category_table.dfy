/**
 * The `categories` table, the `category_csv_entry` pivot table and the statements
 * the console commands, the Food migration and CategoryController run on them
 * (app/Models/Category.php, the categories table migration).
 *
 * The pivot table is modelled as a map from each `csv_entries` id to the ids of its
 * categories; its keys are the existing entries.
 */
module CategoryTable {
  import opened Wrappers

  /** A row of `categories`; `exclude_from_calculations` is cast to a boolean. */
  datatype CategoryRow = CategoryRow(id: int, name: string, color: string, excludeFromCalculations: bool)

  /** `Category::where('name', name)->exists()`. */
  predicate HasName(rows: seq<CategoryRow>, name: string)
  {
    exists i :: 0 <= i < |rows| && rows[i].name == name
  }

  predicate HasId(rows: seq<CategoryRow>, id: int)
  {
    exists i :: 0 <= i < |rows| && rows[i].id == id
  }

  predicate DistinctIds(rows: seq<CategoryRow>)
  {
    forall i, j :: 0 <= i < j < |rows| ==> rows[i].id != rows[j].id
  }

  /** `Category::find(id)`. */
  function FindById(rows: seq<CategoryRow>, id: int): (r: Option<CategoryRow>)
    ensures r.Some? ==> r.value in rows && r.value.id == id
    ensures r.None? <==> !HasId(rows, id)
    decreases |rows|
  {
    if rows == [] then None
    else if rows[|rows| - 1].id == id then Some(rows[|rows| - 1])
    else
      var r := FindById(rows[..|rows| - 1], id);
      assert forall i :: 0 <= i < |rows| - 1 ==> rows[..|rows| - 1][i] == rows[i];
      r
  }

  // ---------------------------------------------------------------------------
  // Conditional insert and bulk delete, as functions of the table
  // ---------------------------------------------------------------------------

  /** "Insert `name` unless a row of that name exists"; a new row takes id `id` and is not excluded. */
  function CreateUnlessNamed(rows: seq<CategoryRow>, name: string, color: string, id: int): seq<CategoryRow>
  {
    if HasName(rows, name) then rows else rows + [CategoryRow(id, name, color, false)]
  }

  /** `Category::where('name', name)->delete()`: the rows of other names, in order. */
  function WithoutName(rows: seq<CategoryRow>, name: string): (r: seq<CategoryRow>)
    ensures |r| <= |rows|
    ensures forall x :: x in r <==> x in rows && x.name != name
    decreases |rows|
  {
    if rows == [] then []
    else
      var last := rows[|rows| - 1];
      WithoutName(rows[..|rows| - 1], name) + (if last.name != name then [last] else [])
  }

  /** The ids of the rows named `name`. */
  function NamedIds(rows: seq<CategoryRow>, name: string): set<int>
  {
    set i | 0 <= i < |rows| && rows[i].name == name :: rows[i].id
  }

  /** The pivot rows that the foreign key's `onDelete('cascade')` leaves when categories `ids` go. */
  function Detach(pivot: map<int, set<int>>, ids: set<int>): (r: map<int, set<int>>)
    ensures r.Keys == pivot.Keys
  {
    map e | e in pivot :: pivot[e] - ids
  }

  /** `$entry->categories()->sync([categoryId])` for every entry in `targets`. */
  function SyncAll(pivot: map<int, set<int>>, targets: set<int>, categoryId: int): (r: map<int, set<int>>)
    ensures r.Keys == pivot.Keys
  {
    map e | e in pivot :: if e in targets then {categoryId} else pivot[e]
  }

  // ---------------------------------------------------------------------------
  // What the statements promise
  // ---------------------------------------------------------------------------

  /** After the conditional insert a row of that name exists; existing rows are kept in place and at most one is added. */
  lemma CreateUnlessNamedEffect(rows: seq<CategoryRow>, name: string, color: string, id: int)
    ensures var r := CreateUnlessNamed(rows, name, color, id);
      && HasName(r, name)
      && |rows| <= |r| <= |rows| + 1
      && r[..|rows|] == rows
      && (HasName(rows, name) <==> r == rows)
      && (!HasName(rows, name) ==> r[|rows|] == CategoryRow(id, name, color, false))
  {
    var r := CreateUnlessNamed(rows, name, color, id);
    if !HasName(rows, name) {
      assert r[|rows|].name == name;
      assert r[..|rows|] == rows;
      assert r != rows by {
        assert |r| != |rows|;
      }
    }
  }

  /** Running the conditional insert twice is running it once, whatever id the second run would allocate. */
  lemma CreateUnlessNamedIdempotent(rows: seq<CategoryRow>, name: string, color: string, id: int, id': int)
    ensures CreateUnlessNamed(CreateUnlessNamed(rows, name, color, id), name, color, id') == CreateUnlessNamed(rows, name, color, id)
  {
    CreateUnlessNamedEffect(rows, name, color, id);
  }

  /** The insert allocates a new id: distinct ids stay distinct when `id` is above every existing one. */
  lemma CreateUnlessNamedDistinct(rows: seq<CategoryRow>, name: string, color: string, id: int)
    requires DistinctIds(rows)
    requires forall i :: 0 <= i < |rows| ==> rows[i].id < id
    ensures DistinctIds(CreateUnlessNamed(rows, name, color, id))
  {
  }

  /** The bulk delete keeps the order of the surviving rows. */
  lemma {:induction false} WithoutNameUnchanged(rows: seq<CategoryRow>, name: string)
    requires !HasName(rows, name)
    ensures WithoutName(rows, name) == rows
    decreases |rows|
  {
    if rows != [] {
      NoNameInit(rows, name);
      WithoutNameUnchanged(rows[..|rows| - 1], name);
      WithoutNameKeepsLast(rows, name);
    }
  }

  lemma NoNameInit(rows: seq<CategoryRow>, name: string)
    requires rows != [] && !HasName(rows, name)
    ensures !HasName(rows[..|rows| - 1], name) && rows[|rows| - 1].name != name
  {
    var init := rows[..|rows| - 1];
    forall i | 0 <= i < |init| ensures init[i].name != name {
      assert init[i] == rows[i];
    }
  }

  lemma WithoutNameKeepsLast(rows: seq<CategoryRow>, name: string)
    requires rows != [] && rows[|rows| - 1].name != name
    requires WithoutName(rows[..|rows| - 1], name) == rows[..|rows| - 1]
    ensures WithoutName(rows, name) == rows
  {
    var init, last := rows[..|rows| - 1], rows[|rows| - 1];
    assert WithoutName(rows, name) == WithoutName(init, name) + [last];
    InitThenLast(rows);
  }

  lemma InitThenLast<T>(s: seq<T>)
    requires s != []
    ensures s[..|s| - 1] + [s[|s| - 1]] == s
  {
  }

  lemma WithoutNameEffect(rows: seq<CategoryRow>, name: string)
    ensures !HasName(WithoutName(rows, name), name)
    ensures WithoutName(WithoutName(rows, name), name) == WithoutName(rows, name)
  {
    var r := WithoutName(rows, name);
    forall i | 0 <= i < |r| ensures r[i].name != name {
      assert r[i] in r;
    }
    WithoutNameUnchanged(r, name);
  }

  lemma WithoutNameDistinct(rows: seq<CategoryRow>, name: string)
    requires DistinctIds(rows)
    ensures DistinctIds(WithoutName(rows, name))
    decreases |rows|
  {
    if rows != [] {
      var init := rows[..|rows| - 1];
      var last := rows[|rows| - 1];
      assert DistinctIds(init) by {
        forall i, j | 0 <= i < j < |init| ensures init[i].id != init[j].id {
          assert init[i] == rows[i] && init[j] == rows[j];
        }
      }
      WithoutNameDistinct(init, name);
      var w := WithoutName(init, name);
      forall i | 0 <= i < |w| ensures w[i].id != last.id {
        assert w[i] in w;
        var k :| 0 <= k < |init| && init[k] == w[i];
        assert rows[k] == w[i];
      }
    }
  }

  lemma NamedIdsHas(rows: seq<CategoryRow>, name: string, i: nat)
    requires i < |rows|
    ensures rows[i].name == name ==> rows[i].id in NamedIds(rows, name)
  {
  }

  /** A category whose id survives the delete is still there. */
  lemma WithoutNameKeepsIds(rows: seq<CategoryRow>, name: string, c: int)
    requires DistinctIds(rows)
    requires HasId(rows, c) && c !in NamedIds(rows, name)
    ensures HasId(WithoutName(rows, name), c)
  {
    var i :| 0 <= i < |rows| && rows[i].id == c;
    NamedIdsHas(rows, name, i);
    assert rows[i] in rows;
    var w := WithoutName(rows, name);
    assert rows[i] in w;
    var k :| 0 <= k < |w| && w[k] == rows[i];
  }

  /** Detaching ids no entry uses changes nothing. */
  lemma DetachUnused(pivot: map<int, set<int>>, ids: set<int>)
    requires forall e :: e in pivot ==> pivot[e] * ids == {}
    ensures Detach(pivot, ids) == pivot
  {
    forall e | e in pivot ensures Detach(pivot, ids)[e] == pivot[e] {
      var s := pivot[e];
      assert forall x :: x in s ==> x !in ids by {
        assert forall x :: x in s && x in ids ==> x in s * ids;
      }
      assert forall x :: x in s - ids <==> x in s;
      assert s - ids == s;
    }
  }

  /** The new row is the only one named `name`, so the delete removes exactly it. */
  lemma NamedIdsOfCreated(rows: seq<CategoryRow>, name: string, color: string, id: int)
    requires !HasName(rows, name)
    ensures NamedIds(CreateUnlessNamed(rows, name, color, id), name) == {id}
  {
    var r := CreateUnlessNamed(rows, name, color, id);
    assert r[|rows|].name == name;
    forall x | x in NamedIds(r, name) ensures x == id {
      var i :| 0 <= i < |r| && r[i].name == name && r[i].id == x;
      if i < |rows| {
        assert rows[i] == r[i];
      }
    }
  }

  /** Starting without a row of that name, insert then delete restores both tables; only the id counter moved. */
  lemma CreateThenDelete(rows: seq<CategoryRow>, pivot: map<int, set<int>>, name: string, color: string, id: int)
    requires !HasName(rows, name)
    requires forall e, c :: e in pivot && c in pivot[e] ==> c < id
    ensures var r := CreateUnlessNamed(rows, name, color, id);
      WithoutName(r, name) == rows && Detach(pivot, NamedIds(r, name)) == pivot
  {
    var r := CreateUnlessNamed(rows, name, color, id);
    WithoutNameUnchanged(rows, name);
    assert r == rows + [CategoryRow(id, name, color, false)];
    assert r[..|r| - 1] == rows;
    NamedIdsOfCreated(rows, name, color, id);
    DetachUnused(pivot, {id});
  }

  /** After the sync, a listed entry has exactly the one category; the rest keep theirs. */
  lemma SyncAllEffect(pivot: map<int, set<int>>, targets: set<int>, categoryId: int, e: int)
    requires e in pivot
    ensures e in targets ==> SyncAll(pivot, targets, categoryId)[e] == {categoryId}
    ensures e !in targets ==> SyncAll(pivot, targets, categoryId)[e] == pivot[e]
  {
  }

  /** Repeating the assignment changes nothing more. */
  lemma SyncAllIdempotent(pivot: map<int, set<int>>, targets: set<int>, categoryId: int)
    ensures SyncAll(SyncAll(pivot, targets, categoryId), targets, categoryId) == SyncAll(pivot, targets, categoryId)
  {
  }

  // ---------------------------------------------------------------------------
  // The database
  // ---------------------------------------------------------------------------

  class Database {
    /** `categories`, in id order. */
    var categories: seq<CategoryRow>
    /** The next auto-increment id of `categories`. */
    var nextCategoryId: int
    /** `category_csv_entry`: entry id -> ids of its categories. */
    var entryCategories: map<int, set<int>>

    ghost predicate Valid()
      reads this
    {
      && DistinctIds(categories)
      && (forall i :: 0 <= i < |categories| ==> categories[i].id < nextCategoryId)
      && (forall e, c :: e in entryCategories && c in entryCategories[e] ==> HasId(categories, c))
    }

    /** Tables holding `entries` and no categories yet. */
    constructor (entries: set<int>)
      ensures Valid()
      ensures categories == [] && nextCategoryId == 1
      ensures entryCategories == map e | e in entries :: {}
    {
      categories := [];
      nextCategoryId := 1;
      entryCategories := map e | e in entries :: {};
    }

    /** `Category::create([...])`. */
    method Create(name: string, color: string, exclude: bool) returns (row: CategoryRow)
      requires Valid()
      modifies this
      ensures Valid()
      ensures row == CategoryRow(old(nextCategoryId), name, color, exclude)
      ensures categories == old(categories) + [row]
      ensures nextCategoryId == old(nextCategoryId) + 1
      ensures entryCategories == old(entryCategories)
    {
      row := CategoryRow(nextCategoryId, name, color, exclude);
      forall e, c | e in entryCategories && c in entryCategories[e] ensures HasId(categories + [row], c) {
        assert HasId(categories, c);
        var i :| 0 <= i < |categories| && categories[i].id == c;
        assert (categories + [row])[i].id == c;
      }
      categories := categories + [row];
      nextCategoryId := nextCategoryId + 1;
    }

    /** `Category::where('name', name)->delete()`, with the pivot rows cascading. */
    method DeleteNamed(name: string)
      requires Valid()
      modifies this
      ensures Valid()
      ensures categories == WithoutName(old(categories), name)
      ensures entryCategories == Detach(old(entryCategories), NamedIds(old(categories), name))
      ensures nextCategoryId == old(nextCategoryId)
    {
      var gone := NamedIds(categories, name);
      var before := categories;
      WithoutNameDistinct(before, name);
      categories := WithoutName(before, name);
      entryCategories := Detach(entryCategories, gone);
      forall e, c | e in entryCategories && c in entryCategories[e] ensures HasId(categories, c) {
        WithoutNameKeepsIds(before, name, c);
      }
    }

    /** `$entry->categories()->sync(ids)`: the entry's categories become exactly `ids`. */
    method Sync(entryId: int, ids: set<int>)
      requires Valid()
      requires entryId in entryCategories
      requires forall c :: c in ids ==> HasId(categories, c)
      modifies this
      ensures Valid()
      ensures entryCategories == old(entryCategories)[entryId := ids]
      ensures categories == old(categories) && nextCategoryId == old(nextCategoryId)
    {
      entryCategories := entryCategories[entryId := ids];
    }
  }
}
