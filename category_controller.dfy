/** CategoryController::assign (app/Http/Controllers/CategoryController.php). */
module CategoryController {
  import opened Wrappers
  import opened CategoryTable

  /** The request body; a missing key is `None`. */
  datatype AssignRequest = AssignRequest(entryIds: Option<seq<int>>, categoryId: Option<int>)

  /** The key of a failed validation rule. */
  datatype ErrorField = EntryIdsField | EntryIdField(index: nat) | CategoryIdField

  datatype AssignResponse =
    | ValidationFailed(errors: seq<ErrorField>)
    | Assigned(message: string, category: CategoryRow)

  const AssignedMessage := "Category assigned successfully"

  /** `entry_ids.*`: `exists:csv_entries,id`, one error per unknown id. */
  function EntryIdErrors(ids: seq<int>, entries: set<int>): (r: seq<ErrorField>)
    ensures forall k :: 0 <= k < |r| ==> r[k].EntryIdField? && r[k].index < |ids| && ids[r[k].index] !in entries
    decreases |ids|
  {
    if ids == [] then []
    else
      var n := |ids| - 1;
      var r := EntryIdErrors(ids[..n], entries);
      assert forall k :: 0 <= k < |r| ==> ids[r[k].index] == ids[..n][r[k].index];
      r + (if ids[n] !in entries then [EntryIdField(n)] else [])
  }

  /** The failed rules of `$request->validate([...])`, in rule order. */
  function ValidationErrors(request: AssignRequest, categories: seq<CategoryRow>, entries: set<int>): seq<ErrorField>
  {
    (if request.entryIds.None? || request.entryIds.value == [] then [EntryIdsField] else [])
    + (if request.entryIds.Some? then EntryIdErrors(request.entryIds.value, entries) else [])
    + (if request.categoryId.None? || !HasId(categories, request.categoryId.value) then [CategoryIdField] else [])
  }

  lemma {:induction false} EntryIdErrorsEmpty(ids: seq<int>, entries: set<int>)
    ensures EntryIdErrors(ids, entries) == [] <==> forall k :: 0 <= k < |ids| ==> ids[k] in entries
    decreases |ids|
  {
    if ids != [] {
      var n := |ids| - 1;
      EntryIdErrorsEmpty(ids[..n], entries);
      assert forall k :: 0 <= k < n ==> ids[..n][k] == ids[k];
    }
  }

  /** The request passes exactly when it lists at least one id, every id is an entry, and the category exists. */
  lemma ValidationIff(request: AssignRequest, categories: seq<CategoryRow>, entries: set<int>)
    ensures ValidationErrors(request, categories, entries) == [] <==>
      && request.entryIds.Some? && request.entryIds.value != []
      && (forall k :: 0 <= k < |request.entryIds.value| ==> request.entryIds.value[k] in entries)
      && request.categoryId.Some? && HasId(categories, request.categoryId.value)
  {
    if request.entryIds.Some? {
      EntryIdErrorsEmpty(request.entryIds.value, entries);
    }
  }

  /** The response of a valid request carries the assigned category's row. */
  lemma AssignedCategory(request: AssignRequest, categories: seq<CategoryRow>, entries: set<int>)
    requires ValidationErrors(request, categories, entries) == []
    ensures request.categoryId.Some?
    ensures FindById(categories, request.categoryId.value).Some?
    ensures FindById(categories, request.categoryId.value).value in categories
    ensures FindById(categories, request.categoryId.value).value.id == request.categoryId.value
  {
    ValidationIff(request, categories, entries);
  }

  /** The set of listed ids: `whereIn` selects each entry once, however often it is listed. */
  function Targets(ids: seq<int>): (r: set<int>)
    ensures forall e :: e in r <==> exists k :: 0 <= k < |ids| && ids[k] == e
  {
    set k | 0 <= k < |ids| :: ids[k]
  }

  /** Listing an id twice is listing it once. */
  lemma TargetsIgnoreRepeats(ids: seq<int>)
    ensures Targets(ids + ids) == Targets(ids)
  {
    forall e | e in Targets(ids + ids) ensures e in Targets(ids) {
      var k :| 0 <= k < |ids + ids| && (ids + ids)[k] == e;
      if k >= |ids| {
        assert ids[k - |ids|] == e;
      }
    }
    forall e | e in Targets(ids) ensures e in Targets(ids + ids) {
      var k :| 0 <= k < |ids| && ids[k] == e;
      assert (ids + ids)[k] == e;
    }
  }

  /** assign: validate, then sync every listed entry to the one category, then answer with it. */
  method Assign(db: Database, request: AssignRequest) returns (response: AssignResponse)
    requires db.Valid()
    modifies db
    ensures db.Valid()
    ensures db.categories == old(db.categories) && db.nextCategoryId == old(db.nextCategoryId)
    ensures var errors := ValidationErrors(request, old(db.categories), old(db.entryCategories).Keys);
      && (errors != [] ==> response == ValidationFailed(errors) && db.entryCategories == old(db.entryCategories))
      && (errors == [] ==>
        && response == Assigned(AssignedMessage, FindById(old(db.categories), request.categoryId.value).value)
        && db.entryCategories == SyncAll(old(db.entryCategories), Targets(request.entryIds.value), request.categoryId.value))
  {
    var errors := ValidationErrors(request, db.categories, db.entryCategories.Keys);
    if errors != [] {
      return ValidationFailed(errors);
    }
    ValidationIff(request, db.categories, db.entryCategories.Keys);
    var ids := request.entryIds.value;
    var categoryId := request.categoryId.value;
    var pivot := db.entryCategories;
    var remaining := Targets(ids);
    while remaining != {}
      invariant db.Valid()
      invariant remaining <= Targets(ids)
      invariant db.categories == old(db.categories) && db.nextCategoryId == old(db.nextCategoryId)
      invariant db.entryCategories == SyncAll(pivot, Targets(ids) - remaining, categoryId)
      decreases remaining
    {
      var e :| e in remaining;
      db.Sync(e, {categoryId});
      remaining := remaining - {e};
    }
    assert Targets(ids) - remaining == Targets(ids);
    response := Assigned(AssignedMessage, FindById(db.categories, categoryId).value);
  }
}
