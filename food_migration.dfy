/** The migration adding the Food category (database/migrations/2024_11_18_000000_add_food_category.php). */
module FoodMigration {
  import opened CategoryTable

  const Name := "Food"
  const Color := "#8BC34A"

  /** up: insert Food unless a row of that name exists. */
  method Up(db: Database)
    requires db.Valid()
    modifies db
    ensures db.Valid()
    ensures db.categories == CreateUnlessNamed(old(db.categories), Name, Color, old(db.nextCategoryId))
    ensures db.nextCategoryId == old(db.nextCategoryId) + (if HasName(old(db.categories), Name) then 0 else 1)
    ensures db.entryCategories == old(db.entryCategories)
  {
    if !HasName(db.categories, Name) {
      var row := db.Create(Name, Color, false);
    }
  }

  /** down: delete every row named Food, including rows that were there before `up`. */
  method Down(db: Database)
    requires db.Valid()
    modifies db
    ensures db.Valid()
    ensures db.categories == WithoutName(old(db.categories), Name)
    ensures db.entryCategories == Detach(old(db.entryCategories), NamedIds(old(db.categories), Name))
    ensures db.nextCategoryId == old(db.nextCategoryId)
  {
    db.DeleteNamed(Name);
  }

  /** On valid tables every category id in use is below the id the next insert takes. */
  lemma PivotIdsBelowNext(rows: seq<CategoryRow>, next: int, pivot: map<int, set<int>>)
    requires forall i :: 0 <= i < |rows| ==> rows[i].id < next
    requires forall e, c :: e in pivot && c in pivot[e] ==> HasId(rows, c)
    ensures forall e, c :: e in pivot && c in pivot[e] ==> c < next
  {
    forall e, c | e in pivot && c in pivot[e] ensures c < next {
      assert HasId(rows, c);
      var i :| 0 <= i < |rows| && rows[i].id == c;
    }
  }

  /** From tables with no Food row, `up` then `down` gives back both tables. */
  lemma UpThenDown(rows: seq<CategoryRow>, next: int, pivot: map<int, set<int>>)
    requires !HasName(rows, Name)
    requires forall i :: 0 <= i < |rows| ==> rows[i].id < next
    requires forall e, c :: e in pivot && c in pivot[e] ==> HasId(rows, c)
    ensures var up := CreateUnlessNamed(rows, Name, Color, next);
      WithoutName(up, Name) == rows && Detach(pivot, NamedIds(up, Name)) == pivot
  {
    PivotIdsBelowNext(rows, next, pivot);
    CreateThenDelete(rows, pivot, Name, Color, next);
  }
}
