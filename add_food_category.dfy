/** The `category:add-food` console command (app/Console/Commands/AddFoodCategory.php). */
module AddFoodCategory {
  import opened CategoryTable

  const Name := "Food"
  const Color := "#8BC34A"

  /** handle: insert the Food category unless one exists; returns the line printed with `info`. */
  method Handle(db: Database) returns (message: string)
    requires db.Valid()
    modifies db
    ensures db.Valid()
    ensures db.categories == CreateUnlessNamed(old(db.categories), Name, Color, old(db.nextCategoryId))
    ensures db.nextCategoryId == old(db.nextCategoryId) + (if HasName(old(db.categories), Name) then 0 else 1)
    ensures db.entryCategories == old(db.entryCategories)
    ensures message == if HasName(old(db.categories), Name) then "Food category already exists." else "Food category added successfully."
  {
    if HasName(db.categories, Name) {
      message := "Food category already exists.";
      return;
    }
    var row := db.Create(Name, Color, false);
    message := "Food category added successfully.";
  }
}
