/** The `category:add-hobby` console command (app/Console/Commands/AddHobbyCategory.php). */
module AddHobbyCategory {
  import opened CategoryTable

  const Name := "Hobby"
  const Color := "#673AB7"

  /** handle: insert the Hobby category unless one exists; returns the line printed with `info`. */
  method Handle(db: Database) returns (message: string)
    requires db.Valid()
    modifies db
    ensures db.Valid()
    ensures db.categories == CreateUnlessNamed(old(db.categories), Name, Color, old(db.nextCategoryId))
    ensures db.nextCategoryId == old(db.nextCategoryId) + (if HasName(old(db.categories), Name) then 0 else 1)
    ensures db.entryCategories == old(db.entryCategories)
    ensures message == if HasName(old(db.categories), Name) then "Hobby category already exists." else "Hobby category added successfully."
  {
    if HasName(db.categories, Name) {
      message := "Hobby category already exists.";
      return;
    }
    var row := db.Create(Name, Color, false);
    message := "Hobby category added successfully.";
  }
}
