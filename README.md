# Expenses analyzer: a verified model of the grouping and categorisation core

This project models, in Dafny, the core of an expenses analyzer. The analyzer is
a Laravel back end with a React front end. It imports bank statements as CSV
files and groups their rows into near-duplicate transactions. Users then
categorise many of those rows at once.

What is modelled:

- **CsvEntry** (`csv_entry.dfy`):
  - the per-row policy: type key, excluding categories, calculable amount and
    display class;
  - `areEntriesSimilar`;
  - the greedy similarity grouping `groupEntriesBySimilarity`;
  - the two-level `getGroupedEntries`, which buckets rows by type, groups each
    bucket by similarity and sorts with `usort`.
- **StringHelper** (`string_helper.dfy`):
  - deleting digit runs with `preg_replace`;
  - PHP's `similar_text`, defined as PHP's own recursion: it takes the first
    longest common substring in scan order, then recurses into the left and
    right remainders;
  - the percentage `getSimilarity` returns.
- **The entry list page**, View.jsx (`view.dfy`, `view_grouping.dfy`):
  - `String.prototype.trim` and `getEntriesKey`;
  - the zero-amount filter;
  - `processEntries`, which groups rows by key in a plain object;
  - `calculateTotalAmount`;
  - the expand and exclude toggles, the sign rule of `formatAmount`, and the
    local update after a category assignment.
- **The category summary panel**, CategorySummary.jsx (`category_summary.dfy`):
  - the sums kept in a JavaScript `Map`;
  - each group row's amount shared equally among its children;
  - the rows filtered, then sorted by absolute amount, then the "Uncategorized"
    row;
  - the panel total.
- **The column mapping page**, Map.jsx (`map_page.dfy`): the mappings object,
  the required-field validation with its message, and submit.
- **The category tables** (`category_table.dfy`): the `categories` table and the
  `category_csv_entry` pivot table, with its cascading foreign key. They form a
  class `Database` with the three operations the core uses: create, delete by
  name and sync.
- **`CategoryController::assign`** (`category_controller.dfy`): Laravel's request
  validation, the sync of every listed entry and the JSON response.
- **The `category:add-food` and `category:add-hobby` commands**
  (`add_food_category.dfy`, `add_hobby_category.dfy`) and **the add_food_category
  migration** (`food_migration.dfy`).

Supporting modules:

- `wrappers.dfy`: `Option`;
- `sequences.dfy`: a filter, and a flat map with its permutation lemmas;
- `stable_sort.dfy`: one stable insertion sort. It stands for PHP's `usort` and
  for `Array.prototype.sort`, with lemmas on adjacent inversions, on descending
  order and on stability. Every stable sort gives the same result when the
  comparator is a strict weak order. That holds for the exact real amounts of
  the page, and for PHP totals that are equal or at least a unit apart.

Modelling choices:

- **PHP amounts are whole cents (`int`).** The column is `decimal(10,2)` with a
  `decimal:2` cast. The `usort` callbacks return a float, which PHP casts to
  `int`. So "a before b" holds exactly when |a| exceeds |b| by at least one unit
  (`CompareAbsTotals`).
- **JavaScript amounts are exact reals.** They are the parsed decimal strings.
- **Entries and categories as the code gets them.** Entry ids are distinct. A
  `$processed` list is a set, since it is only used for membership. The
  per-type object and `groupedData` are sequences in key insertion order.
- **Behaviour of the code worth noting:**
  - The similarity score is not symmetric. From "ab" and "bacb" it is 200/3 one
    way and 100/3 the other (`StringHelper.SimilarityNotSymmetric`).
  - Descriptions that are equal once digits are removed score 100, except when
    nothing is left of them; then they score 0
    (`StringHelper.GetSimilarityEqualStripped`).
  - Rows that found no similar row are not sorted by amount. They follow the
    sorted groups in their input order. The comparator sees whole units only:
    totals less than 1.00 apart compare as ties. That tie relation is not
    transitive: 2.00 and 2.90 tie, 2.90 and 3.20 tie, but 3.20 comes before 2.00.
    So among such near-ties the order `usort` returns depends on PHP's sort
    algorithm. The model's stable insertion sort yields one of the orders the
    comparator allows.
- **Observations about the page:**
  - The list is `processEntries(entries)`, unfiltered. `hideZeroEntries` acts
    only on the total and the summary, whose input is
    `groupEntries ? processEntries(filterEntries(entries)) : filterEntries(entries)`.
  - The total is taken over entries before grouping, so excluding a group row
    never changes it (`View.ShownTotalIgnoresGroups`).
  - Group keys do not tell description from recipient (`View.KeysCollide`).

## Model

| member | source | states |
|---|---|---|
| CsvEntry.TypeKey | app/Models/CsvEntry.php:91 | the bucket key is the row's type, or "uncategorized" when it has none |
| CsvEntry.HasExcludingCategory | app/Models/CsvEntry.php:222-227 | true exactly when some attached category is flagged exclude_from_calculations |
| CsvEntry.GetCalculableAmount | app/Models/CsvEntry.php:232-235 | 0 when an attached category excludes the row, the row's amount when none does |
| CsvEntry.GetStatusClass | app/Models/CsvEntry.php:248-257 | struck through exactly when excluded; highlighted exactly when not excluded and without categories; no class exactly when neither |
| CsvEntry.AreEntriesSimilar | app/Models/CsvEntry.php:190-204 | similar exactly when the recipients are equal and the digit-free descriptions pass the score test > 80, written as exact integer arithmetic |
| CsvEntry.EmptyDescriptionNeverSimilar | app/Models/CsvEntry.php:198-203 | a row whose description is empty once digits are removed is similar to nothing |
| CsvEntry.SameDescriptionSimilar | app/Models/CsvEntry.php:190-204 | same recipient and the same non-empty digit-free description make two rows similar |
| CsvEntry.SimilarityNeedsSameRecipient | app/Models/CsvEntry.php:192-195 | similar rows always have the same recipient |
| CsvEntry.CompareAbsTotalsMeaning | app/Models/CsvEntry.php:172-174 | the int-cast comparator puts a first exactly when its absolute total is at least one unit larger, and ties exactly when the totals are less than a unit apart |
| CsvEntry.SimilarCandidates | app/Models/CsvEntry.php:146-156 | what the inner loop collects: rows of the input that are collectable for the main row |
| CsvEntry.CandidatesComplete | app/Models/CsvEntry.php:146-156 | a row is collected exactly when it is another row, not yet processed, and similar to the main row |
| CsvEntry.CollectSimilar | app/Models/CsvEntry.php:146-156 | the inner loop returns the collectable rows in input order, adds their ids to the processed set, and totals them with the main row |
| CsvEntry.GroupTotal | app/Models/CsvEntry.php:140-156 | a group's total is its main row's amount plus its similar rows' amounts |
| CsvEntry.PartitionBySimilarity | app/Models/CsvEntry.php:135-169 | the outer loop uses every row exactly once; groups have members, singles have none; singles keep input order; main rows are pairwise dissimilar; each group's members come after its main row in input order; every later row similar to a main row is in its group unless an earlier main row's group took it |
| CsvEntry.GroupEntriesBySimilarity | app/Models/CsvEntry.php:129-177 | partition of the input into consistent groups; groups with members first, sorted with no adjacent inversion and descending when their totals are equal or a unit apart; then the singles in input order; the greedy absorption rule: members follow their main row in input order, and a later row similar to a main row is in its group unless an earlier main row's group took it |
| CsvEntry.SortedMultiFirst | app/Models/CsvEntry.php:171-176 | after the sort and merge, no single precedes a group, no group is followed by one a unit larger, and when the totals of the groups with members are equal or a unit apart they descend |
| CsvEntry.LaterMainCannotTake | app/Models/CsvEntry.php:146-156 | with rows a, b, c and c similar to a, the grouping that puts c under b and leaves a alone breaks the greedy absorption rule, so it is excluded |
| CsvEntry.BucketByType | app/Models/CsvEntry.php:89-101 | one bucket per type key in order of first appearance, holding exactly that type's rows in order and their total |
| CsvEntry.TypeOrderKeys | app/Models/CsvEntry.php:89-101 | the first-appearance order lists exactly the type keys of the rows |
| CsvEntry.TypeOrderDistinct | app/Models/CsvEntry.php:89-101 | the first-appearance order lists each type key once |
| CsvEntry.TypeOrderFirstSeen | app/Models/CsvEntry.php:89-101 | a type listed before another appears in the rows before the other's first appearance |
| CsvEntry.BucketsPartition | app/Models/CsvEntry.php:89-101 | the buckets together hold every row exactly once |
| CsvEntry.BuildTypeGroups | app/Models/CsvEntry.php:104-113 | one type group per bucket, grouping the bucket's rows by similarity with the bucket's total, keeping every row |
| CsvEntry.GetGroupedEntries | app/Models/CsvEntry.php:82-121 | every row exactly once; one group per type key with distinct names; each type groups exactly its rows by similarity with their raw total; sorted with no adjacent inversion, descending when totals are equal or a unit apart; a type that first appears later comes first only when its total is at least a unit larger, for the insertion sort that stands for usort |
| CsvEntry.SortedTieOrder | app/Models/CsvEntry.php:115-118 | after the insertion sort that stands for usort, two type groups swap their unsorted order only when the one moved ahead is a unit larger |
| StableSort.SortStable | app/Models/CsvEntry.php:115-118 | the insertion sort that stands for usort is stable: two distinct elements end up reversed only when the later one must come before the earlier |
| CsvEntry.SortedTypeOrder | app/Models/CsvEntry.php:115-118 | the type sort leaves no adjacent inversion and orders separated totals descending |
| StringHelper.StripDigits | app/Helpers/StringHelper.php:10-11 | the result has no digit and is no longer than the input |
| StringHelper.StripDigitsConcat | app/Helpers/StringHelper.php:10-11 | removing digits works piecewise over a concatenation |
| StringHelper.StripDigitsKeepsDigitFree | app/Helpers/StringHelper.php:10-11 | a digit-free string is left unchanged |
| StringHelper.StripDigitsIdempotent | app/Helpers/StringHelper.php:10-11 | cleaning twice is cleaning once |
| StringHelper.StripDigitsCounts | app/Helpers/StringHelper.php:10-11 | every digit goes and every other character keeps its number of occurrences |
| StringHelper.CommonRun | app/Helpers/StringHelper.php:14 | the length of the maximal common run at two positions: equal slices, then a mismatch or an end |
| StringHelper.FirstLongest | app/Helpers/StringHelper.php:14 | a real common substring no shorter than any common run of the two strings |
| StringHelper.SimilarChar | app/Helpers/StringHelper.php:14 | the matched count is at most the length of either string |
| StringHelper.SimilarTextPercent | app/Helpers/StringHelper.php:14 | the percentage is in [0, 100], and 100 exactly when both strings are equal-length, non-empty and fully matched |
| StringHelper.GetSimilarity | app/Helpers/StringHelper.php:7-17 | the score is in [0, 100] |
| StringHelper.PercentAbove | app/Helpers/StringHelper.php:14 | the float test "percent > t" is the integer test 200 * matched > t * (combined length) |
| StringHelper.SimilarCharSelf | app/Helpers/StringHelper.php:14 | a string matches all of its characters against itself |
| StringHelper.SimilarCharDisjoint | app/Helpers/StringHelper.php:14 | strings sharing no character match nothing |
| StringHelper.GetSimilarityEqualStripped | app/Helpers/StringHelper.php:7-17 | equal once digits are removed: 100, or 0 when nothing is left |
| StringHelper.GetSimilarityDisjoint | app/Helpers/StringHelper.php:7-17 | cleaned descriptions with no common character score 0 |
| StringHelper.GetSimilarityIgnoresDigits | app/Helpers/StringHelper.php:7-17 | changing only the digits of either description never changes the score |
| StringHelper.GetSimilarityAllDigits | app/Helpers/StringHelper.php:7-17 | all-digit descriptions score 0 |
| StringHelper.SimilarityNotSymmetric | app/Helpers/StringHelper.php:14 | swapping the two strings can change the score: 200/3 against 100/3 for "ab" and "bacb" |
| View.TrimSlice | resources/js/Pages/Csv/View.jsx:125 | trim returns the slice after the leading whitespace, drops only whitespace after it, and neither starts nor ends with whitespace |
| View.TrimIdempotent | resources/js/Pages/Csv/View.jsx:125 | trimming twice is trimming once |
| View.TrimEmpty | resources/js/Pages/Csv/View.jsx:125 | a string trims to nothing exactly when it is all whitespace |
| View.GetEntriesKeyShape | resources/js/Pages/Csv/View.jsx:124-134 | a key exists exactly when the description is not blank; it starts with the trimmed description and is just that exactly when the recipient is blank |
| View.KeysCollide | resources/js/Pages/Csv/View.jsx:124-134 | description "a-b" without recipient and description "a" with recipient "b" share one key |
| View.KeepShown | resources/js/Pages/Csv/View.jsx:153-155 | each entry stays as often as given when shown and not at all otherwise; with the option off the list is unchanged |
| View.KeepShownTypesLookup | resources/js/Pages/Csv/View.jsx:139-150 | each type holds the shown entries of its list, and a type with none shown disappears |
| View.FilterOffKeepsAll | resources/js/Pages/Csv/View.jsx:136-157 | with hideZeroEntries off a plain list passes unchanged |
| View.ExcludeOne | resources/js/Pages/Csv/View.jsx:253-273 | excluding one more id removes exactly the amounts carrying that id from the total |
| View.TotalNothingExcluded | resources/js/Pages/Csv/View.jsx:253-273 | with nothing excluded the total is the sum of all amounts |
| View.ShownTotalIgnoresGroups | resources/js/Pages/Csv/View.jsx:483 | excluding a group row never changes the displayed total |
| View.Toggle | resources/js/Pages/Csv/View.jsx:78-102 | the toggled id flips membership and every other id keeps it |
| View.ToggleTwice | resources/js/Pages/Csv/View.jsx:78-102 | toggling twice restores the set |
| View.ExpenseAmount | resources/js/Pages/Csv/View.jsx:115 | the shown amount is never positive, is the amount up to sign, and is the amount itself when not positive |
| View.ViewState.ToggleGroup | resources/js/Pages/Csv/View.jsx:78-88 | the expanded set is toggled at the group id and the exclusions are untouched |
| View.ViewState.ToggleExcludeEntry | resources/js/Pages/Csv/View.jsx:90-102 | the exclusion set is toggled at the row's entry or group id and the expanded set is untouched |
| View.RequestIds | resources/js/Pages/Csv/View.jsx:47 | the ids posted are the children's ids for a group, the entry's id otherwise, in order |
| View.AssignCategoryLocally | resources/js/Pages/Csv/View.jsx:54-67 | fails exactly when the category is unknown; otherwise the row or every child has exactly that category and nothing else changes |
| View.AssignTouchesRequested | resources/js/Pages/Csv/View.jsx:44-76 | the entries changed locally are exactly those whose ids were posted |
| ViewGrouping.GroupByKey | resources/js/Pages/Csv/View.jsx:216-235 | the forEach loop leaves exactly the key-ordered groups of the entries |
| ViewGrouping.GroupedKeys | resources/js/Pages/Csv/View.jsx:216-235 | there is a group for a key exactly when some entry has it |
| ViewGrouping.GroupedDistinct | resources/js/Pages/Csv/View.jsx:216-235 | no two groups share a key |
| ViewGrouping.GroupedContents | resources/js/Pages/Csv/View.jsx:216-235 | each group holds all entries with its key in order, with their number, their total and the first entry's texts |
| ViewGrouping.GroupedKeepsEntries | resources/js/Pages/Csv/View.jsx:216-235 | the groups together hold every valid entry exactly as often as given |
| ViewGrouping.ProcessList | resources/js/Pages/Csv/View.jsx:209-249 | processing a plain list gives the group rows, the singles and the blank entries |
| ViewGrouping.RepeatedKeys | resources/js/Pages/Csv/View.jsx:238-239 | a key has a group row exactly when more than one entry has it |
| ViewGrouping.SharesIffRepeated | resources/js/Pages/Csv/View.jsx:242-246 | a valid entry shares its key with a group row exactly when more than one valid entry has that key |
| ViewGrouping.SinglesCount | resources/js/Pages/Csv/View.jsx:242-246 | an entry is listed on its own exactly when its description is not blank and no other valid entry has its key |
| ViewGrouping.ProcessedLayout | resources/js/Pages/Csv/View.jsx:249 | the listed entries are the group rows' children, then the singles, then the blank entries |
| ViewGrouping.ProcessedKeepsEntries | resources/js/Pages/Csv/View.jsx:209-250 | processEntries neither drops nor repeats an entry |
| ViewGrouping.ProcessedGroup | resources/js/Pages/Csv/View.jsx:216-239 | each group row is a key held by several valid entries, with all of them, their count, their total and the first one's texts |
| ViewGrouping.ProcessTypes | resources/js/Pages/Csv/View.jsx:164-207 | each per-type list is processed in turn |
| ViewGrouping.ProcessEntries | resources/js/Pages/Csv/View.jsx:159-251 | grouping off returns the entries as they are; grouping on processes the list or each type |
| ViewGrouping.ProcessedTypesKeepEntries | resources/js/Pages/Csv/View.jsx:164-207 | each type keeps its name, its place and all of its entries |
| ViewGrouping.AsWrittenAgrees | resources/js/Pages/Csv/View.jsx:216-235 | when no key names an inherited member of Object.prototype, the loop as written groups correctly |
| ViewGrouping.AsWrittenThrows | resources/js/Pages/Csv/View.jsx:216-235 | an entry described "toString" without recipient makes the loop as written throw |
| CategorySummary.IndexOf | resources/js/Components/CategorySummary.jsx:27 | the position of a key when present, and no row with that key otherwise |
| CategorySummary.MapSet | resources/js/Components/CategorySummary.jsx:29-32 | Map.set keeps keys distinct, replaces a present key in place and appends a new one |
| CategorySummary.InitSums | resources/js/Components/CategorySummary.jsx:9-11 | distinct keys and every amount zero |
| CategorySummary.InitSumsKeys | resources/js/Components/CategorySummary.jsx:9-11 | a key has a row exactly when some category has that id |
| CategorySummary.InitSumsRows | resources/js/Components/CategorySummary.jsx:9-11 | every row carries the id, name and color of a listed category |
| CategorySummary.InitializeSums | resources/js/Components/CategorySummary.jsx:9-11 | the loop builds exactly those rows |
| CategorySummary.CatShareCount | resources/js/Components/CategorySummary.jsx:42-50 | a category listed k times on an entry receives its amount k times |
| CategorySummary.CatShareAbsent | resources/js/Components/CategorySummary.jsx:43-44 | a category the entry does not list receives nothing |
| CategorySummary.ExcludedAddsNothing | resources/js/Components/CategorySummary.jsx:18 | an excluded row adds nothing to any category or to the uncategorized sum |
| CategorySummary.GroupSharesAddUp | resources/js/Components/CategorySummary.jsx:22-39 | the children's equal shares of a non-excluded uncategorized group add up to its amount |
| CategorySummary.UnknownCategoriesIgnored | resources/js/Components/CategorySummary.jsx:41-53 | an entry whose categories are all unknown adds nothing to listed categories or to the uncategorized sum |
| CategorySummary.AddToCategories | resources/js/Components/CategorySummary.jsx:42-50 | each known category's row grows by the amount times its multiplicity; keys and order are kept |
| CategorySummary.AddChildren | resources/js/Components/CategorySummary.jsx:23-39 | each row grows by the non-excluded children's shares and the uncategorized sum by those of uncategorized children |
| CategorySummary.ProcessEntry | resources/js/Components/CategorySummary.jsx:17-55 | one row's contribution to each category and to the uncategorized sum |
| CategorySummary.ProcessAll | resources/js/Components/CategorySummary.jsx:58 | every category's row ends with its total over all rows, and the uncategorized sum with its total |
| CategorySummary.ValuesAreFinalRows | resources/js/Components/CategorySummary.jsx:61 | Map.values gives the category rows with their totals, in insertion order |
| CategorySummary.CalculateCategorySums | resources/js/Components/CategorySummary.jsx:4-74 | the panel rows are exactly the summary of the flattened entries |
| CategorySummary.RowsTotalPermutation | resources/js/Components/CategorySummary.jsx:77 | the total does not depend on the order of the rows |
| CategorySummary.RowsTotalNonZero | resources/js/Components/CategorySummary.jsx:62 | dropping the zero rows keeps the total |
| CategorySummary.CategoryRowsAreNonZeroRows | resources/js/Components/CategorySummary.jsx:61-63 | the sorted rows are a permutation of the nonzero category rows, and a row is there exactly when a category has it with a nonzero amount |
| CategorySummary.CategoryRowsDescending | resources/js/Components/CategorySummary.jsx:63 | the category rows come by non-increasing absolute amount |
| CategorySummary.CategoryRowsNonZero | resources/js/Components/CategorySummary.jsx:62 | no category row has amount zero |
| CategorySummary.SummaryLayout | resources/js/Components/CategorySummary.jsx:61-71 | the sorted category rows come first, then the "Uncategorized" row exactly when that sum is nonzero; no row is zero |
| CategorySummary.SummaryTotal | resources/js/Components/CategorySummary.jsx:61-77 | the panel total is the sum over all categories plus the uncategorized sum |
| CategorySummary.CategoryHasRow | resources/js/Components/CategorySummary.jsx:9-58 | each listed category has a row holding its total |
| CategorySummary.EmptySummary | resources/js/Components/CategorySummary.jsx:4-74 | with nothing listed the panel is empty |
| MapPage.Get | resources/js/Pages/Csv/Map.jsx:29 | a header has a value exactly when some mapping names it, and the value is one stored for it |
| MapPage.PutEffect | resources/js/Pages/Csv/Map.jsx:21-24 | the spread update sets the header's value, keeps every other header's value and keeps headers distinct |
| MapPage.GetAt | resources/js/Pages/Csv/Map.jsx:29 | with distinct headers a header's value is the one stored with it |
| MapPage.Missing | resources/js/Pages/Csv/Map.jsx:30 | a field is missing exactly when it is required and no header selects it |
| MapPage.ValidateIff | resources/js/Pages/Csv/Map.jsx:28-37 | validation passes exactly when every required field is selected by some header |
| MapPage.MissingInOrder | resources/js/Pages/Csv/Map.jsx:30-33 | the message names the missing fields in the order date, amount, description, each once |
| MapPage.OnlyRequiredFieldsMatter | resources/js/Pages/Csv/Map.jsx:29-30 | only which required fields are selected matters to the outcome and the message |
| MapPage.DuplicateMappingAccepted | resources/js/Pages/Csv/Map.jsx:29-30 | two headers mapped to date are accepted |
| MapPage.RequiredLabels | resources/js/Pages/Csv/Map.jsx:11-18 | the required fields' labels are "Transaction Date", "Amount" and "Description" |
| MapPage.NothingMappedMessage | resources/js/Pages/Csv/Map.jsx:33 | with nothing mapped the message lists all three labels after the fixed prefix |
| MapPage.InitialState | resources/js/Pages/Csv/Map.jsx:7-8 | the page starts from the stored mappings, or none, with no error |
| MapPage.MappingChangeEffect | resources/js/Pages/Csv/Map.jsx:20-26 | a change sets one header's field, leaves the others and clears the error |
| MapPage.SubmitOnlyWhenValid | resources/js/Pages/Csv/Map.jsx:39-51 | the page posts exactly when validation passes, posts the mappings unchanged, and otherwise only sets the message |
| CategoryTable.FindById | app/Http/Controllers/CategoryController.php:37 | finds a row with that id exactly when one exists |
| CategoryTable.WithoutName | database/migrations/2024_11_18_000000_add_food_category.php:23 | the rows kept are exactly those of other names |
| CategoryTable.CreateUnlessNamedEffect | database/migrations/2024_11_18_000000_add_food_category.php:12-18 | afterwards the name exists; old rows stay in place; a row is appended exactly when the name was absent, with the given name and color, not excluded |
| CategoryTable.CreateUnlessNamedIdempotent | database/migrations/2024_11_18_000000_add_food_category.php:12-18 | running the conditional insert twice is running it once |
| CategoryTable.CreateUnlessNamedDistinct | app/Console/Commands/AddFoodCategory.php:20-24 | an insert with a fresh id keeps ids distinct |
| CategoryTable.WithoutNameUnchanged | database/migrations/2024_11_18_000000_add_food_category.php:23 | deleting an absent name changes nothing |
| CategoryTable.WithoutNameEffect | database/migrations/2024_11_18_000000_add_food_category.php:23 | afterwards no row has the name, and deleting again changes nothing |
| CategoryTable.WithoutNameDistinct | database/migrations/2024_11_18_000000_add_food_category.php:23 | the delete keeps ids distinct |
| CategoryTable.WithoutNameKeepsIds | database/migrations/2024_11_18_000000_add_food_category.php:23 | a category of another name survives the delete |
| CategoryTable.DetachUnused | database/migrations/2024_11_17_174128_create_categories_table.php:24 | the cascade leaves the pivot unchanged when the deleted ids are unused |
| CategoryTable.NamedIdsOfCreated | database/migrations/2024_11_18_000000_add_food_category.php:12-23 | after inserting an absent name, the delete removes exactly the new row |
| CategoryTable.CreateThenDelete | database/migrations/2024_11_18_000000_add_food_category.php:10-24 | from tables without the name, insert then delete restores both tables |
| CategoryTable.SyncAllEffect | app/Http/Controllers/CategoryController.php:31-34 | each listed entry then has exactly the one category; every other entry keeps its own |
| CategoryTable.SyncAllIdempotent | app/Http/Controllers/CategoryController.php:31-34 | repeating the assignment changes nothing more |
| CategoryTable.Database.Create | app/Console/Commands/AddFoodCategory.php:20-24 | appends a row with the next id and the given fields; the pivot is unchanged; the tables stay valid |
| CategoryTable.Database.DeleteNamed | database/migrations/2024_11_18_000000_add_food_category.php:23 | removes the rows of the name and, through the cascade, their pivot rows; the tables stay valid |
| CategoryTable.Database.Sync | app/Http/Controllers/CategoryController.php:33 | the entry's categories become exactly the given ids; nothing else changes |
| CategoryController.EntryIdErrors | app/Http/Controllers/CategoryController.php:26 | each error names a position whose id is not an entry |
| CategoryController.EntryIdErrorsEmpty | app/Http/Controllers/CategoryController.php:26 | no id error exactly when every listed id is an entry |
| CategoryController.ValidationIff | app/Http/Controllers/CategoryController.php:24-28 | the request passes exactly when it lists at least one id, every id is an entry, and the category exists |
| CategoryController.AssignedCategory | app/Http/Controllers/CategoryController.php:37 | a valid request's category is found, with that id |
| CategoryController.Targets | app/Http/Controllers/CategoryController.php:31 | whereIn selects exactly the listed ids |
| CategoryController.TargetsIgnoreRepeats | app/Http/Controllers/CategoryController.php:31 | listing an id twice is listing it once |
| CategoryController.Assign | app/Http/Controllers/CategoryController.php:22-43 | validation errors change nothing and are answered as such; otherwise exactly the listed entries are synced to the category, and the response carries its row |
| FoodMigration.Up | database/migrations/2024_11_18_000000_add_food_category.php:10-19 | Food is inserted with its color exactly when absent; the pivot is untouched |
| FoodMigration.Down | database/migrations/2024_11_18_000000_add_food_category.php:21-24 | every Food row goes, with its pivot rows |
| FoodMigration.UpThenDown | database/migrations/2024_11_18_000000_add_food_category.php:10-24 | without a Food row beforehand, up then down gives back both tables |
| AddFoodCategory.Handle | app/Console/Commands/AddFoodCategory.php:13-27 | inserts Food exactly when absent and reports which case happened |
| AddHobbyCategory.Handle | app/Console/Commands/AddHobbyCategory.php:13-27 | inserts Hobby exactly when absent and reports which case happened |

## Left out

- Floating point: PHP floats and JavaScript numbers are exact integers (cents) or exact reals, so rounding and `toString` round trips are not modelled.
- Number parsing (`parseFloat`, PHP numeric strings), dates and the `orderBy('transaction_date')` query: rows arrive in the order the query returns.
- JavaScript object key order for index-like keys (integer-like type names and keys come first in numeric order): keys stay in insertion order.
- `null` or missing props (`!entries`, `child.categories?.length` on undefined, non-array per-type values at View.jsx:166, a flat object given as the plain list at View.jsx:210): the model takes well-formed inputs.
- React rendering, `localStorage`, axios and Inertia requests, and the `router.visit` redirect: the page handlers are pure functions of their state, and the post is returned as a value.
- `Intl.NumberFormat` formatting in `formatAmount`: only the sign rule is modelled.
- View.AssignCategoryLocally: entries are values, so the in-place mutation of the shared entry objects (aliasing) is not modelled. A category id the page does not know yields `None` instead of storing `[undefined]`.
- CategoryController.Assign: request values are integers. Laravel's translated error messages are represented by the failing field.
- CategoryTable.Database: timestamps, auto-increment gaps and the order in which Eloquent returns rows are not modelled. Ids come from a counter.
- `CategoryController::index`, the seeder and the other controllers and models are not part of this model.
- AddFoodCategory.Handle and AddHobbyCategory.Handle: the console output of `info` is returned as a string.
- StringHelper.SimilarChar: `similar_text` is a PHP builtin that is not in the repository. It is defined from PHP's C implementation, byte-wise, with a string as a sequence of bytes.
- View.KeepShownTypes: its own contract states only that no empty list survives; what it keeps is stated by View.KeepShownTypesLookup.
- CsvEntry.GetGroupedEntries: its last ensures (a type first seen later comes ahead only when its total is a unit larger) is proved for the model's insertion sort. For `usort` it is guaranteed only when the type totals are equal or at least a unit apart. When near-ties are not transitive, PHP's hybrid insertion sort (Zend/zend_sort.c, not part of this model) can place a type ahead of a near-tie first seen earlier. Example: seven types with totals 2.90, 2.00, 2.90, 2.00, 2.90, 2.00, 3.20 in first-appearance order.
- CsvEntry.SortedTieOrder: the same limit. It states the tie order of the insertion sort that stands for `usort`, not the order PHP's sort algorithm gives among totals less than a unit apart.
- StringHelper.GetSimilarity: symmetry is not stated, because it does not hold (StringHelper.SimilarityNotSymmetric).

## Findings

| source | as written | input that shows it | evidently intended | confidence | as-written member | corrected member |
|---|---|---|---|---|---|---|
| resources/js/Pages/Csv/View.jsx:216-235 | `groupedData = {}` inherits from Object.prototype, so for an unseen key such as "toString" `!groupedData[key]` is false; the update branch then calls `children.push` on an inherited function and throws a TypeError | one entry with description "toString" and no recipient | each key starts its own group, as for any other description (an `Object.create(null)` or `Map` store) | not executed | ViewGrouping.AsWrittenThrows | ViewGrouping.GroupByKey |
