# Placement ledger of the CaristSI warehouse application

This project models the placement repository of a warehouse desktop
application: the `Places` table. Each row links a package (colis) to a
storage slot (emplacement) and records the operator (cariste) who put it
there and the deposit date (dateDepot). The model covers the repository's
inserts, its date update, its deletes, and the move-a-package entry point
`createPlace(caristeId, colisId, emplacementId)`. That entry point checks
that the package exists, finds its current placement, and then either
succeeds without a change or deletes the current row and inserts a new
row dated today. The model also covers the filtered reads, which are
joins and filters over the table.

The SQL is replaced by values:

- The table is a `seq<Place>` in table order.
- The tables it joins with (Colis, Emplacements, Colonnes, Allees) are
  maps from id to row, in a `Catalog`.
- A `LocalDate` is an `int` day number.
- `LocalDate.now()` is a `today` parameter.
- The nullable `dateDepot` is an `Option`.

Modules:

- `PlaceModel` (model.dfy): rows, the composite key, the date order and
  `Filter`, the WHERE clause.
- `PlaceQueries` (queries.dfy): the reads, as functions of the table and
  the catalog.
- `PlaceLedger` (ledger.dfy): the writes, as functions of the old table,
  with the lemmas about them.
- `PlaceRepository` (repository.dfy): the class `PlaceRepositoryImpl`,
  whose methods change `places` in place. `UpdatePlace` and
  `CreatePlaceForColis` are proved equal to the `PlaceLedger` functions
  `SetDate` and `Assign`. The insert and the delete are stated directly:
  `CreatePlace` as an append, `DeletePlace` as a `Filter` with `KeyIsNot`.

Choices where SQL leaves the result open:

- `ORDER BY dateDepot DESC` puts undated rows last, as MySQL sorts NULL
  below every value.
- Rows with equal dates keep table order, so the current placement is the
  first row, in table order, among the package's newest rows.
- A query without `ORDER BY` returns rows in table order.

The primary key (idCariste, idColis, idEmplacement) comes from the
database schema. The code does not check it. The class invariant `Valid`
states it. Each insert requires that its key is not already in the table,
because the database would otherwise reject the insert with an exception.

After a move, one would expect the package's current placement to be the
target slot. This does not hold in general:

- The code deletes only the current row. If the package has another row
  dated after today, that row stays current (`FutureRowStaysCurrent`).
- The model therefore proves this property, and idempotence, only under
  one of two conditions: no row of the package other than its current
  placement is dated today or later, or every package has at most one
  row. The current placement itself may be dated today, as in a second
  move on the same day. Every package has at most
  one row when the table is written only through this entry point.

## Model

| member | source | states |
|---|---|---|
| `PlaceRepository.PlaceRepositoryImpl.constructor` | src/main/kotlin/repository/PlaceRepositoryImpl.kt:13 | the repository starts on a table whose keys are unique, with the given joined tables |
| `PlaceRepository.PlaceRepositoryImpl.GetAllPlaces` | src/main/kotlin/repository/PlaceRepositoryImpl.kt:15-25 | every row of the table, in table order, nothing filtered |
| `PlaceQueries.GetPlaceByKeys` | src/main/kotlin/repository/PlaceRepositoryImpl.kt:27-44 | None exactly when no row has the full key; otherwise a row of the table with that key |
| `PlaceQueries.GetPlaceByKeysUnique` | src/main/kotlin/repository/PlaceRepositoryImpl.kt:27-44 | under the primary key, the lookup by a row's key returns that row |
| `PlaceModel.Filter` | src/main/kotlin/repository/PlaceRepositoryImpl.kt:46-73 | a WHERE clause keeps exactly the rows that satisfy it and never adds rows |
| `PlaceModel.FilterShrinks` | src/main/kotlin/repository/PlaceRepositoryImpl.kt:133-140 | a WHERE clause removes some row exactly when some row fails it, which gives the delete's result |
| `PlaceModel.FilterAppend` | src/main/kotlin/repository/PlaceRepositoryImpl.kt:133-140 | filtering distributes over concatenation, so deletes and reads keep table order |
| `PlaceQueries.GetPlacesByColisId` | src/main/kotlin/repository/PlaceRepositoryImpl.kt:46-59 | exactly the rows of the package when the package exists (inner join on Colis); empty otherwise |
| `PlaceQueries.GetPlacesByEmplacementId` | src/main/kotlin/repository/PlaceRepositoryImpl.kt:61-73 | exactly the rows of the slot, with no check that the package or slot exists; shorter than the table exactly when some row is in another slot |
| `PlaceQueries.Describe` | src/main/kotlin/repository/PlaceRepositoryImpl.kt:76-107 | level, column number and aisle number are present exactly when the left-join chain slot, column, aisle reaches them, and then carry those rows' values; the dimensions are the package's |
| `PlaceQueries.GetPlacesWithDetails` | src/main/kotlin/repository/PlaceRepositoryImpl.kt:75-109 | one detailed row per placement whose package exists; every row of an existing package appears; each detailed row is the join of its own placement |
| `PlaceRepository.PlaceRepositoryImpl.CreatePlace` | src/main/kotlin/repository/PlaceRepositoryImpl.kt:111-119 | a row with a fresh key is appended, the result is true and the key stays unique |
| `PlaceLedger.SetDate` | src/main/kotlin/repository/PlaceRepositoryImpl.kt:121-131 | the update keeps the row count and every key; only rows with the given key get the new date |
| `PlaceLedger.SetDateKeepsOtherRows` | src/main/kotlin/repository/PlaceRepositoryImpl.kt:121-131 | rows with another key are unchanged and in the same order |
| `PlaceLedger.SetDateThenGet` | src/main/kotlin/repository/PlaceRepositoryImpl.kt:121-131 | after an update that matched, looking the key up returns the row with the new date |
| `PlaceRepository.PlaceRepositoryImpl.UpdatePlace` | src/main/kotlin/repository/PlaceRepositoryImpl.kt:121-131 | true exactly when some row has the key; the new table is the date update of the old one; keys stay unique |
| `PlaceModel.RemoveUniqueKey` | src/main/kotlin/repository/PlaceRepositoryImpl.kt:133-140 | under the primary key, deleting by the key of row i removes that row and nothing else |
| `PlaceModel.FilterKeysUnique` | src/main/kotlin/repository/PlaceRepositoryImpl.kt:133-140 | a delete cannot break the primary key |
| `PlaceRepository.PlaceRepositoryImpl.DeletePlace` | src/main/kotlin/repository/PlaceRepositoryImpl.kt:133-140 | removes exactly the rows with the key and keeps the others in order; true exactly when such a row existed |
| `PlaceQueries.InsertByDate` | src/main/kotlin/repository/PlaceRepositoryImpl.kt:199 | inserting into a date-descending list keeps it sorted and adds exactly that row |
| `PlaceQueries.SortByDateDesc` | src/main/kotlin/repository/PlaceRepositoryImpl.kt:199 | the result is sorted newest first, undated last, and is a permutation of the input |
| `PlaceQueries.NewestIndex` | src/main/kotlin/repository/PlaceRepositoryImpl.kt:182 | the row there is at least as recent as every row, and every earlier row is strictly older |
| `PlaceQueries.SortHeadIsNewest` | src/main/kotlin/repository/PlaceRepositoryImpl.kt:182-191 | the head of the sort is the first newest row of the input |
| `PlaceQueries.GetHistoriquePlaces` | src/main/kotlin/repository/PlaceRepositoryImpl.kt:194-208 | exactly the package's rows, as a permutation, newest first; empty when the package does not exist |
| `PlaceQueries.GetPlaceByColis` | src/main/kotlin/repository/PlaceRepositoryImpl.kt:177-192 | None exactly when the package does not exist or has no row; otherwise a row of the package with a maximal date |
| `PlaceQueries.CurrentIsFirstNewest` | src/main/kotlin/repository/PlaceRepositoryImpl.kt:177-192 | the current placement is the first row, in table order, among the package's newest rows |
| `PlaceLedger.Superseded` | src/main/kotlin/repository/PlaceRepositoryImpl.kt:154-164 | the delete step removes only rows of the package itself |
| `PlaceLedger.Assign` | src/main/kotlin/repository/PlaceRepositoryImpl.kt:142-175 | fails exactly for an unknown package, and then changes nothing; if the current placement is already in the slot, succeeds with no change; otherwise succeeds, and the table is the delete step followed by the new row dated today |
| `PlaceRepository.PlaceRepositoryImpl.CreatePlaceForColis` | src/main/kotlin/repository/PlaceRepositoryImpl.kt:142-175 | the result and the new table are those of `Assign` on the old table; keys stay unique |
| `PlaceLedger.OneRowPerColisInsertsFreshKey` | src/main/kotlin/repository/PlaceRepositoryImpl.kt:162-174 | with one row per package, the entry point's insert never repeats a key |
| `PlaceLedger.AssignMovesOneRow` | src/main/kotlin/repository/PlaceRepositoryImpl.kt:162-174 | a move leaves the old table minus the current row, plus the new row dated today at the end |
| `PlaceLedger.AssignAppends` | src/main/kotlin/repository/PlaceRepositoryImpl.kt:166-174 | a package with no row gets the new row appended and the call succeeds |
| `PlaceLedger.AssignKeepsKeysUnique` | src/main/kotlin/repository/PlaceRepositoryImpl.kt:162-174 | the entry point keeps the primary key when its insert is fresh |
| `PlaceLedger.SupersededDropsColis` | src/main/kotlin/repository/PlaceRepositoryImpl.kt:162-164 | with one row per package, the delete step removes the package's only row |
| `PlaceLedger.AssignKeepsOneRowPerColis` | src/main/kotlin/repository/PlaceRepositoryImpl.kt:142-175 | every call, failed or successful, keeps at most one row per package |
| `PlaceLedger.AssignThenCurrent` | src/main/kotlin/repository/PlaceRepositoryImpl.kt:154-174 | after a call on an existing package, its current placement is in the target slot (see Left out) |
| `PlaceLedger.AssignIdempotent` | src/main/kotlin/repository/PlaceRepositoryImpl.kt:154-160 | a second call for the same package and slot, by any operator on any day, returns the same result and changes nothing (see Left out) |
| `PlaceLedger.SupersededMembers` | src/main/kotlin/repository/PlaceRepositoryImpl.kt:154-164 | a row survives the delete step exactly when it is in the table and its key is not the current placement's |
| `PlaceLedger.SupersededPredates` | src/main/kotlin/repository/PlaceRepositoryImpl.kt:154-164 | under the condition of `AssignThenCurrent`, every row of the package left by the delete step is undated or predates today |
| `PlaceLedger.DuplicateInsertKeepsCurrent` | src/main/kotlin/repository/PlaceRepositoryImpl.kt:154-174 | when the insert's key is already taken, the row holding it survives the delete step, and the package still has a current placement |
| `PlaceLedger.SupersededKeepsOtherColis` | src/main/kotlin/repository/PlaceRepositoryImpl.kt:162-164 | the delete step keeps every row of every other package, in order |
| `PlaceLedger.AssignKeepsOtherColis` | src/main/kotlin/repository/PlaceRepositoryImpl.kt:162-174 | the rows of every other package, and their order, are unchanged |
| `PlaceLedger.FutureRowStaysCurrent` | src/main/kotlin/repository/PlaceRepositoryImpl.kt:154-174 | an example: a package with rows dated 9 and 8 is moved on day 6; the row dated 8 survives and stays current |

## Left out

- The Ktorm/SQL layer, the MySQL connection and its failures (a lost connection, a timeout) are not modelled. The tables are values.
- The `Place` model class and the `PlaceRepository` interface are not part of this model. The fields of `Place` come from the constructor calls in the repository.
- The types of the package dimension columns are not part of this model. They are modelled as `int`.
- `LocalDate.now()` is not modelled. The entry point takes `today` as a parameter.
- Transactions and concurrent access are not modelled. The entry point's read, delete and insert run as one step here, while the source runs them as separate statements with no transaction.
- A duplicate-key insert is not modelled. The database rejects it with an exception; here `CreatePlace` and `CreatePlaceForColis` require that the insert's key is fresh.
- The exception in the move is therefore not modelled either. When the insert (src/main/kotlin/repository/PlaceRepositoryImpl.kt:174) throws, the current row has already been deleted (:163). The row that holds the clashing key is the package's own row in the target slot, which is not the current row (:158), so the delete keeps it. The package therefore still has a current placement: the newest row left (`DuplicateInsertKeepsCurrent`).
- `PlaceRepository.PlaceRepositoryImpl.UpdatePlace` reports a match whenever a row has the key, even if its date does not change. This follows the MySQL driver's default of counting matched rows, not changed rows.
- `PlaceLedger.AssignThenCurrent` requires that no row of the package other than its current placement is dated today or later, or that every package has at most one row. The general claim is false (`FutureRowStaysCurrent`).
- `PlaceLedger.AssignIdempotent` has the same requirement, for the same reason.
- The order of rows with equal dates and the position of undated rows are fixed choices. SQL leaves both open.
- UI screens, navigation, dependency injection, the login check, the aisle repository and the Ktorm schema objects are not part of this model. They are presentation or plumbing with no rules of their own.
- The slot capacity limits and the one-package-per-slot policy are not modelled. The source does not enforce them.
