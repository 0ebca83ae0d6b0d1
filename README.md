# SPP ingredients allocation — a verified model of the allocation core

The SPP Ingredients Allocation App splits an available quantity of an
ingredient across the departments that used it. The split follows each
department's historical share of the item's usage. The app has two steps,
and this project models both:

1. `calculate_proportion` (module `Proportion`, with the record type and the
   matching rules in `Records`). It selects the usage records of one item. An
   all-digit identifier is compared with the serial column and any other
   identifier with the item-name column, both sides lower-cased. If nothing
   matches the result is `None`. Otherwise it sums the quantities per
   department, turns each sum into a percentage of the total and orders the
   departments by share, largest first. These are pure functions over
   sequences, plus an insertion sort for the in-place `sort_values`.
2. `allocate_quantity` (module `Allocation`). It gives each department
   `share / 100 * available_quantity` in a new column. If that column does
   not add up to the available quantity, it adds the whole difference to the
   first row holding the largest allocation. Then it rounds the column in
   place. This step is imperative. The method `AllocateQuantity` builds an
   `array<real>` column, then works on it in place: `FillSplit`, then
   `CorrectColumn` (which uses `ColumnSum` and `IndexOfMax`), then
   `RoundColumn`. Each method is proved against a specification function:
   `Split`, `Correct`, `Rounded`, `AllocationTable`.

The module `Scenarios` works one small example through both steps
(`FlourProportion`, `FlourAllocation`), and shows on a hand-written share
table that the rounded allocations can miss the available quantity
(`RoundedTotalMayDiffer`).

Arithmetic is exact (`real`). So the proportional split of a table whose
shares add up to 100 already adds up to the available quantity, and the
correction step is a proved no-op on the tables `calculate_proportion`
produces (`CorrectionIsNoOp`). The correction is still modelled and
specified on its own (`CorrectSpec`), for arbitrary columns.

Three consequences of the code as written:

- The rounded allocations need not add up to the available quantity,
  because the rounding comes after the correction: `RoundedTotalMayDiffer`
  shows three equal users and 10 units giving 3 + 3 + 3 = 9.
- The matched total is not guarded in the code before it is divided by, so
  a non-zero matched total is a precondition (`NonZeroTotal`). A negative
  total is allowed, as it is in the code.
- `sort_values` uses pandas' default sort, which is not stable, so the code
  fixes no order among equal shares. The model uses a stable insertion sort
  and claims only "non-increasing and a permutation".

Preconditions that stand for the callers' guarantees:

- `Loaded`: every record is dated 2024 or later (the loading filter). Its
  quantity is a number by construction, because unparsable quantities are
  dropped at load time.
- `NonZeroTotal`: the matched total is not zero, as above.
- `available > 0`: the button handler only calls `allocate_quantity` with a
  positive quantity.

## Model

| member | source | states |
|---|---|---|
| `Records.Matches` | SPP_Ingredients_Allocation_App.py:50-53 | the row filter; its properties are stated by `Records.MatchIgnoresCase`, `Records.NumericIgnoresName`, `Records.NameIgnoresSerial` and `Records.NumericMatchesSerial` |
| `Records.Matched` | SPP_Ingredients_Allocation_App.py:50-53 | a record is selected exactly when it is in the input and matches the identifier, and every matching record is kept as many times as it occurs (non-matching ones not at all) |
| `Records.NumericIgnoresName` | SPP_Ingredients_Allocation_App.py:50-51 | for a numeric identifier, changing a record's item name never changes whether it matches |
| `Records.NameIgnoresSerial` | SPP_Ingredients_Allocation_App.py:52-53 | for any other identifier, changing a record's serial never changes whether it matches |
| `Records.NumericMatchesSerial` | SPP_Ingredients_Allocation_App.py:50-51 | a numeric identifier matches exactly the records whose lower-cased serial equals the identifier itself |
| `Records.MatchIgnoresCase` | SPP_Ingredients_Allocation_App.py:50-53 | two identifiers that are equal once lower-cased select the same records |
| `Records.IsNumeric` | SPP_Ingredients_Allocation_App.py:50 | the numeric test; `Records.NumericUnderLower` states that it does not depend on case |
| `Records.NumericUnderLower` | SPP_Ingredients_Allocation_App.py:50 | whether an identifier counts as numeric does not depend on its case |
| `Records.LowerChar` | SPP_Ingredients_Allocation_App.py:51-53 | lower-casing a character leaves no upper-case letter and changes nothing else |
| `Records.Lower` | SPP_Ingredients_Allocation_App.py:51-53 | lower-casing; its properties are stated by `Records.LowerSpec` and `Records.LowerIdempotent` |
| `Records.LowerSpec` | SPP_Ingredients_Allocation_App.py:51-53 | a lower-cased string keeps its length, has no upper-case letter, and keeps every other character |
| `Records.LowerIdempotent` | SPP_Ingredients_Allocation_App.py:51-53 | lower-casing twice equals lower-casing once |
| `Records.MatchedEmpty` | SPP_Ingredients_Allocation_App.py:55 | the filtered table is empty exactly when no record matches |
| `Proportion.AddUsage` | SPP_Ingredients_Allocation_App.py:58 | folding in one record adds its department to the table (still with no duplicates) and adds its quantity to that department's value and to the column total |
| `Proportion.GroupByDepartment` | SPP_Ingredients_Allocation_App.py:58 | one row per department that occurs, no duplicates; each department's value is the sum of its records' quantities; the column total is the sum of all quantities; non-empty input gives a non-empty table |
| `Proportion.ToPercent` | SPP_Ingredients_Allocation_App.py:60 | each row becomes `value / total * 100`; departments and their uniqueness are kept |
| `Proportion.PercentSum` | SPP_Ingredients_Allocation_App.py:59-60 | the percent column adds up to the value column's total divided by the total, times 100 |
| `Proportion.InsertByValue` | SPP_Ingredients_Allocation_App.py:61 | inserting a row adds exactly that row (multiset) |
| `Proportion.SortDescending` | SPP_Ingredients_Allocation_App.py:61 | the sorted table is a permutation of its input |
| `Proportion.InsertSorted` | SPP_Ingredients_Allocation_App.py:61 | inserting into a non-increasing table keeps it non-increasing |
| `Proportion.SortDescendingSorted` | SPP_Ingredients_Allocation_App.py:61 | the sorted table is non-increasing by value |
| `Proportion.SortDescendingKeepsDepartments` | SPP_Ingredients_Allocation_App.py:61 | sorting keeps the set of departments and their uniqueness |
| `Proportion.SortDescendingKeepsSum` | SPP_Ingredients_Allocation_App.py:61 | sorting keeps the column total |
| `Proportion.CalculateProportion` | SPP_Ingredients_Allocation_App.py:49-63 | the whole of `calculate_proportion`; its properties are stated by `Proportion.NotFoundIffNoMatch`, `Proportion.OneRowPerDepartment`, `Proportion.ShareOfDepartment`, `Proportion.SharesSumTo100` and `Proportion.OrderedByShare` |
| `Proportion.NotFoundIffNoMatch` | SPP_Ingredients_Allocation_App.py:55-56 | `calculate_proportion` returns `None` exactly when no record matches the identifier |
| `Proportion.OneRowPerDepartment` | SPP_Ingredients_Allocation_App.py:58-63 | the result's departments are exactly those of the matched records; there is one row per department, at least one, and no department repeats |
| `Proportion.ShareOfDepartment` | SPP_Ingredients_Allocation_App.py:58-60 | each row's share is the department's summed matched quantity divided by the matched total, times 100 |
| `Proportion.SharesSumTo100` | SPP_Ingredients_Allocation_App.py:59-60 | the shares add up to 100 |
| `Proportion.OrderedByShare` | SPP_Ingredients_Allocation_App.py:61 | the rows are ordered by share, non-increasing |
| `Allocation.FirstMaxIndex` | SPP_Ingredients_Allocation_App.py:77 | a position whose value is at least every other value, with every earlier value strictly smaller (the first maximum) |
| `Allocation.FirstMaxIndexUnique` | SPP_Ingredients_Allocation_App.py:77 | any position with those two properties is the first maximum |
| `Allocation.ColumnSum` | SPP_Ingredients_Allocation_App.py:74 | returns the sum of the column |
| `Allocation.IndexOfMax` | SPP_Ingredients_Allocation_App.py:77 | returns the position of the first largest cell |
| `Allocation.FillSplit` | SPP_Ingredients_Allocation_App.py:71 | the new column holds `share / 100 * available` per row |
| `Allocation.CorrectColumn` | SPP_Ingredients_Allocation_App.py:74-78 | the column afterwards is the corrected old column |
| `Allocation.RoundColumn` | SPP_Ingredients_Allocation_App.py:80 | the column afterwards is the old column, rounded cell by cell |
| `Allocation.AllocateRows` | SPP_Ingredients_Allocation_App.py:71-82 | returns the allocation table of the proportion table |
| `Allocation.AllocateQuantity` | SPP_Ingredients_Allocation_App.py:66-82 | returns `None` exactly when `calculate_proportion` does; otherwise returns the allocation table of its result |
| `Allocation.Correct` | SPP_Ingredients_Allocation_App.py:74-78 | the correction step; `Allocation.CorrectSpec` states what it does, `Allocation.CorrectColumn` computes it in place |
| `Allocation.CorrectSpec` | SPP_Ingredients_Allocation_App.py:74-78 | the corrected column adds up to the available quantity; a column that already did is unchanged; otherwise only the first largest cell changes, and it changes by exactly the difference |
| `Allocation.SumUpdate` | SPP_Ingredients_Allocation_App.py:78 | changing one cell changes the column sum by the change in that cell |
| `Allocation.Split` | SPP_Ingredients_Allocation_App.py:71 | the proportional split; `Allocation.SumSplit` and `Allocation.SplitSumsToAvailable` state its total, `Allocation.FillSplit` computes it |
| `Allocation.SumSplit` | SPP_Ingredients_Allocation_App.py:71-74 | the split column adds up to the share total divided by 100, times the available quantity |
| `Allocation.SplitSumsToAvailable` | SPP_Ingredients_Allocation_App.py:71-75 | shares adding up to 100 give a split adding up to the available quantity |
| `Allocation.CorrectionIsNoOp` | SPP_Ingredients_Allocation_App.py:67-78 | on a table produced by `calculate_proportion`, the correction leaves the split unchanged |
| `Allocation.RoundHalfEven` | SPP_Ingredients_Allocation_App.py:80 | the result is within 1/2 of the input, and an exact half goes to the even neighbour |
| `Allocation.Rounded` | SPP_Ingredients_Allocation_App.py:80 | cell-by-cell `RoundHalfEven`; `Allocation.RoundColumn` computes it in place, `Allocation.AllocationTableSpec` states its bounds on the final table |
| `Allocation.RoundHalfEvenUnique` | SPP_Ingredients_Allocation_App.py:80 | any integer with those two properties is the rounding |
| `Allocation.AllocationTable` | SPP_Ingredients_Allocation_App.py:71-82 | the table `allocate_quantity` returns for a proportion table; `Allocation.AllocationTableSpec` states its properties, `Allocation.AllocateRows` computes it |
| `Allocation.UncorrectedTable` | SPP_Ingredients_Allocation_App.py:71-80 | the table without the correction step; `Allocation.TableOfFullShares` and `Allocation.AllocationOfProportions` state that it equals `AllocationTable` on shares adding up to 100 |
| `Allocation.AllocationTableSpec` | SPP_Ingredients_Allocation_App.py:71-82 | same departments, order and shares as the proportion table; every allocation is a whole number within 1/2 of its corrected value |
| `Allocation.TableOfFullShares` | SPP_Ingredients_Allocation_App.py:71-80 | when the shares add up to 100, each department gets the rounding of `share / 100 * available` |
| `Allocation.AllocationOfProportions` | SPP_Ingredients_Allocation_App.py:66-82 | end to end: the allocation of a `calculate_proportion` result is the rounding of `share / 100 * available` for each department |
| `Allocation.SingleDepartment` | SPP_Ingredients_Allocation_App.py:58-80 | an item used by one department gives one row with share 100 and the rounded available quantity |
| `Scenarios.FlourMatched` | SPP_Ingredients_Allocation_App.py:53 | "flour" selects both "Flour" records |
| `Scenarios.FlourProportion` | SPP_Ingredients_Allocation_App.py:49-63 | usage of 30 (A) and 70 (B) gives B 70%, then A 30% |
| `Scenarios.FlourAllocation` | SPP_Ingredients_Allocation_App.py:71-80 | 10 units are allocated 7 to B and 3 to A |
| `Scenarios.RoundedTotalMayDiffer` | SPP_Ingredients_Allocation_App.py:74-80 | three equal shares and 10 units give rounded allocations that add up to 9, not 10 |

## Left out

- Loading the sheet (`load_data_from_google_sheet`): credentials, network calls and DataFrame construction are outside the model. Its cleaning becomes preconditions: `Loaded` for the year filter, and the `real` type for the dropped unparsable quantities. Date and quarter parsing are not modelled.
- The Streamlit page: styling, widgets, the item-name suggestions and the result display. The only part kept is the button handler's `available_quantity > 0` guard, as a precondition.
- Floating point: the model uses exact `real`. So it does not reproduce float drift in the split or in the sum; with floats the correction step can fire, while in exact arithmetic it provably cannot.
- Zero total usage: the source divides by it without a guard, so `NonZeroTotal` is a precondition instead of an invented result.
- Records.Lower: lower-cases ASCII letters only. Python's `str.lower` also maps other Unicode letters.
- Records.IsNumeric: accepts non-empty ASCII digit strings only. Python's `str.isnumeric` also accepts other Unicode numeric characters.
- Records.Matches: compares serials as strings. The conversion of a numeric serial cell to text (`astype(str)`) is not modelled.
- Proportion.GroupByDepartment: lists departments in order of first occurrence. pandas lists them sorted by key; only ties in the later sort could tell the two apart.
- Proportion.SortDescending: is a stable insertion sort. pandas' default sort is not guaranteed stable, so the model claims only "non-increasing and a permutation", nothing about tie order.
- Allocation.AllocationTable: the allocation column stays `real` holding whole numbers, as the rounded float column does; no integer type conversion is modelled.
- A proof that the rounded allocations add up to the available quantity: the source does not promise it (see `Scenarios.RoundedTotalMayDiffer`).
- Largest-remainder rounding, the minimum floor with clawback, the significance threshold, the department filter and the report projection: none is in the source code.
