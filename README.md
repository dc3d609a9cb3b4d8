# Expense tracker core, modelled in Dafny

A model of the record logic of a small command-line expense tracker (`expenses.py`). An expense
has an id, a description, an amount and a stored "big" (`pricey`) flag. The model covers:

- the record and its construction check;
- allocation of the smallest unused positive id;
- the add path, which appends in place;
- the input validator used by the `add` command;
- the row loop of the CSV import, including per-row error recovery;
- the merge of imported records into the store;
- the big-only report filter and its total;
- the rows written by the CSV export.

Layout (one module per component, all over the same `Expense` datatype):

- `wrappers.dfy`, module `Wrappers`: `Option`, `Result` and `Outcome`. They stand for the exceptions the source raises.
- `py_text.dfy`, module `PyText`: Python's `str.strip()`, using the full set of characters for which `str.isspace()` holds.
- `records.dfy`, module `Records`: the `Expense` record and `find_next_id`. Also `add_expense`, as the pure function `Added` and as the method `ExpenseList.Add`, which updates a list field in place. Also `validate_description_or_value` and the validation order of the `add` command.
- `csv_bridge.dfy`, module `CsvBridge`: the `import_csv` row loop, the `import_python` merge and the rows `save_to_csv` writes.
- `report.dfy`, module `Report`: the `--big` filter and the total that `print_expenses` prints.

Amounts are `real`. Only comparisons and sums of amounts matter here. `float(...)` is a parameter
`parse: string -> Option<real>`, where `None` means the call raises `ValueError`. CSV files are
sequences of rows that are already split into fields.

Where the documented behaviour of the tool and the code differ, the model follows the code:

- Record construction (`__post_init__`, expenses.py:29-31) refuses only the empty description.
  A blank description such as `" "` is accepted. Only the `add` command's validator strips the
  description first. `NewExpenseChecksOnlyEmptiness` and `ValidatorStricterThanRecord` state this.
- `add_expense` itself does not strip, so on its own it accepts a whitespace-only description.
- The import checks no sign, so a row with a negative amount is imported
  (`ImportAcceptsNonPositiveAmount`).
- An empty import file has no header. `next(reader)` then raises `StopIteration`, which nothing
  catches. This is modelled as the error `NoHeader` of `ImportFile`, not as an empty import.

## Model

| member | source | states |
|---|---|---|
| `Records.NewExpense` | expenses.py:22-31 | the record constructor with its post-init check: the empty description is refused with `DescriptionRequired`, anything else gives the record with the given fields (proved in `NewExpenseChecksOnlyEmptiness`) |
| `Records.NewExpenseChecksOnlyEmptiness` | expenses.py:22-31 | constructing a record fails with 'Description is required.' exactly when the description is empty; otherwise the record holds the given fields; a blank description is accepted |
| `Records.NextId` | expenses.py:33-38 | the id `find_next_id` returns: the first positive integer not in the id set (proved the smallest free id in `NextIdIsSmallestFree`, and the loop's result in `FindNextId`) |
| `Records.NextIdIsSmallestFree` | expenses.py:33-38 | the next id is at least 1, is not the id of any record, and every smaller positive number is in use |
| `Records.FindNextId` | expenses.py:33-38 | the counting loop ends at the smallest positive integer not used as an id (freed ids are reused, no counter) |
| `Records.NextIdIsFresh` | expenses.py:34-38 | no record in the list carries the id the next allocation returns |
| `Records.NextIdAtMostLengthPlusOne` | expenses.py:34-38 | the allocated id is at most the list length plus one |
| `Records.NextIdExamples` | expenses.py:33-38 | on the empty list the id is 1; with ids 1, 2 and 4 in use it is 3 |
| `Records.Added` | expenses.py:107-116 | `add_expense` on a list value: the amount check first, then construction with `NextId` and the threshold flag, then the append (proved in `AddedOutcome` and `AddedKeepsIdsUnique`) |
| `Records.AddedOutcome` | expenses.py:107-116 | a non-positive amount fails first with 'The amount must be positive.'; a positive amount with an empty description fails at construction; otherwise exactly one record is appended with the next free id, the given amount and description, and `pricey == (value >= 1000)` |
| `Records.AddedKeepsIdsUnique` | expenses.py:110-116 | a successful add keeps every earlier record in place and keeps pairwise-distinct ids distinct |
| `Records.ExpenseList.Add` | expenses.py:107-116 | the caller's list is extended in place by the new record on success and left unchanged on error, and the error is reported |
| `Records.Validate` | expenses.py:118-126 | the validator on a number, a string or any other value, with its three errors (proved in `ValidateRejects`) |
| `Records.ValidateRejects` | expenses.py:118-126 | the validator refuses exactly amounts <= 0, strings that are all whitespace (empty after strip), and values of any other type |
| `Records.ValidatorStricterThanRecord` | expenses.py:118-126 | every description the validator accepts is one the record accepts, but `" "` passes the record check and fails the validator |
| `Records.AddCommand` | expenses.py:143-153 | the `add` command: the value then the description are validated, then `add_expense` runs on the store (proved in `AddCommandOutcome`) |
| `Records.AddCommandOutcome` | expenses.py:143-153 | the `add` command fails exactly on a non-positive amount or a blank description, checked in that order; on success the store gains one record with the smallest free id, and unique ids stay unique |
| `PyText.Strip` | expenses.py:59 | Python's `str.strip()` with no argument, as used at expenses.py:59 and expenses.py:123: leading then trailing whitespace removed (characterised by `StripIsSlice`, `StripRemovesOnlySpace`, `StripBoundaries` and `StripEmptyIffAllSpace`) |
| `PyText.StripIsSlice` | expenses.py:59 | the stripped description is a contiguous slice of the field |
| `PyText.StripRemovesOnlySpace` | expenses.py:59 | what strip removes before and after that slice is whitespace |
| `PyText.StripBoundaries` | expenses.py:59 | a non-empty stripped description neither starts nor ends with whitespace |
| `PyText.StripEmptyIffAllSpace` | expenses.py:123 | a string strips to the empty string exactly when every character is whitespace |
| `CsvBridge.ParseRow` | expenses.py:57-61 | the per-row parse: the amount column, the stripped description and the empty-description check, each failure as its own error (proved in `ParseRowOutcome`) |
| `CsvBridge.ParseRowOutcome` | expenses.py:57-61 | a row is accepted exactly when it has two columns, a parsable amount and a non-blank description; the accepted pair is (parsed amount, stripped description); each rejection carries the error of the first failing step, in the source's order |
| `CsvBridge.GoodRowsAccepted` | expenses.py:56-61 | every accepted pair comes from a row of the file that parses to it, and its description is non-empty |
| `CsvBridge.ImportFile` | expenses.py:48-75 | the whole import: no header row fails with `NoHeader`, otherwise the rows after the header go through `Imported` (the loop in `ImportCsv` is proved equal to it) |
| `CsvBridge.ImportCsv` | expenses.py:48-75 | an empty file fails for want of a header; otherwise the header is skipped and the loop yields the records of the row-by-row import of the remaining rows |
| `CsvBridge.Imported` | expenses.py:56-75 | the row loop on values: each accepted row appends one record, each rejected row is skipped (proved in `ImportedSnoc`, `ImportedRecords`, `RejectedRowIsSkipped` and `ImportedIdsFresh`) |
| `CsvBridge.ImportedSnoc` | expenses.py:56-72 | one more row leaves the records so far in place and appends one record exactly when the row is accepted |
| `CsvBridge.ImportedLength` | expenses.py:56-72 | the import yields one record per accepted row |
| `CsvBridge.ImportedAt` | expenses.py:63-72 | the k-th accepted row becomes the k-th record: its amount, stripped description, `pricey == (value >= 1000)`, and the id smallest free in the store plus the records before it |
| `CsvBridge.ImportedRecords` | expenses.py:56-75 | the import yields exactly one record per accepted row, in row order, with that row's amount and non-empty stripped description, the threshold flag, and the id smallest free in the store plus the earlier imported records |
| `CsvBridge.RejectedRowIsSkipped` | expenses.py:74-75 | a rejected row yields nothing and does not stop the loop: the result equals that of the file without the row |
| `CsvBridge.ImportedIdsFresh` | expenses.py:53-64 | imported ids are pairwise distinct and distinct from every id in the store loaded when the import starts; so the store followed by the import keeps unique ids |
| `CsvBridge.UniqueIdsConcat` | expenses.py:179 | two lists with distinct ids and disjoint id sets concatenate to a list with distinct ids |
| `CsvBridge.ImportAcceptsNonPositiveAmount` | expenses.py:58-72 | a row whose amount parses to zero or less is imported unchanged and marked not big |
| `CsvBridge.Merge` | expenses.py:178-179 | the merged list is the store followed by the imported records |
| `CsvBridge.ImportCommand` | expenses.py:167-185 | the `import-python` command: nothing imported or no confirmation keeps the store, a confirmed import saves the store followed by the imported records (proved in `ImportCommandKeepsStore`) |
| `CsvBridge.ImportCommandKeepsStore` | expenses.py:167-185 | the command fails exactly when the file has no header row; a confirmed import of at least one record saves exactly the store followed by the imported records; no confirmation or nothing imported leaves the store unchanged; in every case the stored records stay first and in order and unique ids stay unique |
| `CsvBridge.SaveToCsv` | expenses.py:87-93 | the header row of cells `id`, `amount`, `description`, `big` comes first, then one row per record in list order, each reading back as exactly its record |
| `Report.BigOnly` | expenses.py:137 | the list comprehension that keeps the records whose stored flag is set (characterised in `BigOnlyKeepsOrder`) |
| `Report.Shown` | expenses.py:134-137 | the records `report` prints: all of them, or with `--big` only `BigOnly` of them (used by `ReportBigExample`) |
| `Report.BigOnlyKeepsOrder` | expenses.py:137 | the big-only report keeps exactly the records whose stored flag is set, at strictly increasing positions, so in their original order |
| `Report.BigOnlyAtPositions` | expenses.py:137 | the k-th shown record is the record at the k-th pricey position |
| `Report.PriceyPositionsLength` | expenses.py:137 | there are as many pricey positions as shown records |
| `Report.PriceyPositionsIncrease` | expenses.py:137 | the kept positions are in range and strictly increasing |
| `Report.PriceyPositionsExact` | expenses.py:137 | a position is kept exactly when its record is pricey |
| `Report.BigOnlyConcat` | expenses.py:137 | the big-only view of a merged list is the big-only view of each part, in order |
| `Report.Total` | expenses.py:99-105 | the sum of the values that `print_expenses` accumulates (the loop in `PrintExpenses` is proved equal to it; additive by `TotalConcat`) |
| `Report.PrintExpenses` | expenses.py:97-105 | the accumulated total equals the sum of the values of the shown records |
| `Report.TotalConcat` | expenses.py:99-105 | the total of a concatenation is the sum of the totals |
| `Report.BigTotalAtLeastThreshold` | expenses.py:99-105 | when every stored flag matches its amount, the big-only total is at least 1000 per shown record |
| `Report.ReportBigExample` | expenses.py:134-138 | with amounts 999 and 1000, `report --big` shows only the 1000 record and totals 1000 |

## Left out

- Pickle persistence (`read_db_or_init`, `save_db`) is left out because it is foreign serialisation plus file I/O. The store is a sequence that the commands take and return. `ImportCommand` assumes that the two loads of the store (at expenses.py:53 and expenses.py:178) read the same snapshot.
- The "file not found gives an empty list" fallbacks for the store and the import file are left out as I/O error handling. So is the `FileNotFoundError` report in `save_to_csv`.
- The `csv` module's reading, writing, quoting and file opening are left out. Rows are already split into fields, and the export yields typed cells rather than text. The text forms of a float (its `repr`) and of a bool (`True`/`False`) are not modelled.
- `float(...)` parsing is an abstract parameter. NaN, infinities and float rounding are not modelled, because amounts are exact reals.
- Printing is left out: the table rows, the `:>8.2f` layout, the per-row "Error in row" messages and `export-python`'s dump. Of `print_expenses` only the total is modelled.
- Click wiring and the `input()` prompt are left out. The user's answer is the boolean `confirmed`. Answers other than `y` after `.lower()` count as refusals, as in the source.
- Validate does not model that Python's `bool` is a subclass of `int`. The validator would treat `True` and `False` as the numbers 1 and 0.
