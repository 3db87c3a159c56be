# CsvImporter, modelled in Dafny

A model of the abstract `CsvImporter` class (`src/CsvImporter.php`). The class
loads a CSV file into a database table. The first record is the header. A
declared mapping is resolved once against the header. Every other record
becomes a data dictionary, which is validated and then saved. All saves happen
inside one transaction on the default connection, and any failure rolls the
whole transaction back.

The project has four modules, one file each:

- `mapping.dfy`, module `FieldMapping`: `getMapping`. `GetMapping` is the
  loop that builds the dictionary in place. `Resolve` is the functional
  specification it is proved against. The lemmas give the properties of
  `Resolve`: which fields survive, and that the last entry for a field wins.
- `rows.dfy`, module `RowBuilding`: the inner `for` loop of `import`, which
  builds one record's data dictionary. `BuildRowData` is the loop and
  `RowDataPrefix`/`RowData` its specification. The two unchecked lookups
  (`$mapping[$header[$i]]` and `$row[$i]`) are error paths: `UndefinedKey`
  and `UndefinedOffset`.
- `store.dfy`, module `Store`: the destination table and its connection. A
  `Connection` object holds the table's rows and a stack of snapshots, one
  per open transaction level. `BeginTransaction` pushes a snapshot, `Save`
  appends, `Commit` pops, and `RollBack` restores the innermost snapshot.
  Whether the database accepts an insert is the connection's `accepts`
  predicate. Whether it commits the outermost transaction is its `commits`
  predicate; a refused commit discards the transaction's writes, and the
  `catch` then rolls back and rethrows. `NewEntity` stands for `getModel()` followed by `fill($data)`.
- `importer.dfy`, module `CsvImporter`: the row loop. `ImportRows` is the
  `while` loop over the records, proved against `Process`. `Import` resolves
  the mapping, opens the transaction, runs `ImportRows`, and then commits or
  rolls back. `Run` is its specification. `Import` is proved to leave the table exactly as `Run`
  says on success, and unchanged on failure. The lemmas about `Process` and
  `Run` state what a committed import contains, that one bad record aborts
  everything, that records equal to the header are skipped, and that
  importing twice duplicates.

Behaviour kept as the code has it:

- A header column that no declared entry resolves to is not ignored. Line 66
  indexes the resolved mapping without a check. The undefined key becomes an
  `ErrorException` under Laravel's error handler, and the `catch` rolls back
  and rethrows. `ResolvedRowDataOkIff` states exactly when a record builds.
  Such columns are not silently ignored.
- The inner loop runs over the header's width (`count($header)`), not over the
  record's width. Values past the header's width are never read
  (`RowDataIgnoresExtraValues`). A record shorter than the header aborts the
  import.
- The validation rules see the data dictionary and the table as it stands,
  so rules such as `unique` that query the table are expressible. The lemmas
  about importing twice assume rules that do not consult the table
  (`TableBlind`).
- Every record strictly equal to the header is skipped. This includes the
  header itself, because the reader yields it as well, and any later data
  record that happens to repeat it (`ProcessSkipsHeaderCopies`).
- An empty file has an empty header. Nothing is imported and the transaction
  commits.

## Model

| member | source | states |
|---|---|---|
| FieldMapping.FieldOf | src/CsvImporter.php:102-104 | an entry with a numeric key is looked up under its column name; an entry with a field-name key under that name |
| FieldMapping.Resolve | src/CsvImporter.php:98-110 | every resolved field occurs in the header, and is mapped to the column of some declared entry that resolves to it |
| FieldMapping.GetMapping | src/CsvImporter.php:98-110 | the in-place loop over the declared entries returns exactly the resolved mapping |
| FieldMapping.ResolveDomain | src/CsvImporter.php:101-108 | a field is resolved if and only if it occurs in the header and some entry resolves to it; other entries are dropped without error |
| FieldMapping.ResolveLastWins | src/CsvImporter.php:101-106 | when several entries resolve to the same field, the last one in the array's order decides the column |
| FieldMapping.ResolveBareColumn | src/CsvImporter.php:102-106 | an entry with a numeric key whose column is in the header maps that column to itself, unless a later entry overrides it |
| FieldMapping.ResolveNamedField | src/CsvImporter.php:105-106 | an entry with a field-name key that occurs in the header maps that field to its declared column, unless a later entry overrides it |
| RowBuilding.RowDataPrefix | src/CsvImporter.php:64-69 | the column loop gets through its first n columns if and only if each of those header names is mapped and the record has a value at each position; otherwise it fails with an undefined key or offset |
| RowBuilding.RowData | src/CsvImporter.php:64-69 | a whole record builds if and only if every header name is mapped and the record has a value at every header position; a failure is an undefined key or an undefined offset |
| RowBuilding.RowDataPrefixErrStays | src/CsvImporter.php:65-67 | once a lookup has failed, the remaining columns do not change the error |
| RowBuilding.RowDataPrefixFault | src/CsvImporter.php:66-67 | a failed build reports the first failing column (all earlier columns pass, that one does not): an undefined mapping key there, or else an undefined record offset |
| RowBuilding.RowDataPrefixContents | src/CsvImporter.php:64-69 | the data dictionary has the mapped column of every visited header name as a key, and each value is the record's value at a position whose header name maps to that key |
| RowBuilding.BuildRowData | src/CsvImporter.php:64-69 | the loop with its early aborts returns exactly the specified dictionary or error |
| RowBuilding.RowDataOkIff | src/CsvImporter.php:65-67 | a record builds if and only if every header name is mapped and the record is at least as wide as the header |
| RowBuilding.RowDataLastWins | src/CsvImporter.php:65-68 | when several header columns map to the same database column, that column holds the value of the last of them |
| RowBuilding.RowDataIgnoresExtraValues | src/CsvImporter.php:65-67 | values at positions at or past the header's width never affect the data dictionary |
| Store.NewEntity | src/CsvImporter.php:78-79 | the model made for a row belongs to the configured table and holds exactly the row's data dictionary |
| Store.Connection.constructor | src/CsvImporter.php:52 | a fresh connection holds the given rows and has no open transaction, with the database's insert and commit verdicts fixed; `Import` itself is proved for a connection at any transaction level |
| Store.Connection.BeginTransaction | src/CsvImporter.php:53 | opening a transaction records a snapshot of the current rows and changes no row |
| Store.Connection.Save | src/CsvImporter.php:78-80 | saving appends the filled model if the database accepts it, and otherwise changes nothing |
| Store.Connection.Commit | src/CsvImporter.php:84 | committing closes the innermost transaction level; it keeps the rows unless it is the outermost level and the database refuses, in which case the transaction's writes are discarded |
| Store.Connection.RollBack | src/CsvImporter.php:87 | rolling back restores the rows to the innermost snapshot and closes that level |
| CsvImporter.HeaderOf | src/CsvImporter.php:45 | the header is the file's first record, or has no columns when the file is empty |
| CsvImporter.DataRows | src/CsvImporter.php:57-61 | the records the loop processes are exactly the records that differ from the header, each as often as it occurs in the file |
| CsvImporter.DataRowsAppend | src/CsvImporter.php:57-61 | records are kept or skipped one at a time in file order, so the kept records of a file are those of its first part followed by those of the rest |
| CsvImporter.Prepared | src/CsvImporter.php:64-79 | a record yields a model exactly when it builds and its data passes validation against the current table; a build error is reported as is, and failed validation as a validation error |
| CsvImporter.Process | src/CsvImporter.php:57-81 | a loop that gets to the end keeps the earlier rows and appends exactly as many entities as there are records that differ from the header; it never fails at the commit |
| CsvImporter.Run | src/CsvImporter.php:44-84 | an import that gets to the commit keeps the earlier rows and appends exactly one entity per record that differs from the header, so at most one per record after the header and none for an empty file |
| CsvImporter.ImportRows | src/CsvImporter.php:57-81 | the `foreach` over the records, with its early aborts, returns exactly the table contents or the error the loop's specification gives, and on success leaves those contents in the connection |
| CsvImporter.Import | src/CsvImporter.php:39-90 | if the loop gets to the end and the database commits, the table holds exactly what the specification of the loop gives; on any failure, a refused commit included, the table is back to its state before the call and the error is reported; the transaction level is unchanged either way |
| CsvImporter.ProcessCommitted | src/CsvImporter.php:57-84 | a committed loop keeps the earlier rows and appends exactly one entity per record that differs from the header, in file order, each built from its record and validated against the table as it stood then |
| CsvImporter.ProcessAbortsOnBadRow | src/CsvImporter.php:57-88 | one record that differs from the header and fails to build, or fails validation whatever the table holds, makes the whole import fail, so nothing is kept |
| CsvImporter.ProcessCommitsGoodRows | src/CsvImporter.php:57-84 | if every record that differs from the header builds and validates whatever the table holds, and the database accepts every insert, the loop gets to the commit |
| CsvImporter.ProcessSkipsHeaderCopies | src/CsvImporter.php:59-61 | records strictly equal to the header, the first one included, are never validated or saved: removing them first gives the same result |
| CsvImporter.ProcessAppendsSameRows | src/CsvImporter.php:57-80 | with no database constraints and rules that do not consult the table, the entities a committed import appends do not depend on what the table already held |
| CsvImporter.ReimportDuplicates | src/CsvImporter.php:39-90 | with no database constraints and rules that do not consult the table, importing the same file a second time appends the same entities again; there is no deduplication |
| CsvImporter.RunCommitted | src/CsvImporter.php:44-84 | the header record is never imported, and a committed import appends one entity per remaining record that differs from the header, in file order |
| CsvImporter.ResolvedRowDataOkIff | src/CsvImporter.php:49-67 | with the mapping resolved from the declared entries, a record builds if and only if every header name is declared by some entry and the record is at least as wide as the header; an undeclared header column aborts the import at the first record that differs from the header |
| CsvImporter.UsersImportOneRow | src/CsvImporter.php:39-90 | a users file with one valid record commits exactly that record under the mapped column names |
| CsvImporter.UsersImportInvalidSecondRow | src/CsvImporter.php:39-90 | a second record with an invalid address makes the import fail, so the valid first record is not kept either |

## Left out

- CSV parsing and file access (`Reader::createFromPath`, `fetchOne`, iterating the reader). The file is given as a parsed sequence of records, each a sequence of strings. Parse errors raised before the transaction opens are not modelled.
- Laravel's validator and the configured rules (`Validator::make`, `fails`). They are replaced by a predicate on the table's current rows and the data dictionary, `Config.validates`.
- The database. The table is a sequence of entities. A rejected insert (constraint violation, lost connection) is the connection's `accepts` predicate returning false, and a refused commit its `commits` predicate returning false; each aborts the import like any other exception. Only the outermost level's commit reaches the database, so only that one can fail. Nested transaction levels are one snapshot each; the savepoint machinery is not modelled.
- `getModel` builds a model class from the table name at run time. It is modelled as an entity tagged with the table name. `fill` is modelled as taking every key of the data dictionary; mass-assignment guarding (`$fillable`) is not modelled.
- `save()` returning `false` without an exception (a model event cancelling the save) is ignored by the code and is not modelled.
- Throwables that are not `\Exception`, such as a `\Error` from instantiating a missing model class. These escape the `catch` without a rollback and are not modelled.
- An array literal that repeats a key keeps only the last value, at the key's first position. The entries are taken with distinct keys as PHP iterates them, so this is not modelled separately.
- The model class for `$table` is assumed to use the default connection, the one `Model::resolveConnection()` returns. A model class that names another connection saves outside the import's transaction, and the rollback does not undo those saves; the model has one `Connection` for both.
- The primary key and the `created_at`/`updated_at` timestamps that `save()` assigns are not part of `Entity`. "The same entities" in `ReimportDuplicates` means the same table and attributes.
- A `beginTransaction()` that fails is not modelled. It runs before the `try`, so it throws without a rollback and without saving anything.
- PHP array and comparison quirks. Numeric-string keys turning into integer keys, `is_numeric` on string keys, `in_array`'s loose comparison and `null` keys are not modelled. A declared key is either a position or a name, and header membership is plain string equality.
- The abstract class's configuration fields (`$table`, `$mapping`, `$rules`) are the `Config` value passed to `Import`. The unused `use App\Models\User` import has no behaviour to model.
