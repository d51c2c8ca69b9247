# xlsimport controller, modelled in Dafny

This project models the decision logic inside the backend module controller of
the TYPO3 extension *xlsimport* (`Classes/Controller/XlsimportController.php`).
The extension imports the rows of an uploaded spreadsheet into records of a
table that TYPO3 knows about. Four pieces of the controller are modelled:

- **Table choice** (`indexAction`) in `TableFilter.dfy`. It decides which
  candidate tables the current page offers, and under which label.
- **Field catalog** (`uploadAction`) in `Upload.dfy`. It builds the ordered
  field list:
  - `uid`, then `pid` when the table lacks it, then the table's columns;
  - the fixed audit and workspace fields are removed;
  - each field's label is resolved;
  - the password fields are collected.

  The same file builds the delete command map for the records already on the
  page.
- **Import reconciler** (`importAction`) in `Import.dfy`. It covers:
  - merging the posted dataset fragments into rows;
  - sanitising the column mapping, the overrides and the password list;
  - building one insert or update entry per row that is marked for import.
- **Grid extent and fill** (`getList`) in `Grid.dfy`. It counts the sheet's
  rows and columns, then fills the rectangle of cell values.

`Php.dfy` holds the PHP semantics the controller depends on:
- `empty()` and truthiness;
- array keys;
- ordered arrays with `unset`, `array_merge` and `array_unique`;
- `trimExplode`.

`Typo3.dfy` holds the TCA entries and the result of the language service's
`sL`.

The source changes local arrays in place inside `foreach` loops. The model
mirrors that with methods whose loops update `seq`/`map` values:
- each method is proved against a specification function;
- the properties are proved as lemmas about that function.

An ordered PHP array is an `OrdMap`: the keys in insertion order plus a map of
the entries. Writing to an existing key keeps its position, and `unset` removes
the key from both parts.

Inputs the controller reads from the framework are parameters:
- the TCA, the candidate table list and the page id;
- the language service `sL`, which either throws or returns a string;
- the posted request arguments;
- the loaded sheet.

The two random sources are oracles:
- `token(j)` stands for the part of `uniqid('NEW_', true)` after its `NEW_`
  prefix on the `j`-th row; the model's key is `"NEW_" + token(j)`;
- `secret(j, k)` stands for `md5(sha1(microtime()))` for the `k`-th password
  field of that row.

Where the code differs from the behaviour intended for the extension, the
model follows the code. The places are marked in comments:
- The override filter tests the override's *value*, not its field name, for
  emptiness and against the mapped field names (line 307).
- Overrides are written after the column values, so an override replaces a
  mapped column's value for the same field (lines 341-343).
- Whether a row is an update is decided by the column mapped to `uid`. The
  batch key, however, is the row's own entry named `uid` (lines 331, 349).
- The column count is taken from row 1 on every pass of the row loop, so the
  other rows never widen the grid (line 420).
- `pid` is added right after `uid` only when the table's columns lack it.
  Otherwise it keeps its place among the columns (lines 202-209).
- The raw label is used only when `sL` throws. An empty translation falls
  through to `[field]` (lines 218-225).

## Model

| member | source | states |
|---|---|---|
| TableFilter.AllowedTables | Classes/Controller/XlsimportController.php:130-151 | The result is `None` exactly when some offered table's title makes `sL` throw. Otherwise the offered tables are, in first-occurrence order, the deduplicated candidates that are not disallowed, are in TCA and have a fitting rootLevel: on page 0 strictly 1 or -1, elsewhere 0, -1 or unset. Each label is `sL(title)`, or the raw title when that is empty. |
| TableFilter.OnlyMinusOneOnBoth | Classes/Controller/XlsimportController.php:138-149 | A table is offered both on page 0 and on another page iff its rootLevel is -1. |
| Php.ArrayUnique | Classes/Controller/XlsimportController.php:130 | `array_unique` has no repeated element and has exactly the elements of its input. |
| Php.ArrayUniqueOrder | Classes/Controller/XlsimportController.php:130 | `array_unique` keeps the values in the order of their first occurrence in its input. |
| Php.ArrayMerge | Classes/Controller/XlsimportController.php:200-208 | `array_merge` gives the first array's keys followed by the second's new keys. A key's position is fixed by its first occurrence, and the second array's value wins. |
| Upload.TcaOfKeys | Classes/Controller/XlsimportController.php:195-209 | The merged field list is `uid` first, then `pid` if the table lacks it, then the table's other columns in their order. |
| Upload.FixedInTca | Classes/Controller/XlsimportController.php:195-209 | `uid` and `pid` are always in the merged field list. |
| Upload.FieldLabel | Classes/Controller/XlsimportController.php:218-231 | Every field other than `uid`/`pid` gets a non-empty label. `uid` and `pid` fail exactly when their fixed locallang label throws. |
| Upload.PasswordsIn | Classes/Controller/XlsimportController.php:234-237 | A field is listed iff it is in the list and its trimmed `eval` list contains `password`. |
| Upload.LabelledAll | Classes/Controller/XlsimportController.php:214-231 | The loop labels every field iff every field that is not disallowed has a label. |
| Upload.CatalogOfAborts | Classes/Controller/XlsimportController.php:214-239 | The catalog loop aborts exactly when some field is left unlabelled. |
| Upload.CatalogOfFields | Classes/Controller/XlsimportController.php:214-216 | The catalog's fields are the visited fields minus the disallowed ones, in order, without repeats. |
| Upload.CatalogOfLabels | Classes/Controller/XlsimportController.php:218-232 | Every catalog field carries the label of the fallback chain and keeps its `eval`. |
| Upload.CatalogOfPasswords | Classes/Controller/XlsimportController.php:234-237 | `passwordFields` lists the catalog's password fields in catalog order, and `hasPasswordField` holds iff that list is non-empty. |
| Upload.BuildCatalog | Classes/Controller/XlsimportController.php:214-239 | The loop computes the catalog: abort iff a label is missing, the kept fields in order, their labels, the password list and the flag. |
| Upload.CatalogOrder | Classes/Controller/XlsimportController.php:195-216 | The catalog order is `uid`, then `pid` when the table lacks it (else `pid` at its own place), then the other columns in order, with no disallowed field. |
| Upload.CatalogAborts | Classes/Controller/XlsimportController.php:226-231 | Building the catalog fails iff the fixed `uid` or `pid` label throws. |
| Upload.FieldCatalog | Classes/Controller/XlsimportController.php:195-239 | The whole catalog step. It fails iff the table has no TCA columns or a fixed `uid`/`pid` label throws. Otherwise the fields form a well-formed array in the order above, with no disallowed field. Each field carries the label of the fallback chain for its TCA label and keeps its `eval`. The password fields are listed in catalog order, and the flag holds iff that list is non-empty. |
| Upload.DeleteMapSpec | Classes/Controller/XlsimportController.php:180-184 | The command map is a well-formed array with one `delete => 1` command per distinct uid, in first-occurrence order; a repeated uid rewrites the same command. |
| Upload.DeleteCommands | Classes/Controller/XlsimportController.php:180-184 | One `delete => 1` command per distinct uid of the found records, in first-occurrence order. |
| Import.Merged | Classes/Controller/XlsimportController.php:283-294 | The merged dataset is a well-formed array of well-formed rows. |
| Import.MergeLaterWins | Classes/Controller/XlsimportController.php:283-294 | A cell exists iff some fragment addresses it, and it holds the value of the last such fragment. |
| Import.MergeRowOrder | Classes/Controller/XlsimportController.php:283-294 | Rows appear in the order of their first fragment. |
| Import.MergeFragments | Classes/Controller/XlsimportController.php:283-294 | The nested loops compute the merged dataset. |
| Import.SanitizeColumns | Classes/Controller/XlsimportController.php:296-304 | A column mapping is kept iff its field name is neither empty (`""`/`"0"`) nor disallowed. Kept mappings keep their order and values. |
| Import.SanitizeOverrides | Classes/Controller/XlsimportController.php:305-310 | An override is kept iff its value is not empty and is not one of the kept mapped field names. Kept overrides keep their order and values. |
| Import.SanitizePasswords | Classes/Controller/XlsimportController.php:312-320 | With a false flag (`""` or `"0"`) the list is empty. Otherwise it holds the entries of the trimmed comma list (line 279) that are not kept mapped field names, in order. |
| Import.EmptyPasswordList | Classes/Controller/XlsimportController.php:279 | An empty password list argument with the flag set yields the single field name `""`, from `trimExplode` of the empty string. |
| Import.PasswordListRoundTrip | Classes/Controller/XlsimportController.php:279 | `trimExplode` recovers a list of trimmed, comma-free field names from their comma join. |
| Import.UpdateRequestedSpec | Classes/Controller/XlsimportController.php:328-333 | A row is an update iff some column mapped to `uid` has a non-empty cell. |
| Import.UidNeverStored | Classes/Controller/XlsimportController.php:329-336 | A column mapped to `uid` never becomes a data field. |
| Import.MappedFieldPresent | Classes/Controller/XlsimportController.php:329-336 | A field other than `uid`/`pid` is in the record iff some column is mapped to it. |
| Import.MappedFieldValue | Classes/Controller/XlsimportController.php:329-336 | That field holds the cell of the last column mapped to it, or null when the row lacks the cell. |
| Import.FromColumnsPid | Classes/Controller/XlsimportController.php:337-339 | `pid` is set iff at least one column is mapped. Its value is the last `pid` column's cell when that is set, else the page id. |
| Import.WithSecretsSpec | Classes/Controller/XlsimportController.php:345-347 | Every listed password field gets the generated value for its last list position, and every other entry is unchanged. |
| Import.WriteOrder | Classes/Controller/XlsimportController.php:341-347 | A record's fields are the column fields, the overrides and the password fields. A password beats an override, and an override beats a column value. |
| Import.BuildRecord | Classes/Controller/XlsimportController.php:327-347 | The three loops compute the row's record and its update flag. |
| Import.LastRowFor | Classes/Controller/XlsimportController.php:325-351 | It finds the last imported row that produces a given batch key. |
| Import.BatchLastWins | Classes/Controller/XlsimportController.php:325-351 | Only imported rows produce entries. A key is in the batch iff some imported row produces it, and its entry is the record of the last such row. |
| Import.BatchValid | Classes/Controller/XlsimportController.php:349 | The batch is a well-formed ordered array. |
| Import.InsertRowKept | Classes/Controller/XlsimportController.php:349 | With tokens that are pairwise distinct and distinct from every `uid` key, each imported insert row keeps its own `NEW_` entry holding its record. |
| Import.ImportRows | Classes/Controller/XlsimportController.php:325-351 | The row loop computes the batch. |
| Import.ImportAction | Classes/Controller/XlsimportController.php:263-351 | It stops before any batch iff the table is empty or unknown to TCA. Otherwise it yields that table's batch built from the merged dataset and the sanitised mapping. |
| Grid.ExistingInRowOneCounts | Classes/Controller/XlsimportController.php:424-427 | The counter equals the number of existing cells in row 1 and never exceeds the highest column. |
| Grid.CountRowOne | Classes/Controller/XlsimportController.php:420-427 | The inner loop counts exactly the existing cells of row 1. |
| Grid.Extent | Classes/Controller/XlsimportController.php:416-434 | rows = 1 + the highest row. cols = max(1, the existing cells of row 1) when there are rows, else 1. |
| Grid.ColsBounds | Classes/Controller/XlsimportController.php:416-431 | cols is at least 1 and at most max(1, the highest column). |
| Grid.ColsOnlyFromRowOne | Classes/Controller/XlsimportController.php:420 | Sheets of the same size that agree on row 1 get the same column count, whatever their other rows hold. |
| Grid.Fill | Classes/Controller/XlsimportController.php:436-440 | The data holds exactly rows 1..rows-1, each with exactly columns 1..cols. Every entry is the cell's value, and a missing cell gives null. |
| Grid.GetList | Classes/Controller/XlsimportController.php:386-446 | It yields nothing (the exception) iff the format cannot be identified. A missing or refused file gives rows 0, cols 0 and no data. A readable sheet gives the extent and the filled rectangle above. |

## Left out

- Request and response plumbing is not modelled. This covers arguments, `_GET`, view assignment, redirects, flash messages and the page renderer: all framework I/O. Their values enter as parameters.
- The database query and the DataHandler runs for deleting old records and for the final commit are not modelled, because they are foreign persistence calls. Upload.DeleteCommands builds only the command map of line 183, for the one table, as data.
- Hook dispatch (lines 352-359) is not modelled, because it makes dynamic calls into foreign classes. Import.ImportAction returns the batch as it is before the hooks run.
- File storage (`addFile`, `getForLocalProcessing`) is not modelled. Neither are PhpSpreadsheet's format identification, the CSV CP1252 encoding switch and sheet loading. They are library I/O, replaced by the abstract `SheetFile` and `Sheet`.
- Reading the candidate tables from TypoScript, PageTS and the extension configuration (lines 110-129) is not modelled. TableFilter.AllowedTables takes the merged candidate list.
- `json_decode`, `urlencode` and `parse_str` (lines 282-288) are not modelled. The dataset enters as already-decoded (row, key, value) fragments.
- The entropy of `uniqid` and `md5(sha1(microtime()))` is not modelled. The oracles `token` and `secret` are parameters, and freshness is the hypothesis `TokensFresh`.
- Import.InsertRowKept: proves keys distinct only under `TokensFresh`, not for every oracle. Real `uniqid` values are distinct with overwhelming probability, which the model cannot express.
- Values are null, booleans, integers and strings. Floats and nested arrays as cell values are not modelled.
- Array keys are strings. PHP's normalisation of numeric-string keys to integers is observably the same for the lookups modelled here. The renumbering `array_merge` applies to integer keys is not modelled (TCA column names are strings).
- TableFilter.AllowedTables: the disallowed-table test is exact membership. PHP's loose `in_array` comparison of two numeric strings is not modelled.
- A TCA column carries only its label and its `eval` list. The other configuration is passed through by the source and is not needed here.
- Import.WriteOrder: states which value each field holds, not the order of the fields inside a record.
- Grid.Fill: the data is a map by row and column, so the key order of the nested PHP arrays is not stated. It is ascending by construction.
- Grid.CountRowOne: assumes the row cell iterator runs from column A to the sheet's highest column and visits only existing cells.
- Uncaught exceptions are modelled as `None` results: a throwing `sL` in `indexAction`, a throwing fixed label or a table unknown to TCA in `uploadAction`, and a failed format identification in `getList`.
- Upload.FieldCatalog: a table without TCA columns is modelled as the type error PHP 8 raises at line 200. The warning-and-null result PHP 7 gives there instead is not modelled.
