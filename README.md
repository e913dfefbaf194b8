# ParallelFileConcatenator, modelled in Dafny

ParallelFileConcatenator walks a directory tree, reads every tabular file whose
extension is listed in `file_types`, and merges the tables into one Parquet
file. Identical files are dropped by their `(name, size, extension, MD5)` key,
and duplicate rows are dropped from the merged table. It reports
`total_files`, `total_rows`, `duplicated_files`, `duplicated_rows` (packaged
script only) and `saved_MB`. The repository holds two near-identical scripts:

- `ParallelFileConcatenator/ParallelFileConcatenator.py`, the packaged script:
  eight default file types, seven reader branches, `pool.imap`, and a count of
  duplicate rows within each file.
- `ParallelFileConcatenator.py`, the top-level script: five default file types,
  three readers, an exact column-list filter, and `pool.map`.

This project models the decision core of both scripts:

- `process_file`: the extension gate, the hash taken before the `try`, reader
  dispatch, the column filter and the duplicate-row count.
- `combine_files`: the size sum, the ordered fold with its seen-set and
  counters, concatenation, `drop_duplicates` and the saved-bytes figure.

Files, tables and the services around them are values:

- A walked file is a name, a size, an optional digest (absent when hashing
  raises) and an optional decoded table (absent when its reader raises).
- A table is a column list and a sequence of rows. Rows are compared as whole
  values.

Modules:

- `Wrappers`: `Option` and `Result`.
- `Splitext`: the extension rule of `os.path.splitext`.
- `Frames`: tables, plus `pd.concat`, `duplicated()` and `drop_duplicates()` on
  rows.
- `Files`: walked files, keys and per-file outcomes.
- `Dedup`: which results are first occurrences of their key, defined without a
  seen-set.
- `PackageConcatenator` and `RootConcatenator`: the two scripts.

In each script module, `process_file` is a pure function, `ProcessFile`.
`combine_files` is a method, `CombineFiles`, with loops. It delegates its fold
loop to `FoldResults` and is proved equal to the specification function
`Combine`. The lemmas state what `Combine` guarantees.

Behaviour of the code that the model keeps:

- A file that cannot be hashed aborts the whole run. It is not skipped, because
  both scripts call `get_file_hash` before the `try`.
- An input with no accepted file makes `pd.concat([])` raise. No empty output
  file is written.
- Results are folded in submission (walk) order. `imap` and `map` both keep
  that order, so a completion-order race never decides which duplicate is
  kept.
- The top-level script has readers for CSV, Feather and Parquet only. Any other
  listed extension leaves `df` unbound, and that error is caught as a read
  error.

## Model

| member | source | states |
|---|---|---|
| `Splitext.Extension` | ParallelFileConcatenator/ParallelFileConcatenator.py:58 | the extension is empty or starts with `.`, is a suffix of the name, and contains no further `.` or `/` |
| `Splitext.ExtensionOfDotted` | ParallelFileConcatenator/ParallelFileConcatenator.py:58 | when a non-dot character comes before the final `.` of the base name, the extension is the final dotted suffix |
| `Splitext.ExtensionOfDotsOnly` | ParallelFileConcatenator.py:34 | when only dots come before the final `.`, as in `.csv`, the extension is empty |
| `Splitext.ExtensionWithoutDot` | ParallelFileConcatenator.py:34 | a name without a dot has an empty extension |
| `Frames.DropDuplicates` | ParallelFileConcatenator/ParallelFileConcatenator.py:130 | the rows left are pairwise distinct, are exactly the row values of the input, and are no more than the input |
| `Frames.DropDuplicatesKeepsFirstOccurrences` | ParallelFileConcatenator/ParallelFileConcatenator.py:80 | `drop_duplicates()` equals `df[~df.duplicated()]`: first occurrences, in their original order |
| `Frames.DuplicateCountBalance` | ParallelFileConcatenator/ParallelFileConcatenator.py:80 | `duplicated().sum()` plus the deduplicated length equals the row count |
| `Frames.DuplicateCountIsRowsMinusDistinct` | ParallelFileConcatenator/ParallelFileConcatenator.py:80 | the within-file duplicate count is the row count minus the number of distinct rows, so it lies between 0 and `len(df)` |
| `Frames.DropDuplicatesCountsDistinct` | ParallelFileConcatenator.py:100 | the deduplicated table has one row per distinct row value |
| `Frames.DropDuplicatesFixesDistinct` | ParallelFileConcatenator.py:100 | deduplication leaves a table unchanged if and only if it has no repeated row |
| `Frames.DropDuplicatesIdempotent` | ParallelFileConcatenator/ParallelFileConcatenator.py:130 | deduplicating a second time changes nothing |
| `Frames.DropDuplicatesSubadditive` | ParallelFileConcatenator/ParallelFileConcatenator.py:128-130 | deduplicating a concatenation keeps at most as many rows as deduplicating its parts separately |
| `Frames.ConcatRowsContents` | ParallelFileConcatenator/ParallelFileConcatenator.py:128 | concatenation has the summed row count, and a row is in it if and only if it is in one of the frames |
| `Frames.Duplicated` | ParallelFileConcatenator/ParallelFileConcatenator.py:80 | `df.duplicated()` has one mark per row, and a row is marked if and only if an equal row occurs before it |
| `Frames.DuplicateCount` | ParallelFileConcatenator/ParallelFileConcatenator.py:80 | `duplicated().sum()`; its contract is stated by `Frames.DuplicateCountBalance` and `Frames.DuplicateCountIsRowsMinusDistinct` |
| `Frames.ConcatRows` | ParallelFileConcatenator/ParallelFileConcatenator.py:128 | `pd.concat(data_frames, ignore_index=True)` on rows; its contract is stated by `Frames.ConcatRowsContents` |
| `Files.TotalSize` | ParallelFileConcatenator/ParallelFileConcatenator.py:105-108 | `original_size_bytes`, the summed size of every walked file; `PackageConcatenator.CombineFiles` proves its loop computes it, and `CombineStats` states the saving from it |
| `Dedup.FirstOccurrences` | ParallelFileConcatenator/ParallelFileConcatenator.py:116-121 | the records kept by the seen-set test, defined without a seen-set; its contract is stated by `Dedup.FirstOccurrencesKeys`, `Dedup.FirstOccurrencesCount`, `Dedup.FirstOccurrencesSource` and `Dedup.FirstOccurrencesEmpty` |
| `Dedup.FirstOccurrencesKeys` | ParallelFileConcatenator/ParallelFileConcatenator.py:116-117 | the kept records carry pairwise different keys, and together they carry exactly the keys of all records |
| `Dedup.FirstOccurrencesCount` | ParallelFileConcatenator/ParallelFileConcatenator.py:116-118 | there are as many kept records as distinct keys |
| `Dedup.FirstOccurrencesSource` | ParallelFileConcatenator/ParallelFileConcatenator.py:116-121 | the kept records are exactly the records of the results that no earlier result shares a key with |
| `Dedup.FirstOccurrencesEmpty` | ParallelFileConcatenator/ParallelFileConcatenator.py:113-121 | nothing is kept if and only if no result is a record, and the kept records never outnumber the records |
| `PackageConcatenator.Reader` | ParallelFileConcatenator/ParallelFileConcatenator.py:62-78 | only a dotted extension has a reader; `.xlsx` and `.xls` share the Excel branch, and any other extension falls to the unsupported branch |
| `PackageConcatenator.ProcessFile` | ParallelFileConcatenator/ParallelFileConcatenator.py:55-84 | `process_file`; its contract is stated by `PackageConcatenator.ProcessFileGate` |
| `PackageConcatenator.Step` | ParallelFileConcatenator/ParallelFileConcatenator.py:114-123 | one iteration of the result loop; its effect over a whole run is stated by `PackageConcatenator.AggregateCountsFiles` and `PackageConcatenator.AggregateKeepsFirstOccurrences` |
| `PackageConcatenator.Aggregate` | ParallelFileConcatenator/ParallelFileConcatenator.py:113-123 | the result loop run in walk order; its contract is stated by `PackageConcatenator.AggregateCountsFiles`, `PackageConcatenator.AggregateKeepsFirstOccurrences` and `PackageConcatenator.AggregateKeepsOneTablePerKey` |
| `PackageConcatenator.Results` | ParallelFileConcatenator/ParallelFileConcatenator.py:109-113 | `pool.imap(process_file, process_args)` in submission order with `expected_columns = None`; `PackageConcatenator.ResultsAt` states one result per walked file |
| `PackageConcatenator.ResultsAt` | ParallelFileConcatenator/ParallelFileConcatenator.py:109-113 | there is one result per walked file, and result `i` is `process_file` of file `i` |
| `PackageConcatenator.Combine` | ParallelFileConcatenator/ParallelFileConcatenator.py:89-139 | `combine_files`; its contract is stated by `PackageConcatenator.CombineAborts`, `PackageConcatenator.CombineStats` and `PackageConcatenator.CombineOutput` |
| `PackageConcatenator.ProcessFileGate` | ParallelFileConcatenator/ParallelFileConcatenator.py:55-84 | an unlisted extension is skipped; the step raises if and only if a listed file cannot be hashed; it returns a record if and only if the file is listed, hashed, has a reader and decodes; the record holds the file's key and table, and its duplicate count equals the rows `drop_duplicates` removes |
| `PackageConcatenator.ExpectedColumnsIgnored` | ParallelFileConcatenator/ParallelFileConcatenator.py:56 | the result does not depend on `expected_columns` |
| `PackageConcatenator.DefaultTypesReachOnlyDottedReaders` | ParallelFileConcatenator/ParallelFileConcatenator.py:59-78 | with the default `file_types`, every listed extension that can occur has a non-Excel reader, the unsupported branch is never taken, and accepted extensions are the six dotted ones |
| `PackageConcatenator.DefaultTypesSkipExcel` | ParallelFileConcatenator/ParallelFileConcatenator.py:89 | as written, a readable `report.xlsx` is skipped by the default `file_types` |
| `PackageConcatenator.IntendedTypesReadExcel` | ParallelFileConcatenator/ParallelFileConcatenator.py:68-69 | with dotted Excel defaults, every listed extension has a reader and a decodable `.xlsx`/`.xls` file yields a record through the Excel reader |
| `PackageConcatenator.AggregateCountsFiles` | ParallelFileConcatenator/ParallelFileConcatenator.py:113-123 | after the fold, `files_processed` holds exactly the keys of all records, `total_files` equals its size, and `total_files + duplicated_files` equals the number of non-`None` results |
| `PackageConcatenator.AggregateKeepsFirstOccurrences` | ParallelFileConcatenator/ParallelFileConcatenator.py:113-123 | the fold keeps the tables of the first result of each key, in walk order; `total_rows` and `duplicated_rows` sum over those tables only |
| `PackageConcatenator.AggregateKeepsOneTablePerKey` | ParallelFileConcatenator/ParallelFileConcatenator.py:116-121 | `total_files == len(files_processed) == len(data_frames)` == the number of distinct keys |
| `PackageConcatenator.OutputWithinCounts` | ParallelFileConcatenator/ParallelFileConcatenator.py:119-130 | the deduplicated concatenation has at most `total_rows - duplicated_rows` rows |
| `PackageConcatenator.CombineAborts` | ParallelFileConcatenator/ParallelFileConcatenator.py:89-128 | the run raises from a hash if and only if some listed file cannot be hashed; it fails in `concat` if and only if nothing raised and no file yielded a record |
| `PackageConcatenator.CombineStats` | ParallelFileConcatenator/ParallelFileConcatenator.py:92-136 | on return, `total_files` is the number of distinct keys, `total_files + duplicated_files` the number of non-`None` results, and `total_rows` the rows of the kept tables; `duplicated_rows <= total_rows`, and the saving is every walked file's size minus the output size |
| `PackageConcatenator.CombineOutput` | ParallelFileConcatenator/ParallelFileConcatenator.py:128-130 | the written rows are the first occurrences of the kept tables concatenated in acceptance order; they are pairwise distinct, lose no row value, are unchanged by a second deduplication, and number at most `total_rows - duplicated_rows` |
| `PackageConcatenator.FoldResults` | ParallelFileConcatenator/ParallelFileConcatenator.py:112-124 | the loop aborts if and only if some result raised; otherwise it ends in the state of the reference fold `Aggregate` |
| `PackageConcatenator.CombineFiles` | ParallelFileConcatenator/ParallelFileConcatenator.py:89-139 | the imperative run returns exactly what `Combine` specifies |
| `RootConcatenator.Reader` | ParallelFileConcatenator.py:38-43 | only a dotted extension has a reader, and only `.csv`, `.feather` and `.parquet` have one |
| `RootConcatenator.ProcessFile` | ParallelFileConcatenator.py:31-51 | `process_file`; its contract is stated by `RootConcatenator.ProcessFileGate` and `RootConcatenator.ColumnFilterIsExact` |
| `RootConcatenator.Step` | ParallelFileConcatenator.py:86-94 | one iteration of the result loop; its effect over a whole run is stated by `RootConcatenator.AggregateCountsFiles` and `RootConcatenator.AggregateKeepsFirstOccurrences` |
| `RootConcatenator.Aggregate` | ParallelFileConcatenator.py:85-94 | the result loop run in walk order; its contract is stated by `RootConcatenator.AggregateCountsFiles`, `RootConcatenator.AggregateKeepsFirstOccurrences` and `RootConcatenator.AggregateKeepsOneTablePerKey` |
| `RootConcatenator.Results` | ParallelFileConcatenator.py:77-80 | `pool.map(process_file, process_args)` in submission order; `RootConcatenator.ResultsAt` states one result per walked file |
| `RootConcatenator.ResultsAt` | ParallelFileConcatenator.py:77-80 | there is one result per walked file, and result `i` is `process_file` of file `i` |
| `RootConcatenator.Combine` | ParallelFileConcatenator.py:54-108 | `combine_files`; its contract is stated by `RootConcatenator.CombineAborts`, `RootConcatenator.CombineStats` and `RootConcatenator.CombineOutput` |
| `RootConcatenator.ProcessFileGate` | ParallelFileConcatenator.py:31-51 | an unlisted extension is skipped; the step raises if and only if a listed file cannot be hashed; a listed extension without a reader is skipped as a caught error; it returns the file's table under its key if and only if the file is listed, hashed, has a reader, decodes and passes the column filter |
| `RootConcatenator.ColumnFilterIsExact` | ParallelFileConcatenator.py:45-48 | with a column list, a table is returned if and only if it would be returned without one and its columns equal the list in order; a permuted column list is skipped as a mismatch |
| `RootConcatenator.DefaultTypesReadOnlyThreeFormats` | ParallelFileConcatenator.py:34-43 | with the default `file_types`, only `.csv`, `.feather` and `.parquet` can pass the gate, and the unbound-`df` path is never taken |
| `RootConcatenator.AggregateCountsFiles` | ParallelFileConcatenator.py:85-94 | after the fold, `files_processed` holds exactly the keys of all records, `total_files` equals its size, and `total_files + duplicated_files` equals the number of non-`None` results |
| `RootConcatenator.AggregateKeepsFirstOccurrences` | ParallelFileConcatenator.py:85-94 | the fold keeps the tables of the first result of each key, in walk order, and `total_rows` sums over those tables only |
| `RootConcatenator.AggregateKeepsOneTablePerKey` | ParallelFileConcatenator.py:88-92 | `total_files == len(files_processed) == len(data_frames)` == the number of distinct keys |
| `RootConcatenator.CombineNeverFiltersColumns` | ParallelFileConcatenator.py:65 | with `expected_columns = None`, no file of a run is skipped for its columns |
| `RootConcatenator.CombineAborts` | ParallelFileConcatenator.py:54-97 | `pool.map` raises if and only if some listed file cannot be hashed; `concat` fails if and only if nothing raised and no file yielded a table |
| `RootConcatenator.CombineStats` | ParallelFileConcatenator.py:57-106 | on return, `total_files` is the number of distinct keys, `total_files + duplicated_files` the number of non-`None` results, and `total_rows` the rows of the kept tables; the saving is every walked file's size minus the output size |
| `RootConcatenator.CombineOutput` | ParallelFileConcatenator.py:97-100 | the written rows are the first occurrences of the kept tables concatenated in acceptance order; they are pairwise distinct, lose no row value, are unchanged by a second deduplication, and number at most `total_rows` |
| `RootConcatenator.FoldResults` | ParallelFileConcatenator.py:83-94 | given results of which none raised, the loop ends in the state of the reference fold `Aggregate` |
| `RootConcatenator.CombineFiles` | ParallelFileConcatenator.py:54-108 | the imperative run returns exactly what `Combine` specifies |

## Left out

- `get_file_hash` (MD5 over 4096-byte chunks): the digest is an opaque value
  supplied with each file. Its absence stands for an exception while hashing.
- The pandas readers: each file carries the table its reader returns, or its
  absence when the reader raises. Only the reader chosen by the extension is
  ever consulted.
- `pd.concat` column union and NaN fill: rows are compared as whole values. The
  merged table's column layout is not modelled.
- `to_parquet(compression='gzip')` and the size of the written file: the output
  size is an input. Failures while writing are not modelled.
- `saved_MB`: the model keeps the integer byte difference `savedBytes`. The
  floating-point division by 1024² is not modelled.
- `multiprocessing.Pool`, `cpu_count`, `imap` and `map`: both keep submission
  order, so results are a sequence in walk order.
- `os.walk`, `os.path.join` and `os.path.getsize`: the walk is an input
  sequence of files. The size that `process_file` reads is taken to be the
  walked size. Exceptions from `getsize` or the walk are not modelled.
- Exceptions other than hashing, such as one from `df.duplicated()`, are not
  modelled.
- tqdm progress bars, logging, the banners, `print_summary` (PrettyTable,
  ANSI stripping, centering), and the `input()` prompt are presentation and
  I/O. Log lines appear only as the skip reason of a result.
- `setup.py` is packaging metadata.

## Findings

| source | as written | input that shows it | evidently intended | confidence | as-written member | corrected member |
|---|---|---|---|---|---|---|
| ParallelFileConcatenator/ParallelFileConcatenator.py:89 | the default `file_types` lists `'xlsx'` and `'xls'` without a dot, but `splitext` extensions always start with `.` | a readable `report.xlsx` is skipped before any reader, so the Excel branch at line 68 is unreachable | `'.xlsx'` and `'.xls'`, which match the Excel branch | high (not executed) | `PackageConcatenator.DefaultTypesSkipExcel` | `PackageConcatenator.IntendedTypesReadExcel` |
