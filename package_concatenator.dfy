/**
 * The packaged script: `process_file` classifies one walked file, reads it and
 * counts its duplicate rows; `combine_files` folds the per-file results in walk
 * order, keeps the first file of each key, concatenates the kept tables, drops
 * duplicate rows and reports statistics.
 */
module PackageConcatenator {
  import opened Wrappers
  import opened Frames
  import opened Splitext
  import opened Files
  import opened Dedup

  /** The default `file_types`; `xlsx` and `xls` are written without their dot. */
  const DefaultFileTypes: seq<string> := [".csv", ".feather", ".parquet", "xlsx", "xls", ".json", ".pickle", ".hdf"]

  /** The reader branch chosen for an extension, if any. */
  function Reader(ext: string): (r: Option<Format>)
    ensures r.Some? ==> |ext| > 1 && ext[0] == '.'
  {
    if ext == ".csv" then Some(Csv)
    else if ext == ".feather" then Some(Feather)
    else if ext == ".parquet" then Some(Parquet)
    else if ext == ".xlsx" || ext == ".xls" then Some(Excel)
    else if ext == ".json" then Some(Json)
    else if ext == ".pickle" then Some(Pickle)
    else if ext == ".hdf" then Some(Hdf)
    else None
  }

  /** What `process_file` returns for a file beyond its key: the table and its within-file duplicate count. */
  datatype Counted = Counted(frame: Dataset, duplicateRows: nat)

  /**
   * `process_file`. The extension gate is case-sensitive list membership; the
   * digest is taken before the `try`, so a failure to hash escapes as `Raised`;
   * inside the `try` a reader failure and the unsupported branch become `None`.
   * `expectedColumns` is accepted and ignored.
   */
  function ProcessFile(f: WalkedFile, fileTypes: seq<string>, expectedColumns: Option<seq<string>>): Outcome<Counted>
  {
    var ext := Extension(f.name);
    if ext !in fileTypes then Skipped(NotListed)
    else if f.digest.None? then Raised
    else if Reader(ext).None? then Skipped(Unsupported)
    else if f.decoded.None? then Skipped(ReadError)
    else
      var df := f.decoded.value;
      Accepted(Record(FileKey(f.name, f.size, ext, f.digest.value), Counted(df, DuplicateCount(df.rows))))
  }

  /**
   * A file reaches a reader only if its extension is listed in `file_types`.
   * Hashing happens before the `try`, so the step raises exactly when a listed
   * file cannot be hashed. It returns a record exactly when the file is listed,
   * hashed, has a reader and decodes. The record carries the file's key and
   * table, and its duplicate count is the number of rows that
   * `drop_duplicates` would remove from that table.
   */
  lemma ProcessFileGate(f: WalkedFile, fileTypes: seq<string>, expectedColumns: Option<seq<string>>)
    ensures var r := ProcessFile(f, fileTypes, expectedColumns);
      && (Extension(f.name) !in fileTypes ==> r == Skipped(NotListed))
      && (r.Raised? <==> Extension(f.name) in fileTypes && f.digest.None?)
      && (r.Accepted? <==>
            Extension(f.name) in fileTypes && f.digest.Some? && Reader(Extension(f.name)).Some? && f.decoded.Some?)
      && (r.Accepted? ==>
            && r.record.key == FileKey(f.name, f.size, Extension(f.name), f.digest.value)
            && r.record.content.frame == f.decoded.value
            && r.record.content.duplicateRows + |DropDuplicates(f.decoded.value.rows)| == |f.decoded.value.rows|)
  {
    if f.decoded.Some? {
      DuplicateCountBalance(f.decoded.value.rows);
    }
  }

  /** The schema filter is never applied: the result does not depend on `expected_columns`. */
  lemma ExpectedColumnsIgnored(f: WalkedFile, fileTypes: seq<string>, columns: seq<string>)
    ensures ProcessFile(f, fileTypes, Some(columns)) == ProcessFile(f, fileTypes, None)
  {
  }

  /**
   * With the default `file_types`, the Excel branch and the "unsupported" branch
   * are unreachable: an extension is never `xlsx` or `xls`, and every listed
   * extension that can occur has its own reader.
   */
  lemma DefaultTypesReachOnlyDottedReaders(f: WalkedFile, expectedColumns: Option<seq<string>>)
    ensures var ext := Extension(f.name);
      ext in DefaultFileTypes ==> Reader(ext).Some? && Reader(ext).value != Excel
    ensures ProcessFile(f, DefaultFileTypes, expectedColumns) != Skipped(Unsupported)
    ensures ProcessFile(f, DefaultFileTypes, expectedColumns).Accepted? ==>
      ProcessFile(f, DefaultFileTypes, expectedColumns).record.key.extension in
        [".csv", ".feather", ".parquet", ".json", ".pickle", ".hdf"]
  {
  }

  /** The default `file_types` as the reader branches evidently intend it, with dotted Excel extensions. */
  const IntendedFileTypes: seq<string> := [".csv", ".feather", ".parquet", ".xlsx", ".xls", ".json", ".pickle", ".hdf"]

  /** As written, a readable, hashable `report.xlsx` is skipped by the default `file_types` before any reader runs. */
  lemma DefaultTypesSkipExcel(size: nat, digest: Digest, table: Dataset)
    ensures ProcessFile(WalkedFile("report.xlsx", size, Some(digest), Some(table)), DefaultFileTypes, None)
      == Skipped(NotListed)
  {
    var stem := "report";
    assert stem[0] != '.' && forall m :: 0 <= m < |stem| ==> stem[m] != '/';
    ExtensionOfDotted(stem, "xlsx");
    assert "report.xlsx" == stem + "." + "xlsx";
  }

  /**
   * With the intended defaults every listed extension has a reader, and a
   * hashable, decodable `.xlsx` or `.xls` file goes through the Excel reader
   * and yields a record.
   */
  lemma IntendedTypesReadExcel(f: WalkedFile)
    requires Extension(f.name) == ".xlsx" || Extension(f.name) == ".xls"
    requires f.digest.Some? && f.decoded.Some?
    ensures forall e :: e in IntendedFileTypes ==> Reader(e).Some?
    ensures Reader(Extension(f.name)) == Some(Excel)
    ensures ProcessFile(f, IntendedFileTypes, None).Accepted?
  {
  }

  /** The state of the aggregation loop: `files_processed`, the `stats` counters and `data_frames`. */
  datatype Tally = Tally(
    seen: set<FileKey>,
    totalFiles: nat,
    totalRows: nat,
    duplicatedFiles: nat,
    duplicatedRows: nat,
    frames: seq<Dataset>)

  const EmptyTally := Tally({}, 0, 0, 0, 0, [])

  /** One iteration of the aggregation loop. */
  function Step(t: Tally, result: Outcome<Counted>): Tally
  {
    if !result.Accepted? then t
    else
      var rec := result.record;
      if rec.key !in t.seen then
        Tally(t.seen + {rec.key}, t.totalFiles + 1, t.totalRows + |rec.content.frame.rows|,
              t.duplicatedFiles, t.duplicatedRows + rec.content.duplicateRows, t.frames + [rec.content.frame])
      else
        t.(duplicatedFiles := t.duplicatedFiles + 1)
  }

  /** The aggregation loop run over `rs` in order. */
  function Aggregate(rs: seq<Outcome<Counted>>): Tally
  {
    if rs == [] then EmptyTally else Step(Aggregate(rs[..|rs| - 1]), rs[|rs| - 1])
  }

  /** The tables of the kept records. */
  function FramesOf(recs: seq<Record<Counted>>): seq<Dataset>
  {
    if recs == [] then [] else FramesOf(recs[..|recs| - 1]) + [recs[|recs| - 1].content.frame]
  }

  /** The summed within-file duplicate counts of the kept records. */
  function DuplicatesOf(recs: seq<Record<Counted>>): nat
  {
    if recs == [] then 0 else DuplicatesOf(recs[..|recs| - 1]) + recs[|recs| - 1].content.duplicateRows
  }

  /**
   * The loop's seen-set is the set of keys of all records, and its file
   * counters add up: `total_files` is the number of distinct keys and
   * `total_files + duplicated_files` the number of non-`None` results.
   */
  lemma {:induction false} AggregateCountsFiles(rs: seq<Outcome<Counted>>)
    ensures var t := Aggregate(rs);
      && t.seen == KeysOf(rs)
      && t.totalFiles == |t.seen|
      && t.totalFiles + t.duplicatedFiles == AcceptedCount(rs)
  {
    if rs != [] {
      var n := |rs|;
      var p := rs[..n - 1];
      AggregateCountsFiles(p);
      KeysOfSnoc(rs);
      if rs[n - 1].Accepted? && rs[n - 1].record.key !in KeysOf(p) {
        AddNewKey(KeysOf(p), rs[n - 1].record.key);
      }
    }
  }

  /**
   * Among results with equal keys only the first in walk order is kept: the
   * loop's tables are those of the first occurrences, in walk order, and
   * `total_rows` and `duplicated_rows` sum over those tables only.
   */
  lemma {:induction false} AggregateKeepsFirstOccurrences(rs: seq<Outcome<Counted>>)
    ensures var t := Aggregate(rs);
      && t.frames == FramesOf(FirstOccurrences(rs))
      && t.totalRows == RowTotal(t.frames)
      && t.duplicatedRows == DuplicatesOf(FirstOccurrences(rs))
  {
    if rs == [] {
      assert FirstOccurrences(rs) == [];
    } else {
      var n := |rs|;
      var p := rs[..n - 1];
      AggregateKeepsFirstOccurrences(p);
      AggregateCountsFiles(p);
      IsFirstLast(rs);
      var t := Aggregate(p);
      var fo := FirstOccurrences(rs);
      var fp := FirstOccurrences(p);
      if IsFirst(rs, n - 1) {
        var rec := rs[n - 1].record;
        assert fo == fp + [rec];
        assert fo[..|fo| - 1] == fp;
        assert Aggregate(rs).frames == t.frames + [rec.content.frame];
        assert (t.frames + [rec.content.frame])[..|t.frames|] == t.frames;
      } else {
        assert fo == fp;
      }
    }
  }

  lemma {:induction false} FramesOfLength(recs: seq<Record<Counted>>)
    ensures |FramesOf(recs)| == |recs|
  {
    if recs != [] {
      FramesOfLength(recs[..|recs| - 1]);
    }
  }

  /** One table is kept per distinct key: `total_files == len(files_processed) == len(data_frames)`. */
  lemma AggregateKeepsOneTablePerKey(rs: seq<Outcome<Counted>>)
    ensures var t := Aggregate(rs);
      t.totalFiles == |t.seen| == |t.frames| == |KeysOf(rs)|
  {
    AggregateCountsFiles(rs);
    AggregateKeepsFirstOccurrences(rs);
    FramesOfLength(FirstOccurrences(rs));
    FirstOccurrencesCount(rs);
  }

  /** The statistics `combine_files` returns; `savedBytes` is `saved_MB` before the division by 1024². */
  datatype Stats = Stats(totalFiles: nat, totalRows: nat, duplicatedFiles: nat, duplicatedRows: nat, savedBytes: int)

  /** The statistics, and the rows written to the output file. */
  datatype Combined = Combined(stats: Stats, output: seq<Row>)

  /** Why `combine_files` raises instead of returning. */
  datatype Abort =
    | HashRaised            // a worker's `get_file_hash` raised; `imap` re-raises it in the loop
    | NothingToConcatenate  // no table was kept, and `pd.concat([])` raises

  /** The per-file results, in walk order. */
  function Results(walk: seq<WalkedFile>, fileTypes: seq<string>): seq<Outcome<Counted>>
  {
    if walk == [] then []
    else Results(walk[..|walk| - 1], fileTypes) + [ProcessFile(walk[|walk| - 1], fileTypes, None)]
  }

  /** What `combine_files` computes from the walk, the file types and the size of the file it writes. */
  function Combine(walk: seq<WalkedFile>, fileTypes: seq<string>, outputSize: nat): Result<Combined, Abort>
  {
    var rs := Results(walk, fileTypes);
    if exists i :: 0 <= i < |rs| && rs[i].Raised? then Failure(HashRaised)
    else
      var t := Aggregate(rs);
      if t.frames == [] then Failure(NothingToConcatenate)
      else
        var stats := Stats(t.totalFiles, t.totalRows, t.duplicatedFiles, t.duplicatedRows, TotalSize(walk) - outputSize);
        Success(Combined(stats, DropDuplicates(ConcatRows(t.frames))))
  }

  lemma {:induction false} ResultsAt(walk: seq<WalkedFile>, fileTypes: seq<string>)
    ensures |Results(walk, fileTypes)| == |walk|
    ensures forall i :: 0 <= i < |walk| ==> Results(walk, fileTypes)[i] == ProcessFile(walk[i], fileTypes, None)
  {
    if walk != [] {
      var n := |walk|;
      var p := walk[..n - 1];
      ResultsAt(p, fileTypes);
      var last := ProcessFile(walk[n - 1], fileTypes, None);
      assert Results(walk, fileTypes) == Results(p, fileTypes) + [last];
      forall i | 0 <= i < n
        ensures Results(walk, fileTypes)[i] == ProcessFile(walk[i], fileTypes, None)
      {
        if i < n - 1 {
          assert p[i] == walk[i];
        }
      }
    }
  }

  /** A kept record's duplicate count is the number of rows `drop_duplicates` removes from its table. */
  predicate WellCounted(rec: Record<Counted>)
  {
    rec.content.duplicateRows + |DropDuplicates(rec.content.frame.rows)| == |rec.content.frame.rows|
  }

  lemma KeptAreWellCounted(walk: seq<WalkedFile>, fileTypes: seq<string>)
    ensures forall k :: 0 <= k < |FirstOccurrences(Results(walk, fileTypes))| ==>
      WellCounted(FirstOccurrences(Results(walk, fileTypes))[k])
  {
    var rs := Results(walk, fileTypes);
    ResultsAt(walk, fileTypes);
    FirstOccurrencesSource(rs);
    forall k | 0 <= k < |FirstOccurrences(rs)|
      ensures WellCounted(FirstOccurrences(rs)[k])
    {
      var i :| 0 <= i < |rs| && IsFirst(rs, i) && rs[i].record == FirstOccurrences(rs)[k];
      ProcessFileGate(walk[i], fileTypes, None);
    }
  }

  /**
   * Deduplicating the concatenation of well-counted tables leaves at most their
   * rows minus their within-file duplicates: a row repeated inside a file is
   * also removed by the final `drop_duplicates`.
   */
  lemma {:induction false} OutputWithinCounts(recs: seq<Record<Counted>>)
    requires forall k :: 0 <= k < |recs| ==> WellCounted(recs[k])
    ensures |DropDuplicates(ConcatRows(FramesOf(recs)))| + DuplicatesOf(recs) <= RowTotal(FramesOf(recs))
  {
    if recs != [] {
      var n := |recs|;
      var p := recs[..n - 1];
      assert forall k :: 0 <= k < n - 1 ==> p[k] == recs[k];
      OutputWithinCounts(p);
      var fs := FramesOf(recs);
      assert fs == FramesOf(p) + [recs[n - 1].content.frame];
      assert fs[..|fs| - 1] == FramesOf(p);
      assert WellCounted(recs[n - 1]);
      DropDuplicatesSubadditive(ConcatRows(FramesOf(p)), recs[n - 1].content.frame.rows);
    }
  }

  /**
   * `combine_files` raises because of a hash exactly when some listed file
   * cannot be hashed, and fails in `pd.concat` exactly when no file raised and
   * no file yielded a record; otherwise it returns.
   */
  lemma CombineAborts(walk: seq<WalkedFile>, fileTypes: seq<string>, outputSize: nat)
    ensures Combine(walk, fileTypes, outputSize) == Failure(HashRaised) <==>
      exists i :: 0 <= i < |walk| && Extension(walk[i].name) in fileTypes && walk[i].digest.None?
    ensures Combine(walk, fileTypes, outputSize) == Failure(NothingToConcatenate) <==>
      && (forall i :: 0 <= i < |walk| ==> !(Extension(walk[i].name) in fileTypes && walk[i].digest.None?))
      && (forall i :: 0 <= i < |walk| ==> !ProcessFile(walk[i], fileTypes, None).Accepted?)
  {
    var rs := Results(walk, fileTypes);
    ResultsAt(walk, fileTypes);
    forall i | 0 <= i < |walk| ensures rs[i].Raised? <==> Extension(walk[i].name) in fileTypes && walk[i].digest.None? {
      ProcessFileGate(walk[i], fileTypes, None);
    }
    AggregateKeepsOneTablePerKey(rs);
    FirstOccurrencesCount(rs);
    FirstOccurrencesEmpty(rs);
    FramesOfLength(FirstOccurrences(rs));
    AggregateKeepsFirstOccurrences(rs);
  }

  /**
   * When `combine_files` returns, its counters add up: `total_files` is the
   * number of distinct keys, `total_files + duplicated_files` the number of
   * non-`None` results, `total_rows` the rows of the kept tables,
   * `duplicated_rows` is at most `total_rows`, and the saving is the size of
   * every walked file minus the output size.
   */
  lemma CombineStats(walk: seq<WalkedFile>, fileTypes: seq<string>, outputSize: nat)
    requires Combine(walk, fileTypes, outputSize).Success?
    ensures var s := Combine(walk, fileTypes, outputSize).value.stats;
      var rs := Results(walk, fileTypes);
      && s.totalFiles == |KeysOf(rs)|
      && s.totalFiles + s.duplicatedFiles == AcceptedCount(rs)
      && s.totalRows == RowTotal(FramesOf(FirstOccurrences(rs)))
      && s.duplicatedRows <= s.totalRows
      && s.savedBytes == TotalSize(walk) - outputSize
  {
    var rs := Results(walk, fileTypes);
    AggregateCountsFiles(rs);
    AggregateKeepsFirstOccurrences(rs);
    AggregateKeepsOneTablePerKey(rs);
    KeptAreWellCounted(walk, fileTypes);
    OutputWithinCounts(FirstOccurrences(rs));
  }

  /**
   * When `combine_files` returns, the rows it writes are the kept tables
   * concatenated in acceptance order with every later repeat of a row removed:
   * no two rows are equal, no row value is lost or invented, deduplicating
   * again changes nothing, and the final deduplication removes at least the
   * within-file duplicates.
   */
  lemma CombineOutput(walk: seq<WalkedFile>, fileTypes: seq<string>, outputSize: nat)
    requires Combine(walk, fileTypes, outputSize).Success?
    ensures var c := Combine(walk, fileTypes, outputSize).value;
      var kept := FramesOf(FirstOccurrences(Results(walk, fileTypes)));
      && c.output == KeepUnmarked(ConcatRows(kept), Duplicated(ConcatRows(kept)))
      && Distinct(c.output)
      && DropDuplicates(c.output) == c.output
      && (forall row :: row in c.output <==> exists i :: 0 <= i < |kept| && row in kept[i].rows)
      && |c.output| + c.stats.duplicatedRows <= c.stats.totalRows
  {
    var rs := Results(walk, fileTypes);
    var kept := FramesOf(FirstOccurrences(rs));
    AggregateKeepsFirstOccurrences(rs);
    DropDuplicatesKeepsFirstOccurrences(ConcatRows(kept));
    DropDuplicatesIdempotent(ConcatRows(kept));
    ConcatRowsContents(kept);
    KeptAreWellCounted(walk, fileTypes);
    OutputWithinCounts(FirstOccurrences(rs));
  }

  /**
   * The loop of `combine_files` over the results, in the order `pool.imap`
   * yields them: a raised result aborts it, a record whose key is new is kept
   * and counted, a record whose key was seen only counts as a duplicate file.
   */
  method FoldResults(results: seq<Outcome<Counted>>) returns (r: Result<Tally, Abort>)
    ensures r == if exists j :: 0 <= j < |results| && results[j].Raised? then Failure(HashRaised)
                 else Success(Aggregate(results))
  {
    var filesProcessed: set<FileKey> := {};
    var totalFiles: nat, totalRows: nat, duplicatedFiles: nat, duplicatedRows: nat := 0, 0, 0, 0;
    var dataFrames: seq<Dataset> := [];
    var k := 0;
    while k < |results|
      invariant 0 <= k <= |results|
      invariant forall j :: 0 <= j < k ==> !results[j].Raised?
      invariant Tally(filesProcessed, totalFiles, totalRows, duplicatedFiles, duplicatedRows, dataFrames)
        == Aggregate(results[..k])
    {
      assert results[..k + 1][..k] == results[..k];
      var result := results[k];
      if result.Raised? {
        return Failure(HashRaised);
      }
      if result.Accepted? {
        var key := result.record.key;
        if key !in filesProcessed {
          filesProcessed := filesProcessed + {key};
          totalFiles := totalFiles + 1;
          totalRows := totalRows + |result.record.content.frame.rows|;
          duplicatedRows := duplicatedRows + result.record.content.duplicateRows;
          dataFrames := dataFrames + [result.record.content.frame];
        } else {
          duplicatedFiles := duplicatedFiles + 1;
        }
      }
      k := k + 1;
    }
    assert results[..k] == results;
    r := Success(Tally(filesProcessed, totalFiles, totalRows, duplicatedFiles, duplicatedRows, dataFrames));
  }

  /**
   * `combine_files`: sum the sizes while building the argument list, fold the
   * results in submission order, then concatenate and deduplicate.
   */
  method CombineFiles(walk: seq<WalkedFile>, fileTypes: seq<string>, outputSize: nat) returns (r: Result<Combined, Abort>)
    ensures r == Combine(walk, fileTypes, outputSize)
  {
    var originalSizeBytes := 0;
    var processArgs: seq<WalkedFile> := [];
    var i := 0;
    while i < |walk|
      invariant 0 <= i <= |walk|
      invariant originalSizeBytes == TotalSize(walk[..i])
      invariant processArgs == walk[..i]
    {
      assert walk[..i + 1][..i] == walk[..i];
      originalSizeBytes := originalSizeBytes + walk[i].size;
      processArgs := processArgs + [walk[i]];
      i := i + 1;
    }
    assert walk[..|walk|] == walk;

    var folded := FoldResults(Results(processArgs, fileTypes));
    if folded.Failure? {
      return Failure(folded.error);
    }
    var t := folded.value;
    if t.frames == [] {
      return Failure(NothingToConcatenate);
    }
    var combined := ConcatRows(t.frames);
    combined := DropDuplicates(combined);
    var savedBytes := originalSizeBytes - outputSize;
    r := Success(Combined(Stats(t.totalFiles, t.totalRows, t.duplicatedFiles, t.duplicatedRows, savedBytes), combined));
  }
}
