/**
 * The top-level script: `process_file` classifies one walked file, reads it
 * with one of three readers and applies an optional exact column-list filter;
 * `combine_files` collects every result with `pool.map`, keeps the first file
 * of each key, concatenates the kept tables and drops duplicate rows. It keeps
 * no count of duplicate rows.
 */
module RootConcatenator {
  import opened Wrappers
  import opened Frames
  import opened Splitext
  import opened Files
  import opened Dedup

  /** The default `file_types`; `xlsx` and `xls` are written without their dot. */
  const DefaultFileTypes: seq<string> := [".csv", ".feather", ".parquet", "xlsx", "xls"]

  /** The reader branch chosen for an extension; only three exist. */
  function Reader(ext: string): (r: Option<Format>)
    ensures r.Some? ==> |ext| > 1 && ext[0] == '.'
  {
    if ext == ".csv" then Some(Csv)
    else if ext == ".feather" then Some(Feather)
    else if ext == ".parquet" then Some(Parquet)
    else None
  }

  /**
   * `process_file`. The digest is taken before the `try`, so a failure to hash
   * escapes as `Raised`. Inside the `try`, a listed extension without a reader
   * leaves `df` unbound and the resulting error is caught; so is a reader
   * failure. A table is returned when no column list is expected or its
   * columns equal the expected list, element by element and in order.
   */
  function ProcessFile(f: WalkedFile, fileTypes: seq<string>, expectedColumns: Option<seq<string>>): Outcome<Dataset>
  {
    var ext := Extension(f.name);
    if ext !in fileTypes then Skipped(NotListed)
    else if f.digest.None? then Raised
    else if Reader(ext).None? then Skipped(UnboundFrame)
    else if f.decoded.None? then Skipped(ReadError)
    else
      var df := f.decoded.value;
      if expectedColumns.None? || expectedColumns.value == df.columns then
        Accepted(Record(FileKey(f.name, f.size, ext, f.digest.value), df))
      else
        Skipped(ColumnMismatch)
  }

  /**
   * A file reaches a reader only if its extension is listed in `file_types`.
   * The step raises exactly when a listed file cannot be hashed; a listed file
   * with no reader branch is skipped, not raised. It returns the file's table
   * under the file's key exactly when the file is listed, hashed, has a reader,
   * decodes, and passes the column filter.
   */
  lemma ProcessFileGate(f: WalkedFile, fileTypes: seq<string>, expectedColumns: Option<seq<string>>)
    ensures var r := ProcessFile(f, fileTypes, expectedColumns);
      var ext := Extension(f.name);
      && (ext !in fileTypes ==> r == Skipped(NotListed))
      && (r.Raised? <==> ext in fileTypes && f.digest.None?)
      && (ext in fileTypes && f.digest.Some? && Reader(ext).None? ==> r == Skipped(UnboundFrame))
      && (r.Accepted? <==>
            && ext in fileTypes && f.digest.Some? && Reader(ext).Some? && f.decoded.Some?
            && (expectedColumns.None? || expectedColumns.value == f.decoded.value.columns))
      && (r.Accepted? ==> r.record == Record(FileKey(f.name, f.size, ext, f.digest.value), f.decoded.value))
  {
  }

  /**
   * The column filter is an exact, order-sensitive list comparison: with a
   * column list the step returns a table iff it would without one and the
   * table's columns equal the list. A table whose columns are a permutation of
   * the list, but not equal to it, is skipped as a mismatch, not raised.
   */
  lemma ColumnFilterIsExact(f: WalkedFile, fileTypes: seq<string>, columns: seq<string>)
    ensures ProcessFile(f, fileTypes, Some(columns)).Accepted? <==>
      ProcessFile(f, fileTypes, None).Accepted? && f.decoded.value.columns == columns
    ensures ProcessFile(f, fileTypes, None).Accepted? && multiset(columns) == multiset(f.decoded.value.columns)
              && columns != f.decoded.value.columns ==>
      ProcessFile(f, fileTypes, Some(columns)) == Skipped(ColumnMismatch)
  {
  }

  /**
   * With the default `file_types`, only `.csv`, `.feather` and `.parquet` files
   * are ever read: `xlsx` and `xls` can never equal an extension, so the
   * unbound-`df` path is unreachable.
   */
  lemma DefaultTypesReadOnlyThreeFormats(f: WalkedFile, expectedColumns: Option<seq<string>>)
    ensures Extension(f.name) in DefaultFileTypes ==> Extension(f.name) in [".csv", ".feather", ".parquet"]
    ensures ProcessFile(f, DefaultFileTypes, expectedColumns) != Skipped(UnboundFrame)
  {
  }

  /** The state of the aggregation loop: `files_processed`, the `stats` counters and `data_frames`. */
  datatype Tally = Tally(seen: set<FileKey>, totalFiles: nat, totalRows: nat, duplicatedFiles: nat, frames: seq<Dataset>)

  const EmptyTally := Tally({}, 0, 0, 0, [])

  /** One iteration of the aggregation loop. */
  function Step(t: Tally, result: Outcome<Dataset>): Tally
  {
    if !result.Accepted? then t
    else
      var rec := result.record;
      if rec.key !in t.seen then
        Tally(t.seen + {rec.key}, t.totalFiles + 1, t.totalRows + |rec.content.rows|, t.duplicatedFiles, t.frames + [rec.content])
      else
        t.(duplicatedFiles := t.duplicatedFiles + 1)
  }

  /** The aggregation loop run over `rs` in order. */
  function Aggregate(rs: seq<Outcome<Dataset>>): Tally
  {
    if rs == [] then EmptyTally else Step(Aggregate(rs[..|rs| - 1]), rs[|rs| - 1])
  }

  /** The tables of the kept records. */
  function FramesOf(recs: seq<Record<Dataset>>): seq<Dataset>
  {
    if recs == [] then [] else FramesOf(recs[..|recs| - 1]) + [recs[|recs| - 1].content]
  }

  lemma {:induction false} FramesOfLength(recs: seq<Record<Dataset>>)
    ensures |FramesOf(recs)| == |recs|
  {
    if recs != [] {
      FramesOfLength(recs[..|recs| - 1]);
    }
  }

  /**
   * The loop's seen-set is the set of keys of all records, and its file
   * counters add up: `total_files` is the number of distinct keys and
   * `total_files + duplicated_files` the number of non-`None` results.
   */
  lemma {:induction false} AggregateCountsFiles(rs: seq<Outcome<Dataset>>)
    ensures var t := Aggregate(rs);
      && t.seen == KeysOf(rs)
      && t.totalFiles == |t.seen|
      && t.totalFiles + t.duplicatedFiles == AcceptedCount(rs)
  {
    if rs != [] {
      var n := |rs|;
      var p := rs[..n - 1];
      AggregateCountsFiles(p);
      KeysOfSnoc(rs);
      if rs[n - 1].Accepted? && rs[n - 1].record.key !in KeysOf(p) {
        AddNewKey(KeysOf(p), rs[n - 1].record.key);
      }
    }
  }

  /**
   * Among results with equal keys only the first in walk order is kept: the
   * loop's tables are those of the first occurrences, in walk order, and
   * `total_rows` sums over those tables only.
   */
  lemma {:induction false} AggregateKeepsFirstOccurrences(rs: seq<Outcome<Dataset>>)
    ensures var t := Aggregate(rs);
      && t.frames == FramesOf(FirstOccurrences(rs))
      && t.totalRows == RowTotal(t.frames)
  {
    if rs == [] {
      assert FirstOccurrences(rs) == [];
    } else {
      var n := |rs|;
      var p := rs[..n - 1];
      AggregateKeepsFirstOccurrences(p);
      AggregateCountsFiles(p);
      IsFirstLast(rs);
      var t := Aggregate(p);
      var fo := FirstOccurrences(rs);
      var fp := FirstOccurrences(p);
      if IsFirst(rs, n - 1) {
        var rec := rs[n - 1].record;
        assert fo == fp + [rec];
        assert fo[..|fo| - 1] == fp;
        assert Aggregate(rs).frames == t.frames + [rec.content];
        assert (t.frames + [rec.content])[..|t.frames|] == t.frames;
      } else {
        assert fo == fp;
      }
    }
  }

  /** One table is kept per distinct key: `total_files == len(files_processed) == len(data_frames)`. */
  lemma AggregateKeepsOneTablePerKey(rs: seq<Outcome<Dataset>>)
    ensures var t := Aggregate(rs);
      t.totalFiles == |t.seen| == |t.frames| == |KeysOf(rs)|
  {
    AggregateCountsFiles(rs);
    AggregateKeepsFirstOccurrences(rs);
    FramesOfLength(FirstOccurrences(rs));
    FirstOccurrencesCount(rs);
  }

  /** The statistics `combine_files` returns; `savedBytes` is `saved_MB` before the division by 1024². */
  datatype Stats = Stats(totalFiles: nat, totalRows: nat, duplicatedFiles: nat, savedBytes: int)

  /** The statistics, and the rows written to the output file. */
  datatype Combined = Combined(stats: Stats, output: seq<Row>)

  /** Why `combine_files` raises instead of returning. */
  datatype Abort =
    | HashRaised            // a worker's `get_file_hash` raised; `pool.map` re-raises it
    | NothingToConcatenate  // no table was kept, and `pd.concat([])` raises

  /** The per-file results, in walk order, all with the same column filter. */
  function Results(walk: seq<WalkedFile>, fileTypes: seq<string>, expectedColumns: Option<seq<string>>): seq<Outcome<Dataset>>
  {
    if walk == [] then []
    else Results(walk[..|walk| - 1], fileTypes, expectedColumns) + [ProcessFile(walk[|walk| - 1], fileTypes, expectedColumns)]
  }

  lemma {:induction false} ResultsAt(walk: seq<WalkedFile>, fileTypes: seq<string>, expectedColumns: Option<seq<string>>)
    ensures |Results(walk, fileTypes, expectedColumns)| == |walk|
    ensures forall i :: 0 <= i < |walk| ==>
      Results(walk, fileTypes, expectedColumns)[i] == ProcessFile(walk[i], fileTypes, expectedColumns)
  {
    if walk != [] {
      var n := |walk|;
      var p := walk[..n - 1];
      ResultsAt(p, fileTypes, expectedColumns);
      var last := ProcessFile(walk[n - 1], fileTypes, expectedColumns);
      assert Results(walk, fileTypes, expectedColumns) == Results(p, fileTypes, expectedColumns) + [last];
      forall i | 0 <= i < n
        ensures Results(walk, fileTypes, expectedColumns)[i] == ProcessFile(walk[i], fileTypes, expectedColumns)
      {
        if i < n - 1 {
          assert p[i] == walk[i];
        }
      }
    }
  }

  /** What `combine_files` computes from the walk, the file types and the size of the file it writes. */
  function Combine(walk: seq<WalkedFile>, fileTypes: seq<string>, outputSize: nat): Result<Combined, Abort>
  {
    var rs := Results(walk, fileTypes, None);
    if exists i :: 0 <= i < |rs| && rs[i].Raised? then Failure(HashRaised)
    else
      var t := Aggregate(rs);
      if t.frames == [] then Failure(NothingToConcatenate)
      else
        var stats := Stats(t.totalFiles, t.totalRows, t.duplicatedFiles, TotalSize(walk) - outputSize);
        Success(Combined(stats, DropDuplicates(ConcatRows(t.frames))))
  }

  /**
   * No file is ever filtered by its columns in a run: `combine_files` passes
   * `expected_columns = None`, so no result is a column mismatch.
   */
  lemma CombineNeverFiltersColumns(walk: seq<WalkedFile>, fileTypes: seq<string>)
    ensures forall i :: 0 <= i < |Results(walk, fileTypes, None)| ==> Results(walk, fileTypes, None)[i] != Skipped(ColumnMismatch)
  {
    ResultsAt(walk, fileTypes, None);
  }

  /**
   * `combine_files` raises because of a hash exactly when some listed file
   * cannot be hashed, and fails in `pd.concat` exactly when no file raised and
   * no file yielded a table; otherwise it returns.
   */
  lemma CombineAborts(walk: seq<WalkedFile>, fileTypes: seq<string>, outputSize: nat)
    ensures Combine(walk, fileTypes, outputSize) == Failure(HashRaised) <==>
      exists i :: 0 <= i < |walk| && Extension(walk[i].name) in fileTypes && walk[i].digest.None?
    ensures Combine(walk, fileTypes, outputSize) == Failure(NothingToConcatenate) <==>
      && (forall i :: 0 <= i < |walk| ==> !(Extension(walk[i].name) in fileTypes && walk[i].digest.None?))
      && (forall i :: 0 <= i < |walk| ==> !ProcessFile(walk[i], fileTypes, None).Accepted?)
  {
    var rs := Results(walk, fileTypes, None);
    ResultsAt(walk, fileTypes, None);
    forall i | 0 <= i < |walk| ensures rs[i].Raised? <==> Extension(walk[i].name) in fileTypes && walk[i].digest.None? {
      ProcessFileGate(walk[i], fileTypes, None);
    }
    AggregateKeepsOneTablePerKey(rs);
    FirstOccurrencesCount(rs);
    FirstOccurrencesEmpty(rs);
    FramesOfLength(FirstOccurrences(rs));
    AggregateKeepsFirstOccurrences(rs);
  }

  /**
   * When `combine_files` returns, its counters add up: `total_files` is the
   * number of distinct keys, `total_files + duplicated_files` the number of
   * non-`None` results, `total_rows` the rows of the kept tables, and the
   * saving is the size of every walked file minus the output size.
   */
  lemma CombineStats(walk: seq<WalkedFile>, fileTypes: seq<string>, outputSize: nat)
    requires Combine(walk, fileTypes, outputSize).Success?
    ensures var s := Combine(walk, fileTypes, outputSize).value.stats;
      var rs := Results(walk, fileTypes, None);
      && s.totalFiles == |KeysOf(rs)|
      && s.totalFiles + s.duplicatedFiles == AcceptedCount(rs)
      && s.totalRows == RowTotal(FramesOf(FirstOccurrences(rs)))
      && s.savedBytes == TotalSize(walk) - outputSize
  {
    var rs := Results(walk, fileTypes, None);
    AggregateCountsFiles(rs);
    AggregateKeepsFirstOccurrences(rs);
    AggregateKeepsOneTablePerKey(rs);
  }

  /**
   * When `combine_files` returns, the rows it writes are the kept tables
   * concatenated in acceptance order with every later repeat of a row removed:
   * no two rows are equal, no row value is lost or invented, deduplicating
   * again changes nothing, and there are at most `total_rows` of them.
   */
  lemma CombineOutput(walk: seq<WalkedFile>, fileTypes: seq<string>, outputSize: nat)
    requires Combine(walk, fileTypes, outputSize).Success?
    ensures var c := Combine(walk, fileTypes, outputSize).value;
      var kept := FramesOf(FirstOccurrences(Results(walk, fileTypes, None)));
      && c.output == KeepUnmarked(ConcatRows(kept), Duplicated(ConcatRows(kept)))
      && Distinct(c.output)
      && DropDuplicates(c.output) == c.output
      && (forall row :: row in c.output <==> exists i :: 0 <= i < |kept| && row in kept[i].rows)
      && |c.output| <= c.stats.totalRows
  {
    var rs := Results(walk, fileTypes, None);
    var kept := FramesOf(FirstOccurrences(rs));
    AggregateKeepsFirstOccurrences(rs);
    DropDuplicatesKeepsFirstOccurrences(ConcatRows(kept));
    DropDuplicatesIdempotent(ConcatRows(kept));
    ConcatRowsContents(kept);
  }

  /**
   * The loop of `combine_files` over the results `pool.map` returned, none of
   * which raised: a record whose key is new is kept and counted, a record
   * whose key was seen only counts as a duplicate file, `None` is passed over.
   */
  method FoldResults(results: seq<Outcome<Dataset>>) returns (t: Tally)
    requires forall j :: 0 <= j < |results| ==> !results[j].Raised?
    ensures t == Aggregate(results)
  {
    var filesProcessed: set<FileKey> := {};
    var totalFiles: nat, totalRows: nat, duplicatedFiles: nat := 0, 0, 0;
    var dataFrames: seq<Dataset> := [];
    var k := 0;
    while k < |results|
      invariant 0 <= k <= |results|
      invariant Tally(filesProcessed, totalFiles, totalRows, duplicatedFiles, dataFrames) == Aggregate(results[..k])
    {
      assert results[..k + 1][..k] == results[..k];
      var result := results[k];
      if result.Accepted? {
        var key := result.record.key;
        if key !in filesProcessed {
          filesProcessed := filesProcessed + {key};
          totalFiles := totalFiles + 1;
          totalRows := totalRows + |result.record.content.rows|;
          dataFrames := dataFrames + [result.record.content];
        } else {
          duplicatedFiles := duplicatedFiles + 1;
        }
      }
      k := k + 1;
    }
    assert results[..k] == results;
    t := Tally(filesProcessed, totalFiles, totalRows, duplicatedFiles, dataFrames);
  }

  /**
   * `combine_files`: sum the sizes while building the argument list, collect
   * every result with `pool.map` (which raises if any worker raised), fold
   * them in submission order, then concatenate and deduplicate.
   */
  method CombineFiles(walk: seq<WalkedFile>, fileTypes: seq<string>, outputSize: nat) returns (r: Result<Combined, Abort>)
    ensures r == Combine(walk, fileTypes, outputSize)
  {
    var originalSizeBytes := 0;
    var expectedColumns: Option<seq<string>> := None;
    var processArgs: seq<WalkedFile> := [];
    var i := 0;
    while i < |walk|
      invariant 0 <= i <= |walk|
      invariant originalSizeBytes == TotalSize(walk[..i])
      invariant processArgs == walk[..i]
    {
      assert walk[..i + 1][..i] == walk[..i];
      originalSizeBytes := originalSizeBytes + walk[i].size;
      processArgs := processArgs + [walk[i]];
      i := i + 1;
    }
    assert walk[..|walk|] == walk;

    var results := Results(processArgs, fileTypes, expectedColumns);
    if exists j :: 0 <= j < |results| && results[j].Raised? {
      return Failure(HashRaised);
    }
    var t := FoldResults(results);
    if t.frames == [] {
      return Failure(NothingToConcatenate);
    }
    var combined := ConcatRows(t.frames);
    combined := DropDuplicates(combined);
    var savedBytes := originalSizeBytes - outputSize;
    r := Success(Combined(Stats(t.totalFiles, t.totalRows, t.duplicatedFiles, savedBytes), combined));
  }
}
