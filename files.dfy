/**
 * What the directory walk hands to the per-file step, and what that step
 * hands back. A walked file carries the outcomes of the services the core
 * only calls: its content digest (absent when reading the file for hashing
 * raises) and the table its format reader decodes (absent when the reader
 * raises).
 */
module Files {
  import opened Wrappers
  import opened Frames

  /** The hexadecimal MD5 digest of a file's bytes. */
  type Digest = string

  /** One file found by the walk, as the per-file step sees it. */
  datatype WalkedFile = WalkedFile(
    name: string,
    size: nat,
    digest: Option<Digest>,
    decoded: Option<Dataset>)

  /** The tuple `(file_name, file_size, file_extension, file_hash)` that identifies a file for deduplication. */
  datatype FileKey = FileKey(name: string, size: nat, extension: string, hash: Digest)

  /** The pandas reader a file is dispatched to. */
  datatype Format = Csv | Feather | Parquet | Excel | Json | Pickle | Hdf

  /** Why the per-file step returned `None`. */
  datatype SkipReason =
    | NotListed       // the extension is not in `file_types`; nothing is logged
    | Unsupported     // listed, but no reader branch matches; logged as unsupported
    | UnboundFrame    // listed, but no reader assigned `df`; the error is caught and logged
    | ReadError       // the reader raised; the error is caught and logged
    | ColumnMismatch  // the columns differ from `expected_columns`; logged

  /** A per-file result: the identifying key and what the step extracted from the file. */
  datatype Record<P> = Record(key: FileKey, content: P)

  /**
   * The outcome of the per-file step: a record, `None` for a skipped file, or
   * an exception that escapes the step.
   */
  datatype Outcome<P> = Accepted(record: Record<P>) | Skipped(reason: SkipReason) | Raised

  /** The sum of the sizes of the walked files: `original_size_bytes`. */
  function TotalSize(walk: seq<WalkedFile>): nat
  {
    if walk == [] then 0 else TotalSize(walk[..|walk| - 1]) + walk[|walk| - 1].size
  }
}
