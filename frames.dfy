/**
 * The tabular values the concatenator moves around, and the three pandas
 * operations its core relies on, stated on rows as plain comparable values:
 * `pd.concat(frames, ignore_index=True)` (rows of every frame, frame by frame),
 * `df.duplicated()` (marks each row equal to an earlier row) and
 * `df.drop_duplicates()` (keeps the first occurrence of every row).
 */
module Frames {

  /** A cell value. */
  datatype Scalar = Number(int) | Text(string)

  /** A row maps column names to cell values. */
  type Row = map<string, Scalar>

  /** A decoded table: its column names in order, and its rows. */
  datatype Dataset = Dataset(columns: seq<string>, rows: seq<Row>)

  /** No value occurs twice. */
  predicate Distinct(s: seq<Row>)
  {
    forall i, j :: 0 <= i < j < |s| ==> s[i] != s[j]
  }

  /** The set of values occurring in `s`. */
  function Elements(s: seq<Row>): set<Row>
  {
    set x | x in s
  }

  /** `df.drop_duplicates()`: the rows of `s`, each value kept at its first occurrence only. */
  function DropDuplicates(s: seq<Row>): (r: seq<Row>)
    ensures Distinct(r)
    ensures forall x :: x in r <==> x in s
    ensures |r| <= |s|
  {
    if s == [] then []
    else
      var p := s[..|s| - 1];
      var x := s[|s| - 1];
      assert s == p + [x];
      if x in p then DropDuplicates(p) else DropDuplicates(p) + [x]
  }

  /** `df.duplicated()`: position `i` is marked when the same row occurs before it. */
  function Duplicated(s: seq<Row>): (marks: seq<bool>)
    ensures |marks| == |s|
    ensures forall i :: 0 <= i < |s| ==> (marks[i] <==> exists j :: 0 <= j < i && s[j] == s[i])
  {
    seq(|s|, i requires 0 <= i < |s| => s[i] in s[..i])
  }

  /** `.sum()` of a boolean column: the number of marked positions. */
  function CountMarked(marks: seq<bool>): nat
  {
    if marks == [] then 0
    else CountMarked(marks[..|marks| - 1]) + (if marks[|marks| - 1] then 1 else 0)
  }

  /** `df.duplicated().sum()`: the number of rows equal to some earlier row. */
  function DuplicateCount(s: seq<Row>): nat
  {
    CountMarked(Duplicated(s))
  }

  /** `df[~marks]`: the rows whose position is not marked, in order. */
  function KeepUnmarked(s: seq<Row>, marks: seq<bool>): seq<Row>
    requires |marks| == |s|
  {
    if s == [] then []
    else KeepUnmarked(s[..|s| - 1], marks[..|s| - 1]) + (if marks[|s| - 1] then [] else [s[|s| - 1]])
  }

  lemma DuplicatedPrefix(s: seq<Row>, n: nat)
    requires n <= |s|
    ensures Duplicated(s[..n]) == Duplicated(s)[..n]
  {
    forall i | 0 <= i < n
      ensures Duplicated(s[..n])[i] == Duplicated(s)[i]
    {
      assert s[..n][..i] == s[..i];
    }
  }

  /**
   * `drop_duplicates` is exactly `df[~df.duplicated()]`: the rows that keep
   * their place are the first occurrences, in their original order.
   */
  lemma {:induction false} DropDuplicatesKeepsFirstOccurrences(s: seq<Row>)
    ensures DropDuplicates(s) == KeepUnmarked(s, Duplicated(s))
  {
    if s != [] {
      var n := |s|;
      DropDuplicatesKeepsFirstOccurrences(s[..n - 1]);
      DuplicatedPrefix(s, n - 1);
      assert Duplicated(s)[n - 1] == (s[n - 1] in s[..n - 1]);
    }
  }

  /** Every row is either kept or counted as a duplicate: `duplicated().sum() + len(drop_duplicates()) == len(df)`. */
  lemma {:induction false} DuplicateCountBalance(s: seq<Row>)
    ensures DuplicateCount(s) + |DropDuplicates(s)| == |s|
  {
    if s != [] {
      var n := |s|;
      DuplicateCountBalance(s[..n - 1]);
      DuplicatedPrefix(s, n - 1);
      assert Duplicated(s)[..n - 1] == Duplicated(s[..n - 1]);
      assert Duplicated(s)[n - 1] == (s[n - 1] in s[..n - 1]);
    }
  }

  lemma {:induction false} DistinctElementCount(s: seq<Row>)
    requires Distinct(s)
    ensures |Elements(s)| == |s|
  {
    if s != [] {
      var n := |s|;
      var p := s[..n - 1];
      DistinctElementCount(p);
      assert s == p + [s[n - 1]];
      assert s[n - 1] !in p;
      assert Elements(s) == Elements(p) + {s[n - 1]};
    }
  }

  /** After `drop_duplicates` there is one row per distinct row value. */
  lemma DropDuplicatesCountsDistinct(s: seq<Row>)
    ensures |DropDuplicates(s)| == |Elements(s)|
  {
    DistinctElementCount(DropDuplicates(s));
    assert Elements(DropDuplicates(s)) == Elements(s);
  }

  /** The duplicate count is the row count minus the number of distinct rows, hence between 0 and the row count. */
  lemma DuplicateCountIsRowsMinusDistinct(s: seq<Row>)
    ensures DuplicateCount(s) == |s| - |Elements(s)|
    ensures DuplicateCount(s) <= |s|
  {
    DuplicateCountBalance(s);
    DropDuplicatesCountsDistinct(s);
  }

  /** A sequence without repeats is left unchanged by `drop_duplicates`, and only such a sequence is. */
  lemma {:induction false} DropDuplicatesFixesDistinct(s: seq<Row>)
    ensures DropDuplicates(s) == s <==> Distinct(s)
  {
    if s != [] && Distinct(s) {
      var n := |s|;
      var p := s[..n - 1];
      assert Distinct(p);
      DropDuplicatesFixesDistinct(p);
      assert s[n - 1] !in p;
      assert s == p + [s[n - 1]];
    }
  }

  /** Deduplicating a second time changes nothing. */
  lemma DropDuplicatesIdempotent(s: seq<Row>)
    ensures DropDuplicates(DropDuplicates(s)) == DropDuplicates(s)
  {
    DropDuplicatesFixesDistinct(DropDuplicates(s));
  }

  /** Deduplicating a concatenation keeps no more rows than deduplicating the parts separately. */
  lemma DropDuplicatesSubadditive(a: seq<Row>, b: seq<Row>)
    ensures |DropDuplicates(a + b)| <= |DropDuplicates(a)| + |DropDuplicates(b)|
  {
    DropDuplicatesCountsDistinct(a + b);
    DropDuplicatesCountsDistinct(a);
    DropDuplicatesCountsDistinct(b);
    assert Elements(a + b) == Elements(a) + Elements(b);
  }

  /** `pd.concat(frames, ignore_index=True)` on rows: the rows of each frame, frame after frame. */
  function ConcatRows(frames: seq<Dataset>): seq<Row>
  {
    if frames == [] then []
    else ConcatRows(frames[..|frames| - 1]) + frames[|frames| - 1].rows
  }

  /** The number of rows over all frames: the sum of `len(df)`. */
  function RowTotal(frames: seq<Dataset>): nat
  {
    if frames == [] then 0
    else RowTotal(frames[..|frames| - 1]) + |frames[|frames| - 1].rows|
  }

  /** Concatenation loses and invents no row: a row is in the result iff it is in one of the frames, and the lengths add up. */
  lemma {:induction false} ConcatRowsContents(frames: seq<Dataset>)
    ensures |ConcatRows(frames)| == RowTotal(frames)
    ensures forall row :: row in ConcatRows(frames) <==> exists i :: 0 <= i < |frames| && row in frames[i].rows
  {
    if frames != [] {
      var n := |frames|;
      var p := frames[..n - 1];
      ConcatRowsContents(p);
      forall row
        ensures row in ConcatRows(frames) <==> exists i :: 0 <= i < n && row in frames[i].rows
      {
        if row in ConcatRows(frames) {
          if row in ConcatRows(p) {
            var i :| 0 <= i < |p| && row in p[i].rows;
            assert frames[i] == p[i];
          } else {
            assert row in frames[n - 1].rows;
          }
        }
        if exists i :: 0 <= i < n && row in frames[i].rows {
          var i :| 0 <= i < n && row in frames[i].rows;
          if i < n - 1 {
            assert p[i] == frames[i];
          }
        }
      }
    }
  }
}
