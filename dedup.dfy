/**
 * The reference meaning of the aggregation loop, stated without its seen-set:
 * which results are first occurrences of their key, in walk order.
 */
module Dedup {
  import opened Files

  /** The keys of all records among the results. */
  function KeysOf<P>(rs: seq<Outcome<P>>): set<FileKey>
  {
    set i | 0 <= i < |rs| && rs[i].Accepted? :: rs[i].record.key
  }

  /** Result `i` is a record whose key no earlier record carries. */
  predicate IsFirst<P>(rs: seq<Outcome<P>>, i: int)
    requires 0 <= i < |rs|
  {
    && rs[i].Accepted?
    && forall j :: 0 <= j < i && rs[j].Accepted? ==> rs[j].record.key != rs[i].record.key
  }

  /** The number of results that are records (not `None`, not raised). */
  function AcceptedCount<P>(rs: seq<Outcome<P>>): nat
  {
    if rs == [] then 0
    else AcceptedCount(rs[..|rs| - 1]) + (if rs[|rs| - 1].Accepted? then 1 else 0)
  }

  /** The records that are first occurrences of their key, in walk order. */
  function FirstOccurrences<P>(rs: seq<Outcome<P>>): seq<Record<P>>
  {
    if rs == [] then []
    else FirstOccurrences(rs[..|rs| - 1]) + (if IsFirst(rs, |rs| - 1) then [rs[|rs| - 1].record] else [])
  }

  /** The keys of a sequence of records. */
  function KeysOfRecords<P>(recs: seq<Record<P>>): set<FileKey>
  {
    set k | 0 <= k < |recs| :: recs[k].key
  }

  lemma KeysOfSnoc<P>(rs: seq<Outcome<P>>)
    requires rs != []
    ensures var last := rs[|rs| - 1];
      KeysOf(rs) == KeysOf(rs[..|rs| - 1]) + (if last.Accepted? then {last.record.key} else {})
  {
    var n := |rs|;
    var p := rs[..n - 1];
    forall key | key in KeysOf(rs)
      ensures key in KeysOf(p) + (if rs[n - 1].Accepted? then {rs[n - 1].record.key} else {})
    {
      var i :| 0 <= i < n && rs[i].Accepted? && rs[i].record.key == key;
      if i < n - 1 {
        assert p[i] == rs[i];
      }
    }
    forall key | key in KeysOf(p)
      ensures key in KeysOf(rs)
    {
      var i :| 0 <= i < n - 1 && p[i].Accepted? && p[i].record.key == key;
      assert rs[i] == p[i];
    }
  }

  /** The last result is a first occurrence iff it is a record whose key the earlier results do not carry. */
  lemma IsFirstLast<P>(rs: seq<Outcome<P>>)
    requires rs != []
    ensures var last := rs[|rs| - 1];
      IsFirst(rs, |rs| - 1) <==> last.Accepted? && last.record.key !in KeysOf(rs[..|rs| - 1])
  {
    var n := |rs|;
    var p := rs[..n - 1];
    if rs[n - 1].Accepted? && rs[n - 1].record.key in KeysOf(p) {
      var i :| 0 <= i < n - 1 && p[i].Accepted? && p[i].record.key == rs[n - 1].record.key;
      assert rs[i] == p[i];
    }
  }

  lemma IsFirstPrefix<P>(rs: seq<Outcome<P>>, n: nat, i: nat)
    requires i < n <= |rs|
    ensures IsFirst(rs[..n], i) <==> IsFirst(rs, i)
  {
    assert forall j :: 0 <= j <= i ==> rs[..n][j] == rs[j];
  }

  lemma KeysOfRecordsSnoc<P>(recs: seq<Record<P>>, r: Record<P>)
    ensures KeysOfRecords(recs + [r]) == KeysOfRecords(recs) + {r.key}
  {
    var s := recs + [r];
    forall k | k in KeysOfRecords(s) ensures k in KeysOfRecords(recs) + {r.key} {
      var a :| 0 <= a < |s| && s[a].key == k;
      if a < |recs| { assert s[a] == recs[a]; }
    }
    forall k | k in KeysOfRecords(recs) ensures k in KeysOfRecords(s) {
      var a :| 0 <= a < |recs| && recs[a].key == k;
      assert s[a] == recs[a];
    }
    assert s[|recs|].key == r.key;
  }

  lemma AddNewKey(keys: set<FileKey>, key: FileKey)
    requires key !in keys
    ensures |keys + {key}| == |keys| + 1
  {
    assert keys * {key} == {};
  }

  /** The kept records carry exactly the keys of all records, each key once. */
  lemma {:induction false} FirstOccurrencesKeys<P>(rs: seq<Outcome<P>>)
    ensures KeysOfRecords(FirstOccurrences(rs)) == KeysOf(rs)
    ensures forall a, b :: 0 <= a < b < |FirstOccurrences(rs)| ==>
      FirstOccurrences(rs)[a].key != FirstOccurrences(rs)[b].key
  {
    if rs != [] {
      var n := |rs|;
      var p := rs[..n - 1];
      var fp := FirstOccurrences(p);
      var fo := FirstOccurrences(rs);
      FirstOccurrencesKeys(p);
      KeysOfSnoc(rs);
      IsFirstLast(rs);
      if IsFirst(rs, n - 1) {
        var r := rs[n - 1].record;
        assert fo == fp + [r];
        KeysOfRecordsSnoc(fp, r);
        forall a, b | 0 <= a < b < |fo| ensures fo[a].key != fo[b].key {
          assert fo[a] == fp[a];
          if b < |fp| {
            assert fo[b] == fp[b];
          } else {
            assert fp[a].key in KeysOfRecords(fp);
          }
        }
      } else {
        assert fo == fp;
      }
    } else {
      assert FirstOccurrences(rs) == [];
    }
  }

  /** One record is kept per key, so there are as many kept records as keys. */
  lemma {:induction false} FirstOccurrencesCount<P>(rs: seq<Outcome<P>>)
    ensures |FirstOccurrences(rs)| == |KeysOf(rs)|
  {
    if rs != [] {
      var n := |rs|;
      var p := rs[..n - 1];
      FirstOccurrencesCount(p);
      KeysOfSnoc(rs);
      IsFirstLast(rs);
      if IsFirst(rs, n - 1) {
        AddNewKey(KeysOf(p), rs[n - 1].record.key);
      }
    } else {
      assert FirstOccurrences(rs) == [];
    }
  }

  /**
   * The kept records are exactly the records of the first occurrences: each
   * kept record is the record of some first occurrence, and every first
   * occurrence's record is kept.
   */
  lemma {:induction false} FirstOccurrencesSource<P>(rs: seq<Outcome<P>>)
    ensures forall k :: 0 <= k < |FirstOccurrences(rs)| ==>
      exists i :: 0 <= i < |rs| && IsFirst(rs, i) && rs[i].record == FirstOccurrences(rs)[k]
    ensures forall i :: 0 <= i < |rs| && IsFirst(rs, i) ==> rs[i].record in FirstOccurrences(rs)
  {
    if rs != [] {
      var n := |rs|;
      var p := rs[..n - 1];
      var fp := FirstOccurrences(p);
      var fo := FirstOccurrences(rs);
      FirstOccurrencesSource(p);
      assert fo == fp + (if IsFirst(rs, n - 1) then [rs[n - 1].record] else []);
      forall k | 0 <= k < |fo|
        ensures exists i :: 0 <= i < |rs| && IsFirst(rs, i) && rs[i].record == FirstOccurrences(rs)[k]
      {
        if k < |fp| {
          assert fo[k] == fp[k];
          var i :| 0 <= i < |p| && IsFirst(p, i) && p[i].record == fp[k];
          IsFirstPrefix(rs, n - 1, i);
          assert rs[i] == p[i];
        } else {
          assert IsFirst(rs, n - 1) && rs[n - 1].record == fo[k];
        }
      }
      forall i | 0 <= i < n && IsFirst(rs, i)
        ensures rs[i].record in fo
      {
        if i < n - 1 {
          IsFirstPrefix(rs, n - 1, i);
          assert p[i] == rs[i];
          assert rs[i].record in fp;
        }
      }
    } else {
      assert |FirstOccurrences(rs)| == 0;
    }
  }

  /** A record is kept for every key, so nothing is kept only when no result is a record. */
  lemma {:induction false} FirstOccurrencesEmpty<P>(rs: seq<Outcome<P>>)
    ensures |FirstOccurrences(rs)| <= AcceptedCount(rs)
    ensures FirstOccurrences(rs) == [] <==> AcceptedCount(rs) == 0
    ensures AcceptedCount(rs) == 0 <==> forall i :: 0 <= i < |rs| ==> !rs[i].Accepted?
  {
    if rs != [] {
      var n := |rs|;
      var p := rs[..n - 1];
      FirstOccurrencesEmpty(p);
      if rs[n - 1].Accepted? && AcceptedCount(p) == 0 {
        forall j | 0 <= j < n - 1 ensures !rs[j].Accepted? {
          assert rs[j] == p[j];
        }
        assert IsFirst(rs, n - 1);
      }
      if AcceptedCount(rs) == 0 {
        forall j | 0 <= j < n ensures !rs[j].Accepted? {
          if j < n - 1 { assert rs[j] == p[j]; }
        }
      }
      if forall i :: 0 <= i < n ==> !rs[i].Accepted? {
        forall j | 0 <= j < n - 1 ensures !p[j].Accepted? {
          assert rs[j] == p[j];
        }
      }
    }
  }
}
