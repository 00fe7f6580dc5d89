/** Multi-version histories: version lists per key, snapshot reads, and what compaction retains. */
module Versions {
  import opened Bytes
  import opened Records
  import opened Logs

  /** `None` is a tombstone. */
  datatype Version = Version(seqNo: nat, value: Option<Bytes>)

  function VersionOf(r: Record): Version {
    Version(r.seqNo, if r.kind == Put then Some(r.value) else None)
  }

  /** The versions of one key, in log order. */
  function VersionsOf(rs: seq<Record>, key: Bytes): seq<Version> {
    if rs == [] then []
    else
      var front, r := VersionsOf(rs[..|rs| - 1], key), rs[|rs| - 1];
      if r.key == key then front + [VersionOf(r)] else front
  }

  /** The newest version at all. */
  function Latest(vs: seq<Version>): Option<Bytes> {
    if vs == [] then None else vs[|vs| - 1].value
  }

  /** The newest version strictly before the snapshot. */
  function ReadAt(vs: seq<Version>, snapshot: nat): Option<Bytes> {
    if vs == [] then None
    else if vs[|vs| - 1].seqNo < snapshot then vs[|vs| - 1].value
    else ReadAt(vs[..|vs| - 1], snapshot)
  }

  predicate Ascending(vs: seq<Version>) {
    forall i, j :: 0 <= i < j < |vs| ==> vs[i].seqNo < vs[j].seqNo
  }

  // ---------------------------------------------------------------------------
  // Histories and reads

  lemma {:induction false} VersionsAppend(a: seq<Record>, b: seq<Record>, key: Bytes)
    ensures VersionsOf(a + b, key) == VersionsOf(a, key) + VersionsOf(b, key)
  {
    if b == [] {
      assert a + b == a;
    } else {
      VersionsAppend(a, b[..|b| - 1], key);
      assert (a + b)[..|a + b| - 1] == a + b[..|b| - 1];
    }
  }

  /** Every version of a key stems from one of its records. */
  lemma {:induction false} VersionsFrom(rs: seq<Record>, key: Bytes)
    ensures forall v :: v in VersionsOf(rs, key) ==>
            exists i :: 0 <= i < |rs| && rs[i].key == key && VersionOf(rs[i]) == v
  {
    if rs != [] {
      VersionsFrom(rs[..|rs| - 1], key);
      forall v | v in VersionsOf(rs, key)
        ensures exists i :: 0 <= i < |rs| && rs[i].key == key && VersionOf(rs[i]) == v
      {
        if v in VersionsOf(rs[..|rs| - 1], key) {
          var i :| 0 <= i < |rs| - 1 && rs[..|rs| - 1][i].key == key && VersionOf(rs[..|rs| - 1][i]) == v;
          assert rs[i].key == key && VersionOf(rs[i]) == v;
        } else {
          assert rs[|rs| - 1].key == key && VersionOf(rs[|rs| - 1]) == v;
        }
      }
    }
  }

  lemma {:induction false} VersionsBelow(rs: seq<Record>, key: Bytes, bound: nat)
    requires forall i :: 0 <= i < |rs| ==> rs[i].seqNo < bound
    ensures forall i :: 0 <= i < |VersionsOf(rs, key)| ==> VersionsOf(rs, key)[i].seqNo < bound
  {
    if rs != [] {
      VersionsBelow(rs[..|rs| - 1], key, bound);
    }
  }

  lemma {:induction false} VersionsFromBound(rs: seq<Record>, key: Bytes, bound: nat)
    requires forall i :: 0 <= i < |rs| ==> bound <= rs[i].seqNo
    ensures forall i :: 0 <= i < |VersionsOf(rs, key)| ==> bound <= VersionsOf(rs, key)[i].seqNo
  {
    if rs != [] {
      VersionsFromBound(rs[..|rs| - 1], key, bound);
    }
  }

  lemma {:induction false} VersionsAscend(rs: seq<Record>, key: Bytes)
    requires Increasing(rs)
    ensures Ascending(VersionsOf(rs, key))
    ensures forall i :: 0 <= i < |VersionsOf(rs, key)| ==> VersionsOf(rs, key)[i].seqNo < NextSeq(rs)
  {
    if rs != [] {
      var front, r := rs[..|rs| - 1], rs[|rs| - 1];
      VersionsAscend(front, key);
      NextSeqOf(rs);
      VersionsBelow(front, key, r.seqNo);
      VersionsBelow(rs, key, NextSeq(rs));
    }
  }

  /** Versions written at or after a snapshot are invisible to it. */
  lemma {:induction false} ReadAtIgnoresLater(a: seq<Version>, b: seq<Version>, snapshot: nat)
    requires forall i :: 0 <= i < |b| ==> snapshot <= b[i].seqNo
    ensures ReadAt(a + b, snapshot) == ReadAt(a, snapshot)
  {
    if b == [] {
      assert a + b == a;
    } else {
      assert (a + b)[..|a + b| - 1] == a + b[..|b| - 1];
      ReadAtIgnoresLater(a, b[..|b| - 1], snapshot);
    }
  }

  lemma ReadAtTop(vs: seq<Version>, snapshot: nat)
    requires forall i :: 0 <= i < |vs| ==> vs[i].seqNo < snapshot
    ensures ReadAt(vs, snapshot) == Latest(vs)
  {
  }

  /** The records before a snapshot. */
  function Before(rs: seq<Record>, snapshot: nat): seq<Record> {
    if rs == [] then []
    else
      var front, r := Before(rs[..|rs| - 1], snapshot), rs[|rs| - 1];
      if r.seqNo < snapshot then front + [r] else front
  }

  /** A snapshot read is a current read of the history cut off at the snapshot. */
  lemma {:induction false} ReadAtIsFold(rs: seq<Record>, key: Bytes, snapshot: nat)
    ensures ReadAt(VersionsOf(rs, key), snapshot) == Latest(VersionsOf(Before(rs, snapshot), key))
  {
    if rs != [] {
      var front, r := rs[..|rs| - 1], rs[|rs| - 1];
      ReadAtIsFold(front, key, snapshot);
      VersionsAppend(Before(front, snapshot), [r], key);
      assert [r][..0] == [];
      var vs := VersionsOf(front, key);
      assert (vs + [VersionOf(r)])[..|vs|] == vs;
    }
  }

  // ---------------------------------------------------------------------------
  // Retention

  /** The newest version before the threshold, if any, as a list. */
  function Boundary(vs: seq<Version>, threshold: nat): seq<Version> {
    if vs == [] then []
    else if vs[|vs| - 1].seqNo < threshold then [vs[|vs| - 1]]
    else Boundary(vs[..|vs| - 1], threshold)
  }

  function AtOrAfter(vs: seq<Version>, threshold: nat): seq<Version> {
    if vs == [] then []
    else
      var front, v := AtOrAfter(vs[..|vs| - 1], threshold), vs[|vs| - 1];
      if v.seqNo >= threshold then front + [v] else front
  }

  /** What compaction keeps of one key: its current value if no snapshot is held, otherwise
      everything from the oldest held snapshot on and the version that snapshot reads. */
  function Retained(vs: seq<Version>, threshold: Option<nat>): seq<Version> {
    match threshold
    case None => if vs == [] || vs[|vs| - 1].value.None? then [] else [vs[|vs| - 1]]
    case Some(t) => Boundary(vs, t) + AtOrAfter(vs, t)
  }

  /** An ascending list falls into versions before the threshold and versions at or after it. */
  lemma {:induction false} RetainedSplits(vs: seq<Version>, t: nat) returns (a: seq<Version>)
    requires Ascending(vs)
    ensures vs == a + AtOrAfter(vs, t)
    ensures forall i :: 0 <= i < |a| ==> a[i].seqNo < t
    ensures forall i :: 0 <= i < |AtOrAfter(vs, t)| ==> t <= AtOrAfter(vs, t)[i].seqNo
    ensures Boundary(vs, t) == if a == [] then [] else [a[|a| - 1]]
  {
    if vs == [] {
      a := [];
    } else {
      var front, v := vs[..|vs| - 1], vs[|vs| - 1];
      if v.seqNo < t {
        a := vs;
        AllBelow(vs, t);
      } else {
        a := RetainedSplits(front, t);
      }
    }
  }

  lemma {:induction false} AllBelow(vs: seq<Version>, t: nat)
    requires forall i :: 0 <= i < |vs| ==> vs[i].seqNo < t
    ensures AtOrAfter(vs, t) == []
  {
    if vs != [] {
      AllBelow(vs[..|vs| - 1], t);
    }
  }

  /** Every snapshot from the threshold on, and the present, read the same after compaction. */
  lemma RetainedReads(vs: seq<Version>, t: nat, snapshot: nat)
    requires Ascending(vs) && t <= snapshot
    ensures ReadAt(Retained(vs, Some(t)), snapshot) == ReadAt(vs, snapshot)
    ensures Latest(Retained(vs, Some(t))) == Latest(vs)
    ensures Ascending(Retained(vs, Some(t)))
  {
    hide Boundary, AtOrAfter;
    var a := RetainedSplits(vs, t);
    var b, c := Boundary(vs, t), AtOrAfter(vs, t);
    SameTail(a, b, c, snapshot);
    assert forall i :: 0 <= i < |c| ==> c[i] == vs[|a| + i];
  }

  /** The newest of the versions before the threshold. */
  predicate IsBoundary(vs: seq<Version>, t: nat, v: Version) {
    v.seqNo < t && forall w :: w in vs && w.seqNo < t ==> w.seqNo <= v.seqNo
  }

  /** With a guard at `t`, exactly the versions from `t` on and the newest one before it are kept. Without
      one, exactly the newest version, unless it is a tombstone. */
  lemma RetainedIff(vs: seq<Version>, t: nat, v: Version)
    requires Ascending(vs)
    ensures v in Retained(vs, Some(t)) <==> v in vs && (v.seqNo >= t || IsBoundary(vs, t, v))
    ensures v in Retained(vs, None) <==> v in vs && v.value.Some? && forall w :: w in vs ==> w.seqNo <= v.seqNo
  {
    hide Boundary, AtOrAfter;
    var a := RetainedSplits(vs, t);
    var c := AtOrAfter(vs, t);
    assert v in vs <==> v in a || v in c;
    if v in a {
      var i :| 0 <= i < |a| && a[i] == v;
      assert a[i] == vs[i] && a[|a| - 1] == vs[|a| - 1];
      assert IsBoundary(vs, t, v) ==> i == |a| - 1;
    }
    if a != [] {
      assert forall j :: 0 <= j < |a| ==> a[j] == vs[j];
      assert IsBoundary(vs, t, a[|a| - 1]);
      assert a[|a| - 1] in vs;
    }
    if vs != [] {
      assert vs[|vs| - 1] in vs;
    }
  }

  /** Two lists with the same tail read the same if what precedes the tail does. */
  lemma {:induction false} SameTail(a: seq<Version>, b: seq<Version>, c: seq<Version>, snapshot: nat)
    requires ReadAt(a, snapshot) == ReadAt(b, snapshot) && (c == [] ==> Latest(a) == Latest(b))
    ensures ReadAt(a + c, snapshot) == ReadAt(b + c, snapshot) && Latest(a + c) == Latest(b + c)
  {
    if c == [] {
      assert a + c == a && b + c == b;
    } else {
      var c' := c[..|c| - 1];
      assert (a + c)[..|a + c| - 1] == a + c' && (b + c)[..|b + c| - 1] == b + c';
      ReadTail(a, b, c', snapshot);
    }
  }

  lemma {:induction false} ReadTail(a: seq<Version>, b: seq<Version>, c: seq<Version>, snapshot: nat)
    requires ReadAt(a, snapshot) == ReadAt(b, snapshot)
    ensures ReadAt(a + c, snapshot) == ReadAt(b + c, snapshot)
  {
    if c == [] {
      assert a + c == a && b + c == b;
    } else {
      var c' := c[..|c| - 1];
      assert (a + c)[..|a + c| - 1] == a + c' && (b + c)[..|b + c| - 1] == b + c';
      ReadTail(a, b, c', snapshot);
    }
  }

  // ---------------------------------------------------------------------------
  // The compacted log

  function RecordOf(key: Bytes, v: Version): Record {
    if v.value.Some? then PutRecord(v.seqNo, key, v.value.value) else DeleteRecord(v.seqNo, key)
  }

  function RecordsOf(key: Bytes, vs: seq<Version>): seq<Record> {
    if vs == [] then [] else RecordsOf(key, vs[..|vs| - 1]) + [RecordOf(key, vs[|vs| - 1])]
  }

  lemma {:induction false} RecordsOfVersions(key: Bytes, vs: seq<Version>, k: Bytes)
    ensures VersionsOf(RecordsOf(key, vs), k) == if k == key then vs else []
  {
    if vs != [] {
      RecordsOfVersions(key, vs[..|vs| - 1], k);
    }
  }

  /** The retained versions of `keys`, key by key. */
  function Gather(keys: seq<Bytes>, rs: seq<Record>, threshold: Option<nat>): seq<Record> {
    if keys == [] then []
    else
      var key := keys[|keys| - 1];
      Gather(keys[..|keys| - 1], rs, threshold) + RecordsOf(key, Retained(VersionsOf(rs, key), threshold))
  }

  lemma {:induction false} GatherVersions(keys: seq<Bytes>, rs: seq<Record>, threshold: Option<nat>, k: Bytes)
    requires forall i, j :: 0 <= i < j < |keys| ==> keys[i] != keys[j]
    ensures VersionsOf(Gather(keys, rs, threshold), k) ==
            if k in keys then Retained(VersionsOf(rs, k), threshold) else []
  {
    hide Retained, VersionsOf, RecordsOf;
    if keys == [] {
      NoRecords(k);
    } else {
      var front, key := keys[..|keys| - 1], keys[|keys| - 1];
      assert keys == front + [key];
      assert key !in front;
      GatherVersions(front, rs, threshold, k);
      var mine := RecordsOf(key, Retained(VersionsOf(rs, key), threshold));
      VersionsAppend(Gather(front, rs, threshold), mine, k);
      RecordsOfVersions(key, Retained(VersionsOf(rs, key), threshold), k);
    }
  }

  /** Puts `r` behind every record with a sequence number at most its own. */
  function InsertBySeq(rs: seq<Record>, r: Record): seq<Record> {
    if rs == [] || rs[|rs| - 1].seqNo <= r.seqNo then rs + [r]
    else InsertBySeq(rs[..|rs| - 1], r) + [rs[|rs| - 1]]
  }

  /** A stable sort by sequence number. */
  function SortBySeq(rs: seq<Record>): seq<Record> {
    if rs == [] then [] else InsertBySeq(SortBySeq(rs[..|rs| - 1]), rs[|rs| - 1])
  }

  predicate SortedBySeq(rs: seq<Record>) {
    forall i, j :: 0 <= i < j < |rs| ==> rs[i].seqNo <= rs[j].seqNo
  }

  lemma {:induction false} InsertMembers(rs: seq<Record>, r: Record)
    ensures multiset(InsertBySeq(rs, r)) == multiset(rs) + multiset{r}
  {
    if rs != [] && r.seqNo < rs[|rs| - 1].seqNo {
      InsertMembers(rs[..|rs| - 1], r);
      assert rs == rs[..|rs| - 1] + [rs[|rs| - 1]];
    }
  }

  lemma {:induction false} InsertSorted(rs: seq<Record>, r: Record)
    requires SortedBySeq(rs)
    ensures SortedBySeq(InsertBySeq(rs, r))
  {
    if rs != [] && r.seqNo < rs[|rs| - 1].seqNo {
      var front, last := rs[..|rs| - 1], rs[|rs| - 1];
      InsertSorted(front, r);
      InsertMembers(front, r);
      var ins := InsertBySeq(front, r);
      forall i | 0 <= i < |ins| ensures ins[i].seqNo <= last.seqNo {
        assert ins[i] in multiset(ins);
        assert ins[i] in front || ins[i] == r;
      }
      SortedSnoc(ins, last);
    }
  }

  lemma SortedSnoc(rs: seq<Record>, last: Record)
    requires SortedBySeq(rs) && forall i :: 0 <= i < |rs| ==> rs[i].seqNo <= last.seqNo
    ensures SortedBySeq(rs + [last])
  {
  }

  lemma {:induction false} SortSorts(rs: seq<Record>)
    ensures SortedBySeq(SortBySeq(rs)) && multiset(SortBySeq(rs)) == multiset(rs)
  {
    if rs != [] {
      SortSorts(rs[..|rs| - 1]);
      InsertSorted(SortBySeq(rs[..|rs| - 1]), rs[|rs| - 1]);
      InsertMembers(SortBySeq(rs[..|rs| - 1]), rs[|rs| - 1]);
      assert rs == rs[..|rs| - 1] + [rs[|rs| - 1]];
    }
  }

  /** Inserting a newer version of its key appends it to that key's list and leaves the others alone. */
  lemma {:induction false} InsertVersions(rs: seq<Record>, r: Record, k: Bytes)
    requires forall i :: 0 <= i < |rs| && rs[i].key == r.key ==> rs[i].seqNo <= r.seqNo
    ensures VersionsOf(InsertBySeq(rs, r), k) == VersionsOf(rs + [r], k)
  {
    hide VersionsOf;
    if rs == [] || rs[|rs| - 1].seqNo <= r.seqNo {
    } else {
      var front, last := rs[..|rs| - 1], rs[|rs| - 1];
      InsertVersions(front, r, k);
      VersionsAppend(InsertBySeq(front, r), [last], k);
      VersionsAppend(front + [r], [last], k);
      VersionsAppend(front, [r], k);
      VersionsAppend(front, [last], k);
      VersionsAppend(front + [last], [r], k);
      assert rs == front + [last];
      assert last.key != r.key;
      OneRecord(r, k);
      OneRecord(last, k);
    }
  }

  lemma NoRecords(k: Bytes)
    ensures VersionsOf([], k) == []
  {
  }

  lemma OneRecord(r: Record, k: Bytes)
    ensures VersionsOf([r], k) == if r.key == k then [VersionOf(r)] else []
  {
    assert [r][..0] == [];
  }

  /** Sorting by sequence number keeps each key's versions, if those already ascend. */
  lemma {:induction false} SortVersions(rs: seq<Record>, k: Bytes)
    requires forall key: Bytes :: Ascending(VersionsOf(rs, key))
    ensures VersionsOf(SortBySeq(rs), k) == VersionsOf(rs, k)
  {
    if rs != [] {
      var front, r := rs[..|rs| - 1], rs[|rs| - 1];
      assert rs == front + [r];
      forall key: Bytes ensures Ascending(VersionsOf(front, key)) {
        AscendingFront(front, r, key);
      }
      SortVersions(front, k);
      var sorted := SortBySeq(front);
      forall i | 0 <= i < |sorted| && sorted[i].key == r.key ensures sorted[i].seqNo <= r.seqNo {
        SortSorts(front);
        assert sorted[i] in multiset(sorted);
        assert sorted[i] in front;
        LastIsNewest(front, r, sorted[i]);
      }
      InsertVersions(sorted, r, k);
      VersionsAppend(sorted, [r], k);
      VersionsAppend(front, [r], k);
    }
  }

  /** The version with the largest number, the last of them if several share it. */
  function Top(vs: seq<Version>): (v: Version)
    requires vs != []
    ensures v in vs && forall x :: x in vs ==> x.seqNo <= v.seqNo
  {
    var front, last := vs[..|vs| - 1], vs[|vs| - 1];
    if front == [] then last else if Top(front).seqNo <= last.seqNo then last else Top(front)
  }

  /** What `r` does to the end of its key's list, in records sorted by number. */
  lemma {:induction false} InsertEnd(rs: seq<Record>, r: Record, k: Bytes)
    requires SortedBySeq(rs)
    ensures var before, after := VersionsOf(rs, k), VersionsOf(InsertBySeq(rs, r), k);
            if r.key != k then after == before
            else after != [] && after[|after| - 1] ==
                 if before != [] && r.seqNo < before[|before| - 1].seqNo then before[|before| - 1] else VersionOf(r)
  {
    hide VersionsOf;
    if rs == [] || rs[|rs| - 1].seqNo <= r.seqNo {
      VersionsAppend(rs, [r], k);
      OneRecord(r, k);
      AllAtMost(rs, k, r.seqNo);
    } else {
      var front, last := rs[..|rs| - 1], rs[|rs| - 1];
      InsertEnd(front, r, k);
      assert rs == front + [last];
      VersionsAppend(front, [last], k);
      VersionsAppend(InsertBySeq(front, r), [last], k);
      OneRecord(last, k);
    }
  }

  lemma AllAtMost(rs: seq<Record>, k: Bytes, n: nat)
    requires SortedBySeq(rs) && (rs != [] ==> rs[|rs| - 1].seqNo <= n)
    ensures forall v :: v in VersionsOf(rs, k) ==> v.seqNo <= n
  {
    hide VersionsOf;
    VersionsFrom(rs, k);
  }

  /** For any list, sorting by number leaves the top version of each key at the end of its list. */
  lemma {:induction false} SortEnd(rs: seq<Record>, k: Bytes)
    ensures var before, after := VersionsOf(rs, k), VersionsOf(SortBySeq(rs), k);
            (before == [] <==> after == []) && (before != [] ==> after[|after| - 1] == Top(before))
  {
    hide VersionsOf, InsertBySeq, Top, SortedBySeq;
    if rs == [] {
      NoRecords(k);
    } else {
      var front, r := rs[..|rs| - 1], rs[|rs| - 1];
      SortEnd(front, k);
      SortSorts(front);
      InsertEnd(SortBySeq(front), r, k);
      assert rs == front + [r];
      VersionsAppend(front, [r], k);
      OneRecord(r, k);
      var vs := VersionsOf(front, k);
      TopSnoc(vs, VersionOf(r));
      assert VersionsOf(rs, k) == if r.key == k then vs + [VersionOf(r)] else vs;
      assert SortBySeq(rs) == InsertBySeq(SortBySeq(front), r);
    }
  }

  lemma TopSnoc(vs: seq<Version>, v: Version)
    ensures Top(vs + [v]) == if vs == [] || Top(vs).seqNo <= v.seqNo then v else Top(vs)
  {
    assert (vs + [v])[..|vs|] == vs;
  }

  lemma AscendingFront(front: seq<Record>, r: Record, key: Bytes)
    requires Ascending(VersionsOf(front + [r], key))
    ensures Ascending(VersionsOf(front, key))
  {
    VersionsAppend(front, [r], key);
    var a, b := VersionsOf(front, key), VersionsOf([r], key);
    forall i, j | 0 <= i < j < |a| ensures a[i].seqNo < a[j].seqNo {
      assert (a + b)[i] == a[i] && (a + b)[j] == a[j];
    }
  }

  lemma LastIsNewest(front: seq<Record>, r: Record, x: Record)
    requires Ascending(VersionsOf(front + [r], r.key)) && x in front && x.key == r.key
    ensures x.seqNo < r.seqNo
  {
    VersionsAppend(front, [r], r.key);
    OneRecord(r, r.key);
    var i := VersionIndex(front, x);
    var vs := VersionsOf(front, r.key);
    assert (vs + [VersionOf(r)])[i] == VersionOf(x) && (vs + [VersionOf(r)])[|vs|] == VersionOf(r);
  }

  lemma {:induction false} VersionIndex(rs: seq<Record>, x: Record) returns (i: nat)
    requires x in rs
    ensures i < |VersionsOf(rs, x.key)| && VersionsOf(rs, x.key)[i] == VersionOf(x)
  {
    var front, r := rs[..|rs| - 1], rs[|rs| - 1];
    if r == x {
      i := |VersionsOf(rs, x.key)| - 1;
    } else {
      assert x in front;
      i := VersionIndex(front, x);
    }
  }
}
