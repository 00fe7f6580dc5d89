/** The store object: an in-memory version index over a log, with a registry of held snapshots. */
module StoreObjects {
  import opened Bytes
  import opened Records
  import opened Segments
  import opened Logs
  import opened Versions
  import opened Scans
  import opened Stores

  type Index = map<Bytes, seq<Version>>

  /** The index holds exactly the versions of the history, key by key. */
  ghost predicate Indexes(index: Index, history: seq<Record>) {
    forall key: Bytes ::
      (key in index <==> VersionsOf(history, key) != []) && (key in index ==> index[key] == VersionsOf(history, key))
  }

  /** Adds one record's version to its key's list. */
  function Push(index: Index, r: Record): Index {
    index[r.key := (if r.key in index then index[r.key] else []) + [VersionOf(r)]]
  }

  lemma PushIndexes(index: Index, history: seq<Record>, r: Record)
    requires Indexes(index, history)
    ensures Indexes(Push(index, r), history + [r])
  {
    forall key: Bytes
      ensures key in Push(index, r) <==> VersionsOf(history + [r], key) != []
      ensures key in Push(index, r) ==> Push(index, r)[key] == VersionsOf(history + [r], key)
    {
      VersionsAppend(history, [r], key);
      OneRecord(r, key);
    }
  }

  method PushAll(index: Index, records: seq<Record>, ghost history: seq<Record>) returns (index': Index)
    requires Indexes(index, history)
    ensures Indexes(index', history + records)
  {
    hide VersionsOf, Indexes, Push;
    index' := index;
    assert history + records[..0] == history;
    for i := 0 to |records|
      invariant Indexes(index', history + records[..i])
    {
      PushIndexes(index', history + records[..i], records[i]);
      index' := Push(index', records[i]);
      assert history + records[..i + 1] == history + records[..i] + [records[i]];
    }
    assert records[..|records|] == records;
  }

  // ---------------------------------------------------------------------------
  // What compaction writes fits the record format

  lemma RecordOfFits(rs: seq<Record>, key: Bytes, v: Version)
    requires AllFit(rs) && v in VersionsOf(rs, key)
    ensures Records.Fits(RecordOf(key, v))
  {
    VersionsFrom(rs, key);
    var i :| 0 <= i < |rs| && rs[i].key == key && VersionOf(rs[i]) == v;
    assert rs[i] in rs;
  }

  lemma {:induction false} RecordsOfFit(rs: seq<Record>, key: Bytes, vs: seq<Version>)
    requires AllFit(rs) && forall v :: v in vs ==> v in VersionsOf(rs, key)
    ensures AllFit(RecordsOf(key, vs))
  {
    if vs != [] {
      RecordsOfFit(rs, key, vs[..|vs| - 1]);
      RecordOfFits(rs, key, vs[|vs| - 1]);
    }
  }

  lemma {:induction false} GatherFits(keys: seq<Bytes>, rs: seq<Record>, threshold: Option<nat>)
    requires AllFit(rs)
    ensures AllFit(Gather(keys, rs, threshold))
  {
    hide VersionsOf, Retained;
    if keys != [] {
      var key := keys[|keys| - 1];
      GatherFits(keys[..|keys| - 1], rs, threshold);
      RetainedSubset(VersionsOf(rs, key), threshold);
      RecordsOfFit(rs, key, Retained(VersionsOf(rs, key), threshold));
    }
  }

  lemma CompactedFits(rs: seq<Record>, threshold: Option<nat>)
    requires AllFit(rs)
    ensures AllFit(Compacted(rs, threshold))
  {
    hide SortBySeq, Gather;
    var g := Gather(SortedKeys(KeysOf(rs)), rs, threshold);
    GatherFits(SortedKeys(KeysOf(rs)), rs, threshold);
    SortSorts(g);
    forall r | r in SortBySeq(g) ensures Records.Fits(r) {
      assert r in multiset(SortBySeq(g));
      assert r in g;
    }
  }

  /** How many of `keys` a compaction reports as live: those whose last retained version is a value. */
  function CountLive(keys: seq<Bytes>, rs: seq<Record>, threshold: Option<nat>): nat {
    if keys == [] then 0
    else
      var front, vs := keys[..|keys| - 1], Retained(VersionsOf(rs, keys[|keys| - 1]), threshold);
      CountLive(front, rs, threshold) + if Latest(vs).Some? then 1 else 0
  }

  predicate IsLive(rs: seq<Record>, key: Bytes) {
    Latest(VersionsOf(rs, key)).Some?
  }

  lemma RetainedLatest(rs: seq<Record>, key: Bytes, threshold: Option<nat>)
    requires Increasing(rs)
    ensures Latest(Retained(VersionsOf(rs, key), threshold)).Some? == IsLive(rs, key)
  {
    hide VersionsOf;
    VersionsAscend(rs, key);
    if threshold.Some? {
      RetainedReads(VersionsOf(rs, key), threshold.value, threshold.value);
    }
  }

  ghost function LiveSet(keys: seq<Bytes>, rs: seq<Record>): set<Bytes> {
    set k | k in keys && IsLive(rs, k)
  }

  /** In an increasing history these are exactly the keys with a current value. */
  lemma {:induction false} LiveKeysCounted(keys: seq<Bytes>, rs: seq<Record>, threshold: Option<nat>)
    requires Increasing(rs) && forall i, j :: 0 <= i < j < |keys| ==> keys[i] != keys[j]
    ensures CountLive(keys, rs, threshold) == |LiveSet(keys, rs)|
  {
    hide VersionsOf, Increasing, Retained, IsLive, Latest;
    if keys == [] {
      assert LiveSet(keys, rs) == {};
    } else {
      var front, key := keys[..|keys| - 1], keys[|keys| - 1];
      LiveKeysCounted(front, rs, threshold);
      RetainedLatest(rs, key, threshold);
      assert keys == front + [key] && key !in front;
      LiveSetSnoc(front, key, rs);
    }
  }

  lemma LiveSetSnoc(front: seq<Bytes>, key: Bytes, rs: seq<Record>)
    requires key !in front
    ensures |LiveSet(front + [key], rs)| == |LiveSet(front, rs)| + if IsLive(rs, key) then 1 else 0
  {
    hide IsLive;
    var now, before := LiveSet(front + [key], rs), LiveSet(front, rs);
    assert now == if IsLive(rs, key) then before + {key} else before;
  }

  /** The keys that have a value now. */
  ghost function CurrentKeys(s: StoreState): set<Bytes> {
    set k | k in KeysOf(s.history) && Stores.Get(s, k).Some?
  }

  /** The report of a compaction counts the keys that have a current value. */
  lemma ReportsLive(s: StoreState)
    requires Increasing(s.history)
    ensures CountLive(SortedKeys(KeysOf(s.history)), s.history, Oldest(s.held)) == |CurrentKeys(s)|
  {
    hide VersionsOf, CountLive, Increasing, SortedKeys, KeysOf;
    var keys := SortedKeys(KeysOf(s.history));
    SortedKeysSorted(KeysOf(s.history));
    SortedDistinct(keys);
    LiveKeysCounted(keys, s.history, Oldest(s.held));
    assert LiveSet(keys, s.history) == CurrentKeys(s);
  }

  // ---------------------------------------------------------------------------
  // The store

  class Store {
    var log: Log
    var index: Index
    var held: map<nat, nat>

    /** What the index was built from. */
    ghost var history: seq<Record>

    ghost predicate Valid()
      reads this, log
    {
      LogOk(log.crc, log.State()) && Indexes(index, history) && AllFit(history)
    }

    ghost function State(): StoreState
      reads this, log
    {
      StoreState(history, Replay(log.crc, SegmentsOf(log.State())), log.nextSeq, held)
    }

    constructor (log: Log, index: Index, ghost history: seq<Record>)
      requires LogOk(log.crc, log.State()) && Indexes(index, history) && AllFit(history)
      ensures Valid() && this.log == log
      ensures State() == StoreState(history, Replay(log.crc, SegmentsOf(log.State())), log.nextSeq, map[])
    {
      this.log, this.index, this.history := log, index, history;
      held := map[];
    }

    /** Rebuilds the index by replaying the log, once any pending swap has been settled. */
    static method Open(crc: Checksum, segs: seq<Bytes>) returns (store: Option<Store>, recoveredFromTornTail: bool)
      ensures store.Some? <==> OpenLog(crc, segs).Some?
      ensures store.Some? ==> fresh(store.value) && fresh(store.value.log) && store.value.Valid()
      ensures store.Some? ==> (recoveredFromTornTail <==> segs != [] && !Untorn(crc, segs[|segs| - 1]))
      ensures store.Some? ==> var rs := Replay(crc, segs); store.value.State() == StoreState(rs, rs, NextSeq(rs), map[])
    {
      hide Parse, EncodeAll, NextSeq, Indexes, Replay, LogOk;
      var log, records, torn := Log.Open(crc, DEFAULT_SEGMENT_MAX_BYTES, segs);
      recoveredFromTornTail := torn;
      if log.None? {
        return None, torn;
      }
      OpenedLog(crc, segs);
      NothingIndexed();
      var index := PushAll(map[], records, []);
      assert [] + records == records;
      var s := new Store(log.value, index, records);
      return Some(s), torn;
    }

    function Get(key: Bytes): Option<Bytes>
      reads this
    {
      if key in index then Latest(index[key]) else None
    }

    function GetAt(key: Bytes, snapshot: nat): Option<Bytes>
      reads this
    {
      if key in index then ReadAt(index[key], snapshot) else None
    }

    function LatestSeq(key: Bytes): Option<nat>
      reads this
    {
      if key in index && index[key] != [] then Some(index[key][|index[key]| - 1].seqNo) else None
    }

    function Scan(prefix: Bytes): seq<(Bytes, Bytes)>
      reads this
    {
      var ix := index;
      PrefixScan(ix.Keys, prefix, k => if k in ix then Latest(ix[k]) else None)
    }

    function ScanAt(prefix: Bytes, snapshot: nat): seq<(Bytes, Bytes)>
      reads this
    {
      var ix := index;
      PrefixScan(ix.Keys, prefix, k => if k in ix then ReadAt(ix[k], snapshot) else None)
    }

    lemma ScansHistory(prefix: Bytes, snapshot: nat)
      requires Valid()
      ensures Scan(prefix) == Stores.Scan(State(), prefix)
      ensures ScanAt(prefix, snapshot) == Stores.ScanAt(State(), prefix, snapshot)
    {
      hide PrefixScan, VersionsOf, LogOk, Replay;
      var ix, s := index, State();
      forall k: Bytes ensures k in ix <==> k in KeysOf(s.history) {
        NoVersions(s.history, k);
      }
      forall k: Bytes
        ensures (if k in ix then Latest(ix[k]) else None) == Stores.Get(s, k)
        ensures (if k in ix then ReadAt(ix[k], snapshot) else None) == Stores.GetAt(s, k, snapshot)
      {
        ReadsHistory(k, snapshot);
      }
      SameScan(ix.Keys, KeysOf(s.history), prefix,
               k => if k in ix then Latest(ix[k]) else None, k => Stores.Get(s, k));
      SameScan(ix.Keys, KeysOf(s.history), prefix,
               k => if k in ix then ReadAt(ix[k], snapshot) else None, k => Stores.GetAt(s, k, snapshot));
    }

    /** Reading the index reads the history. */
    lemma ReadsHistory(key: Bytes, snapshot: nat)
      requires Valid()
      ensures Get(key) == Stores.Get(State(), key) && GetAt(key, snapshot) == Stores.GetAt(State(), key, snapshot)
      ensures LatestSeq(key) == Stores.LatestSeq(State(), key)
    {
    }

    method ApplyBatch(ops: seq<LogOp>)
      requires Valid() && AllFit(Stamp(ops, log.nextSeq))
      modifies this, log
      ensures Valid() && log == old(log) && State() == Stores.ApplyBatch(old(State()), ops)
    {
      hide Parse, EncodeAll, NextSeq, Indexes, Replay, LogOk, Stamp, Append;
      AppendOk(log.crc, log.maxBytes, log.State(), ops);
      var records := log.AppendBatch(ops);
      AppendNext(log.crc, log.maxBytes, old(log.State()), ops);
      index := PushAll(index, records, history);
      history := history + records;
    }

    method Put(key: Bytes, value: Bytes)
      requires Valid() && Records.Fits(PutRecord(log.nextSeq, key, value))
      modifies this, log
      ensures Valid() && log == old(log) && State() == Stores.ApplyBatch(old(State()), [PutOp(key, value)])
    {
      StampOne(PutOp(key, value), log.nextSeq);
      ApplyBatch([PutOp(key, value)]);
    }

    method Delete(key: Bytes)
      requires Valid() && Records.Fits(DeleteRecord(log.nextSeq, key))
      modifies this, log
      ensures Valid() && log == old(log) && State() == Stores.ApplyBatch(old(State()), [DeleteOp(key)])
    {
      StampOne(DeleteOp(key), log.nextSeq);
      ApplyBatch([DeleteOp(key)]);
    }

    /** Registers the present as a held snapshot and returns it. */
    method HoldSnapshot() returns (snapshot: nat)
      requires Valid()
      modifies this`held
      ensures Valid() && State() == Hold(old(State())) && snapshot == log.nextSeq
    {
      snapshot := log.nextSeq;
      held := held[snapshot := HeldCount(held, snapshot) + 1];
    }

    /** What dropping a guard does to the registry. */
    method DropGuard(snapshot: nat)
      requires Valid() && (snapshot in held ==> held[snapshot] > 0)
      modifies this`held
      ensures Valid() && State() == Release(old(State()), snapshot)
    {
      if snapshot in held {
        var count := held[snapshot] - 1;
        held := if count == 0 then held - {snapshot} else held[snapshot := count];
      }
    }

    /** Rewrites the log to the versions still needed and reopens it; the index is left as it is. */
    method Compact() returns (liveKeys: nat, segmentsBefore: nat, segmentsAfter: nat)
      requires Valid()
      modifies this
      ensures Valid() && fresh(log) && State() == Stores.Compact(old(State()))
      ensures liveKeys == CountLive(SortedKeys(KeysOf(old(history))), old(history), Oldest(old(held)))
      ensures segmentsBefore == |old(log.sealed)| + 1 && segmentsAfter == 1
    {
      hide VersionsOf, LogOk, Replay, Retained, SortBySeq, NextSeq, Parse, EncodeAll, SortedKeys, Indexes;
      segmentsBefore := |log.sealed| + 1;
      var retainFrom := Oldest(held);
      IndexKeys(index, history);
      var keys := SortedKeys(index.Keys);
      var records := [];
      liveKeys := 0;
      for i := 0 to |keys|
        invariant Valid() && log == old(log) && State() == old(State()) && log.sealed == old(log.sealed)
        invariant index == old(index)
        invariant records == Gather(keys[..i], history, retainFrom)
        invariant liveKeys == CountLive(keys[..i], history, retainFrom)
      {
        assert keys[i] in keys;
        IndexAt(index, history, keys[i]);
        var retained := Retained(index[keys[i]], retainFrom);
        assert keys[..i + 1][..i] == keys[..i];
        if Latest(retained).Some? {
          liveKeys := liveKeys + 1;
        }
        records := records + RecordsOf(keys[i], retained);
      }
      assert keys[..|keys|] == keys;
      records := SortBySeq(records);
      CompactedFits(history, retainFrom);
      VerbatimOk(log.crc, DEFAULT_SEGMENT_MAX_BYTES, records);
      var tmp := new Log(log.crc, DEFAULT_SEGMENT_MAX_BYTES, LogState([], [], 0));
      tmp.AppendRecordsVerbatim(records);
      LogReopens(log.crc, tmp.State());
      var reopened, _, _ := Log.Open(log.crc, DEFAULT_SEGMENT_MAX_BYTES, SegmentsOf(tmp.State()));
      log := reopened.value;
      segmentsAfter := |log.sealed| + 1;
    }
  }

  lemma IndexKeys(index: Index, history: seq<Record>)
    requires Indexes(index, history)
    ensures index.Keys == KeysOf(history)
  {
    forall k: Bytes ensures k in index <==> k in KeysOf(history) {
      NoVersions(history, k);
    }
  }

  lemma IndexAt(index: Index, history: seq<Record>, key: Bytes)
    requires Indexes(index, history)
    ensures key in index ==> index[key] == VersionsOf(history, key)
  {
  }

  lemma NothingIndexed()
    ensures Indexes(map[], [])
  {
  }
}
