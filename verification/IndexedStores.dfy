/** The indexed store: a log, a persistent B+Tree index over it, and checkpoints. */
module IndexedStores {
  import opened Bytes
  import opened Records
  import opened Logs
  import opened Versions
  import opened Scans
  import opened Stores
  import opened IndexMaps
  import R = IndexRuns
  import B = BTrees
  import E = Entries
  import N = Nodes

  // ---------------------------------------------------------------------------
  // Scanning the index

  predicate IsUserEntry(e: N.Entry) {
    e.key != [] && e.key[0] == NS_USER
  }

  predicate Tagged(bs: Bytes) {
    bs != [] && bs[0] <= 1
  }

  /** The entry lists this pair under the prefix. */
  predicate Lists(e: N.Entry, prefix: Bytes, p: (Bytes, Bytes)) {
    e.key == UserKey(p.0) && StartsWith(p.0, prefix) && Tagged(e.value) && DecodeValue(e.value) == Some(p.1)
  }

  /** The live user entries under the prefix, with the namespace byte and the tag removed. */
  function Filtered(es: seq<N.Entry>, prefix: Bytes): seq<(Bytes, Bytes)>
    requires forall e :: e in es && IsUserEntry(e) ==> Tagged(e.value)
  {
    if es == [] then []
    else
      var out, e := Filtered(es[..|es| - 1], prefix), es[|es| - 1];
      assert e in es && (IsUserEntry(e) ==> Tagged(e.value));
      if IsUserEntry(e) && StartsWith(e.key[1..], prefix) && DecodeValue(e.value).Some?
      then out + [(e.key[1..], DecodeValue(e.value).value)] else out
  }

  lemma {:induction false} FilteredSpec(es: seq<N.Entry>, prefix: Bytes)
    requires N.SortedEntries(es) && forall e :: e in es && IsUserEntry(e) ==> Tagged(e.value)
    ensures Listed(Filtered(es, prefix))
    ensures forall p :: p in Filtered(es, prefix) <==> exists e :: e in es && Lists(e, prefix, p)
  {
    hide Less, DecodeValue;
    if es != [] {
      var front, e := es[..|es| - 1], es[|es| - 1];
      var out := Filtered(front, prefix);
      FilteredSpec(front, prefix);
      assert es == front + [e];
      forall p ensures p in Filtered(es, prefix) <==> p in out || Lists(e, prefix, p) {
        UserKeysApart(p.0, p.0);
        assert IsUserEntry(e) ==> e.key == UserKey(e.key[1..]);
      }
      forall p
        ensures (exists x :: x in es && Lists(x, prefix, p)) <==>
                (exists x :: x in front && Lists(x, prefix, p)) || Lists(e, prefix, p)
      {
        assert e in es;
      }
      forall p | p in out && IsUserEntry(e) ensures Less(p.0, e.key[1..]) {
        var x :| x in front && Lists(x, prefix, p);
        assert e.key == UserKey(e.key[1..]);
        UserKeyOrder(p.0, e.key[1..]);
      }
    }
  }

  lemma TaggedEntries(es: seq<N.Entry>, s: StoreState)
    requires N.SortedEntries(es) && Reflects(E.ToMap(es), s.history)
    ensures forall e :: e in es && IsUserEntry(e) ==> Tagged(e.value)
  {
    hide Less, VersionsOf, E.ToMap;
    forall e | e in es && IsUserEntry(e) ensures Tagged(e.value) {
      E.MapMember(es, e);
      assert e.key == UserKey(e.key[1..]);
      GetAgrees(E.ToMap(es), s, e.key[1..]);
    }
  }

  lemma ListsIffLive(es: seq<N.Entry>, s: StoreState, prefix: Bytes, p: (Bytes, Bytes))
    requires N.SortedEntries(es) && Reflects(E.ToMap(es), s.history)
    ensures (exists e :: e in es && Lists(e, prefix, p)) <==>
            p.0 in KeysOf(s.history) && StartsWith(p.0, prefix) && Get(s, p.0) == Some(p.1)
  {
    hide Less, VersionsOf, E.ToMap, KeysOf, DecodeValue;
    var m := E.ToMap(es);
    GetAgrees(m, s, p.0);
    NoVersions(s.history, p.0);
    assert HoldsKey(m, p.0, VersionsOf(s.history, p.0));
    if e :| e in es && Lists(e, prefix, p) {
      E.MapMember(es, e);
    }
    if UserKey(p.0) in m {
      var e := N.Entry(UserKey(p.0), m[UserKey(p.0)]);
      E.MapMember(es, e);
      assert e in es;
    }
  }

  /** Filtering the whole traversal scans as the plain store over the same records does. */
  lemma ScanAgrees(es: seq<N.Entry>, s: StoreState, prefix: Bytes)
    requires N.SortedEntries(es) && Reflects(E.ToMap(es), s.history)
    ensures forall e :: e in es && IsUserEntry(e) ==> Tagged(e.value)
    ensures Filtered(es, prefix) == Scan(s, prefix)
  {
    hide Less, Filtered, PrefixScan, Lists, Get, KeysOf, Reflects, N.SortedEntries;
    TaggedEntries(es, s);
    FilteredSpec(es, prefix);
    PrefixScanSpec(KeysOf(s.history), prefix, k => Get(s, k));
    forall p ensures p in Filtered(es, prefix) <==> p in Scan(s, prefix) {
      ListsIffLive(es, s, prefix, p);
    }
    ListingUnique(Filtered(es, prefix), Scan(s, prefix));
  }

  // ---------------------------------------------------------------------------
  // Room for inserts

  /** Page ids suffice for `n` more inserts, each of which may split every level. */
  ghost predicate Room(nextId: nat, height: nat, n: nat) {
    nextId + n * (height + n) <= N.MAX_PAGE_IDS
  }

  lemma TimesMonotone(k: nat, a: nat, b: nat)
    requires a <= b
    ensures k * a <= k * b
  {
  }

  lemma OneTimesMore(n: nat, b: nat)
    requires n >= 1
    ensures n * b == (n - 1) * b + b
  {
  }

  lemma RoomStep(nextId: nat, height: nat, nextId': nat, height': nat, n: nat)
    requires n >= 1 && Room(nextId, height, n) && nextId' <= nextId + height + 1 && height' <= height + 1
    ensures Room(nextId', height', n - 1)
  {
    TimesMonotone(n - 1, height' + (n - 1), height + n);
    OneTimesMore(n, height + n);
  }

  lemma RoomForOne(nextId: nat, height: nat, n: nat)
    requires n >= 1 && Room(nextId, height, n)
    ensures nextId + height < N.MAX_PAGE_IDS
  {
    OneTimesMore(n, height + n);
  }

  /** Key and value with the namespace byte and the tag. */
  predicate Small(r: Record) {
    |r.key| + |r.value| + 2 <= N.MAX_ENTRY
  }

  method ApplyToIndex(index: B.BTree, record: Record, ghost n: nat)
    requires index.Valid() && index.pool.capacity >= 2 && Small(record)
    requires n >= 1 && Room(index.pool.nextId, index.height, n)
    modifies index, index.pool
    ensures index.Valid() && index.Contents() == ApplyRecord(old(index.Contents()), record)
    ensures Room(index.pool.nextId, index.height, n - 1)
  {
    hide Room;
    RoomForOne(index.pool.nextId, index.height, n);
    index.Insert(UserKey(record.key), EncodeValue(VersionOf(record).value));
    RoomStep(old(index.pool.nextId), old(index.height), index.pool.nextId, index.height, n);
  }

  method MoveSentinel(index: B.BTree, next: nat, ghost n: nat)
    requires index.Valid() && index.pool.capacity >= 2 && n >= 1 && Room(index.pool.nextId, index.height, n)
    modifies index, index.pool
    ensures index.Valid() && index.Contents() == SetSentinel(old(index.Contents()), next)
    ensures B.Image(B.StoreView(index.pool.store), index.tree, index.height, index.chain, index.pool.nextId)
    ensures forall id :: id in index.pool.store ==> id < index.pool.nextId
  {
    hide Room, B.Image, ToLE;
    RoomForOne(index.pool.nextId, index.height, n);
    index.Insert(LAST_INDEXED_KEY, ToLE(next, 8));
    index.Flush();
  }

  /** Applies the records from `from` on and counts them. */
  method CatchUp(index: B.BTree, records: seq<Record>, from: nat) returns (count: nat)
    requires index.Valid() && index.pool.capacity >= 2 && forall r :: r in records ==> Small(r)
    requires Room(index.pool.nextId, index.height, |records| + 1)
    modifies index, index.pool
    ensures index.Valid() && index.Contents() == ReplayFrom(old(index.Contents()), records, from)
    ensures count == |Tail(records, from)| && Room(index.pool.nextId, index.height, 1)
  {
    hide Room, B.BTree.Valid, B.BTree.Contents, B.Image, ApplyRecord, Small;
    count := 0;
    for i := 0 to |records|
      invariant index.Valid() && index.Contents() == ReplayFrom(old(index.Contents()), records[..i], from)
      invariant count == |Tail(records[..i], from)| && Room(index.pool.nextId, index.height, |records| + 1 - i)
    {
      assert records[..i + 1][..i] == records[..i];
      if records[i].seqNo >= from {
        ApplyToIndex(index, records[i], |records| + 1 - i);
        count := count + 1;
      } else {
        RoomStep(index.pool.nextId, index.height, index.pool.nextId, index.height, |records| + 1 - i);
      }
    }
    assert records[..|records|] == records;
  }

  method ReadLastIndexed(index: B.BTree) returns (seqNo: nat)
    requires index.Valid()
    modifies index.pool
    ensures index.Valid() && index.pool.nextId == old(index.pool.nextId) && seqNo == Sentinel(index.Contents())
    ensures index.Contents() == old(index.Contents())
  {
    var bytes := index.Get(LAST_INDEXED_KEY);
    seqNo := if bytes.Some? then FromLE(bytes.value) else 0;
  }

  /** Brings the index up to the log and, if that took any work, moves the sentinel and flushes. */
  method Reconcile(index: B.BTree, records: seq<Record>, next: nat, ghost p: nat) returns (count: nat)
    requires index.Valid() && index.pool.capacity >= 2 && forall r :: r in records ==> Small(r)
    requires Increasing(records) && CaughtUp(index.Contents(), records, p)
    requires next == NextSeq(records) < 0x1_0000_0000_0000_0000 && Room(index.pool.nextId, index.height, |records| + 1)
    modifies index, index.pool
    ensures index.Valid() && Reflects(index.Contents(), records) && Sentinel(index.Contents()) == next
    ensures index.Contents() == Reconciled(old(index.Contents()), records)
    ensures count == |Tail(records, old(Sentinel(index.Contents())))|
  {
    hide NextSeq, ReplayFrom, Tail, Reflects, Sentinel, Increasing, Room, ToLE, B.Image, SetSentinel, B.BTree.Valid,
      B.BTree.Contents, Small;
    ghost var m := index.Contents();
    var last := ReadLastIndexed(index);
    count := CatchUp(index, records, last);
    if count > 0 {
      MoveSentinel(index, next, 1);
    }
    ReconciledReflects(m, records, p);
  }

  // ---------------------------------------------------------------------------
  // The store

  class IndexedStore {
    const log: Log
    const index: B.BTree
    const checkpointInterval: nat
    const reconciledRecords: nat
    const recoveredFromTornTail: bool
    var pending: nat

    /** What the page store has held since the last flush, and how many records that reflects. */
    ghost var image: Index
    ghost var covered: nat

    /** Everything ever written, in order. */
    ghost function History(): seq<Record>
      reads log
    {
      Replay(log.crc, SegmentsOf(log.State()))
    }

    /** The plain store over the same log. */
    ghost function Plain(): StoreState
      reads log
    {
      StoreState(History(), History(), log.nextSeq, map[])
    }

    /** The store as a state of `IndexRuns`, between calls. */
    ghost function Model(): R.State
      reads this, log, index
    {
      R.State(History(), index.Contents(), image, pending, R.Idle)
    }

    /** The index has caught up with the log, its sentinel is `pending` records behind, and a reopening
        would find an image with that sentinel that reflects a prefix of the log. */
    ghost predicate Current()
      reads this, log, index, index.pool
    {
      && LogOk(log.crc, log.State()) && Increasing(History())
      && index.Valid() && index.pool.capacity >= 2 && Reflects(index.Contents(), History())
      && Sentinel(index.Contents()) + pending == log.nextSeq
      && Sentinel(image) == Sentinel(index.Contents()) && CaughtUp(image, History(), covered)
    }

    ghost predicate Valid()
      reads this, log, index, index.pool
    {
      Current() && pending < checkpointInterval
    }

    /** Stopped between calls, the store leaves fewer records to replay than one checkpoint interval.
        What it leaves when stopped inside a call is in `IndexRuns.RunReplays`. */
    lemma ReplayIsBounded()
      requires Valid()
      ensures R.Replayed(Model()) <= pending < checkpointInterval
    {
      hide Replay, Sentinel, NextSeq, Reflects, Tail, Increasing, B.BTree.Valid, B.BTree.Contents;
      LogOkNext(log.crc, log.State());
      TailBounded(History(), Sentinel(image));
    }

    constructor (log: Log, index: B.BTree, interval: nat, reconciled: nat, torn: bool, ghost image: Index,
                 ghost covered: nat)
      ensures this.log == log && this.index == index && pending == 0 && this.image == image && this.covered == covered
      ensures checkpointInterval == (if interval > 1 then interval else 1) && reconciledRecords == reconciled
      ensures recoveredFromTornTail == torn
    {
      this.log, this.index := log, index;
      checkpointInterval := if interval > 1 then interval else 1;
      reconciledRecords, recoveredFromTornTail := reconciled, torn;
      pending := 0;
      this.image, this.covered := image, covered;
    }

    /** Opens log and index and replays what the index lags behind. The index image may reflect any
        prefix of the log its sentinel does not overstate. */
    static method Open(crc: Checksum, segs: seq<Bytes>, index: B.BTree, interval: nat, ghost p: nat)
      returns (store: Option<IndexedStore>)
      requires index.Valid() && index.pool.capacity >= 2
      requires Increasing(Replay(crc, segs)) && CaughtUp(index.Contents(), Replay(crc, segs), p)
      requires forall r :: r in Replay(crc, segs) ==> Small(r)
      requires Room(index.pool.nextId, index.height, |Replay(crc, segs)| + 1)
      requires NextSeq(Replay(crc, segs)) < 0x1_0000_0000_0000_0000
      modifies index, index.pool
      ensures store.Some? <==> OpenLog(crc, segs).Some?
      ensures store.Some? ==> fresh(store.value) && fresh(store.value.log)
      ensures store.Some? ==> store.value.index == index && store.value.Valid()
      ensures store.Some? ==>
                (store.value.recoveredFromTornTail <==> segs != [] && !Untorn(crc, segs[|segs| - 1]))
      ensures store.Some? ==>
                var s, rs := store.value, Replay(crc, segs);
                s.Model() == R.Do(s.checkpointInterval, R.State(rs, map[], old(index.Contents()), 0, R.Down), R.Reopen)
      ensures store.Some? ==>
                store.value.reconciledRecords == |Tail(Replay(crc, segs), old(Sentinel(index.Contents())))|
    {
      hide Replay, OpenLog, NextSeq, Tail, Reflects, Sentinel, Increasing, Room, Reconciled, B.BTree.Valid,
        B.BTree.Contents;
      ghost var rs, m := Replay(crc, segs), index.Contents();
      var log, records, torn := Log.Open(crc, DEFAULT_SEGMENT_MAX_BYTES, segs);
      if log.None? {
        return None;
      }
      OpenedLog(crc, segs);
      var reconciled := Reconcile(index, records, log.value.nextSeq, p);
      assert rs[..|rs|] == rs;
      TailBounded(rs, Sentinel(m));
      ghost var image, covered := if reconciled > 0 then index.Contents() else m, if reconciled > 0 then |rs| else p;
      var s := new IndexedStore(log.value, index, interval, reconciled, torn, image, covered);
      store := Some(s);
    }

    method Put(key: Bytes, value: Bytes)
      requires Valid() && Fits(PutRecord(log.nextSeq, key, value)) && Small(PutRecord(log.nextSeq, key, value))
      requires log.nextSeq + 1 < 0x1_0000_0000_0000_0000 && Room(index.pool.nextId, index.height, 2)
      modifies this, log, index, index.pool
      ensures Valid() && Plain() == ApplyBatch(old(Plain()), [PutOp(key, value)])
      ensures Model() == R.Write(checkpointInterval, old(Model()), PutOp(key, value))
    {
      AppendAndApply(PutOp(key, value));
    }

    method Delete(key: Bytes)
      requires Valid() && Fits(DeleteRecord(log.nextSeq, key)) && Small(DeleteRecord(log.nextSeq, key))
      requires log.nextSeq + 1 < 0x1_0000_0000_0000_0000 && Room(index.pool.nextId, index.height, 2)
      modifies this, log, index, index.pool
      ensures Valid() && Plain() == ApplyBatch(old(Plain()), [DeleteOp(key)])
      ensures Model() == R.Write(checkpointInterval, old(Model()), DeleteOp(key))
    {
      AppendAndApply(DeleteOp(key));
    }

    method AppendAndApply(op: LogOp)
      requires Valid() && Fits(ToRecord(op, log.nextSeq)) && Small(ToRecord(op, log.nextSeq))
      requires log.nextSeq + 1 < 0x1_0000_0000_0000_0000 && Room(index.pool.nextId, index.height, 2)
      modifies this, log, index, index.pool
      ensures Valid() && Plain() == ApplyBatch(old(Plain()), [op])
      ensures Model() == R.Write(checkpointInterval, old(Model()), op)
    {
      hide Replay, NextSeq, Reflects, Sentinel, LogOk, Increasing, Room, Append, Stamp, B.Image, ToLE, B.BTree.Valid,
        B.BTree.Contents, CaughtUp, ApplyRecord, SetSentinel;
      ghost var rs, m := History(), index.Contents();
      CaughtUpGrows(image, rs, covered, [op]);
      StampOne(op, log.nextSeq);
      AppendOk(log.crc, log.maxBytes, log.State(), [op]);
      LogOkNext(log.crc, log.State());
      StampContinues(rs, [op]);
      AppendNext(log.crc, log.maxBytes, log.State(), [op]);
      var records := log.AppendBatch([op]);
      ApplyReflects(m, rs, records[0]);
      ApplyToIndex(index, records[0], 2);
      pending := pending + 1;
      if pending >= checkpointInterval {
        Checkpoint();
      }
    }

    /** Records that the index has caught up and flushes it: the page store alone then holds an image
        that needs no replay. */
    method Checkpoint()
      requires Current() && checkpointInterval >= 1 && log.nextSeq < 0x1_0000_0000_0000_0000
      requires Room(index.pool.nextId, index.height, 1)
      modifies this`pending, this`image, this`covered, index, index.pool
      ensures Valid() && pending == 0 && Sentinel(index.Contents()) == log.nextSeq
      ensures Model() == R.Do(checkpointInterval, old(Model()), R.Checkpoint) && image == index.Contents()
      ensures B.Image(B.StoreView(index.pool.store), index.tree, index.height, index.chain, index.pool.nextId)
      ensures CaughtUp(index.Contents(), History(), |History()|)
    {
      hide Replay, NextSeq, Reflects, Sentinel, Increasing, Room, B.Image, ToLE, SetSentinel;
      SentinelReflects(index.Contents(), History(), log.nextSeq);
      MoveSentinel(index, log.nextSeq, 1);
      pending := 0;
      image, covered := index.Contents(), |History()|;
      LogOkNext(log.crc, log.State());
      assert History()[..|History()|] == History();
    }

    /** One lookup in the index; the log is not involved. */
    method Get(key: Bytes) returns (value: Option<Bytes>)
      requires Valid()
      modifies index.pool
      ensures Valid() && index.pool.nextId == old(index.pool.nextId) && value == Stores.Get(Plain(), key)
    {
      hide Replay, Sentinel, LogOk, Increasing, Reflects;
      GetAgrees(index.Contents(), Plain(), key);
      var raw := index.Get(UserKey(key));
      value := if raw.Some? then DecodeValue(raw.value) else None;
    }

    /** A full traversal, filtered. It comes out in key order, so ordering it again changes nothing. */
    method Scan(prefix: Bytes) returns (out: seq<(Bytes, Bytes)>)
      requires Valid()
      modifies index.pool
      ensures Valid() && index.pool.nextId == old(index.pool.nextId)
      ensures out == Stores.Scan(Plain(), prefix) && Listed(out)
    {
      hide Replay, Sentinel, LogOk, Increasing, Reflects, PrefixScan, N.SortedEntries, E.ToMap, KeysOf, Less,
        B.BTree.Valid,
        B.BTree.Listing, Listed, Stores.Get;
      ghost var s := Plain();
      index.ListingSorted();
      ScanAgrees(index.Listing(), s, prefix);
      PrefixScanSpec(KeysOf(s.history), prefix, k => Stores.Get(s, k));
      var all := index.ScanAll();
      out := [];
      for i := 0 to |all|
        invariant Valid() && index.pool.nextId == old(index.pool.nextId) && Plain() == s
        invariant out == Filtered(all[..i], prefix)
      {
        assert all[..i + 1][..i] == all[..i] && all[i] in all;
        var e := all[i];
        if e.key == [] || e.key[0] != NS_USER {
          continue;
        }
        var realKey := e.key[1..];
        if !StartsWith(realKey, prefix) {
          continue;
        }
        var value := DecodeValue(e.value);
        if value.Some? {
          out := out + [(realKey, value.value)];
        }
      }
      assert all[..|all|] == all;
    }
  }
}
