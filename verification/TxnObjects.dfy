/** The transactional store and its transactions as objects, each call one step of `Txns`. */
module TxnObjects {
  import opened Bytes
  import opened Segments
  import opened Logs
  import opened Scans
  import opened Stores
  import opened StoreObjects
  import opened Txns

  lemma {:induction false} UnusedId(ids: set<nat>) returns (n: nat)
    ensures n !in ids && forall id :: id in ids ==> id < n
    decreases |ids|
  {
    n := 0;
    if ids != {} {
      var id :| id in ids;
      var m := UnusedId(ids - {id});
      n := if m > id then m else id + 1;
      assert forall x :: x in ids ==> x == id || x in ids - {id};
    }
  }

  lemma RegistryPositive(w: World)
    requires Inv(w)
    ensures forall n :: n in w.store.held ==> w.store.held[n] > 0
  {
  }

  lemma InvCoherent(w: World)
    requires Inv(w)
    ensures Coherent(w.store) && Increasing(w.store.history)
  {
  }

  /** A handle shared by every client. Each call holds the lock, so it is one atomic action. */
  class TransactionalStore {
    const inner: Store

    /** The abstract state reached by the calls so far. */
    ghost var world: World

    ghost predicate Linked()
      reads this, inner, inner.log
    {
      inner.Valid() && world.store == inner.State()
    }

    ghost predicate Valid()
      reads this, inner, inner.log
    {
      Linked() && Inv(world)
    }

    constructor (inner: Store)
      requires inner.Valid()
      ensures Linked() && this.inner == inner && world == Start(inner.State())
    {
      this.inner := inner;
      this.world := Start(inner.State());
    }

    static method Open(crc: Checksum, segs: seq<Bytes>) returns (ts: Option<TransactionalStore>)
      ensures ts.Some? <==> OpenLog(crc, segs).Some?
      ensures ts.Some? ==>
                var rs := Replay(crc, segs);
                && fresh(ts.value) && fresh(ts.value.inner) && fresh(ts.value.inner.log)
                && ts.value.Linked() && ts.value.world == Start(StoreState(rs, rs, NextSeq(rs), map[]))
                && (Increasing(rs) ==> ts.value.Valid())
    {
      hide Replay, NextSeq, Inv, Coherent;
      var store, _ := Store.Open(crc, segs);
      if store.None? {
        return None;
      }
      var t := new TransactionalStore(store.value);
      ghost var rs := Replay(crc, segs);
      if Increasing(rs) {
        ReopenCoherent(StoreState(rs, rs, 0, map[]));
        StartOk(t.world.store);
      }
      ts := Some(t);
    }

    /** Starts a transaction on a snapshot of the present, held until the transaction ends. */
    method Begin() returns (t: Transaction)
      requires Valid()
      modifies this`world, inner`held
      ensures fresh(t) && t.hub == this && t.Valid() && t.writes == map[]
      ensures t.id !in old(world).txns && world == Do(old(world), Action.Begin(t.id))
    {
      hide Inv;
      ghost var id := UnusedId(world.txns.Keys);
      BeginKeeps(world, id);
      var snapshot := inner.HoldSnapshot();
      world := Do(world, Action.Begin(id));
      t := new Transaction(this, snapshot, id);
    }

    /** A read outside any transaction sees what has been committed, and no buffered write. */
    method Get(key: Bytes) returns (value: Option<Bytes>)
      requires Linked()
      ensures value == Stores.Get(world.store, key)
    {
      inner.ReadsHistory(key, 0);
      value := inner.Get(key);
    }

    /** Compacts the store. Unless no transaction is open and the newest record is a tombstone, every
        open transaction goes on as if nothing had happened. */
    method Compact() returns (liveKeys: nat, segmentsBefore: nat, segmentsAfter: nat)
      requires Valid()
      modifies this`world, inner
      ensures Linked() && fresh(inner.log) && world == Do(old(world), CompactStore)
      ensures SafeToCompact(old(world).store) ==> Valid()
      ensures liveKeys == |CurrentKeys(old(world).store)|
      ensures segmentsBefore == |old(inner.log.sealed)| + 1 && segmentsAfter == 1
    {
      hide Inv, Coherent, SafeToCompact, CountLive, CurrentKeys, LogOk, Indexes, Replay, KeysOf, SortedKeys;
      hide Stores.Compact;
      InvCoherent(world);
      ReportsLive(world.store);
      liveKeys, segmentsBefore, segmentsAfter := inner.Compact();
      if SafeToCompact(world.store) {
        CompactKeeps(world);
      }
      world := Do(world, CompactStore);
    }
  }

  /** A buffer of writes over a held snapshot. */
  class Transaction {
    const hub: TransactionalStore
    const snapshot: nat
    var writes: Writes

    /** This transaction's name in the abstract state. */
    ghost const id: nat

    ghost predicate Valid()
      reads this, hub, hub.inner, hub.inner.log
    {
      && hub.Valid() && id in hub.world.txns
      && hub.world.txns[id].snapshot == snapshot && hub.world.txns[id].writes == writes
    }

    constructor (hub: TransactionalStore, snapshot: nat, ghost id: nat)
      ensures this.hub == hub && this.snapshot == snapshot && this.id == id && writes == map[]
    {
      this.hub, this.snapshot, this.id := hub, snapshot, id;
      writes := map[];
    }

    /** Reads the transaction's own write if it has one, else its snapshot. */
    method Get(key: Bytes) returns (value: Option<Bytes>)
      requires Valid()
      modifies hub`world
      ensures Valid() && hub.world == Do(old(hub.world), Read(id, key))
      ensures value == TxnGet(old(hub.world).store, old(hub.world).txns[id], key)
      ensures key !in writes ==> key in hub.world.txns[id].seen && hub.world.txns[id].seen[key] == value
    {
      hide Inv;
      LocalKeeps(hub.world, Read(id, key));
      if key in writes {
        value := writes[key];
      } else {
        hub.inner.ReadsHistory(key, snapshot);
        value := hub.inner.GetAt(key, snapshot);
      }
      hub.world := Do(hub.world, Read(id, key));
    }

    method Put(key: Bytes, value: Bytes)
      requires Valid()
      modifies this`writes, hub`world
      ensures Valid() && hub.world == Do(old(hub.world), Buffer(id, key, Some(value)))
    {
      hide Inv;
      LocalKeeps(hub.world, Buffer(id, key, Some(value)));
      writes := writes[key := Some(value)];
      hub.world := Do(hub.world, Buffer(id, key, Some(value)));
    }

    method Delete(key: Bytes)
      requires Valid()
      modifies this`writes, hub`world
      ensures Valid() && hub.world == Do(old(hub.world), Buffer(id, key, None))
    {
      hide Inv;
      LocalKeeps(hub.world, Buffer(id, key, None));
      writes := writes[key := None];
      hub.world := Do(hub.world, Buffer(id, key, None));
    }

    /** The first of the written keys, in order, that someone else committed since the snapshot. */
    method FindConflict() returns (conflict: Option<Bytes>)
      requires Valid()
      ensures conflict.None? <==> NoConflict(hub.world.store, hub.world.txns[id])
      ensures conflict.Some? ==>
                var w := hub.world;
                && conflict.value in writes && ConflictOn(w.store, w.txns[id], conflict.value)
                && forall k :: k in writes && Less(k, conflict.value) ==> !ConflictOn(w.store, w.txns[id], k)
    {
      hide Inv, Store.LatestSeq, Stores.LatestSeq, Less, SortedKeys, LogOk, Indexes, Replay;
      ghost var w := hub.world;
      var keys := SortedKeys(writes.Keys);
      SortedKeysSorted(writes.Keys);
      OrderLaws();
      for i := 0 to |keys|
        invariant forall j :: 0 <= j < i ==> !ConflictOn(w.store, w.txns[id], keys[j])
      {
        hub.inner.ReadsHistory(keys[i], snapshot);
        var latest := hub.inner.LatestSeq(keys[i]);
        if latest.Some? && latest.value >= snapshot {
          assert keys[i] in keys && forall j :: i < j < |keys| ==> Less(keys[i], keys[j]);
          forall k | k in writes && Less(k, keys[i]) ensures !ConflictOn(w.store, w.txns[id], k) {
            assert k in keys;
            var j :| 0 <= j < |keys| && keys[j] == k;
          }
          return Some(keys[i]);
        }
      }
      conflict := None;
      forall k | k in writes ensures !ConflictOn(w.store, w.txns[id], k) {
        assert k in keys;
      }
    }

    /** Applies every buffered write as one batch, unless some key has a conflict; then applies nothing. */
    method Commit() returns (conflict: Option<Bytes>)
      requires Valid() && AllFit(Stamp(Ops(writes), hub.inner.log.nextSeq))
      modifies hub`world, hub.inner, hub.inner.log
      ensures hub.Valid() && hub.world == Do(Do(old(hub.world), TryCommit(id)), DropGuard(snapshot))
      ensures conflict.None? <==> NoConflict(old(hub.world).store, old(hub.world).txns[id])
      ensures conflict.Some? ==>
                var w := old(hub.world);
                && conflict.value in writes && ConflictOn(w.store, w.txns[id], conflict.value)
                && forall k :: k in writes && Less(k, conflict.value) ==> !ConflictOn(w.store, w.txns[id], k)
    {
      hide Inv, LogOk, Indexes, Replay, Ops, Stamp, Less, ConflictOn;
      CommitKeeps(hub.world, id);
      ghost var w' := Do(hub.world, TryCommit(id));
      RegistryPositive(w');
      DropKeeps(w', snapshot);
      if writes == map[] {
        conflict := None;
      } else {
        conflict := FindConflict();
        if conflict.None? {
          hub.inner.ApplyBatch(Ops(writes));
        }
      }
      hub.inner.DropGuard(snapshot);
      hub.world := Do(w', DropGuard(snapshot));
    }

    /** Ends the transaction and drops its buffered writes. */
    method Abort()
      requires Valid()
      modifies hub`world, hub.inner`held
      ensures hub.Valid() && hub.world == Do(Do(old(hub.world), Action.Abort(id)), DropGuard(snapshot))
    {
      hide Inv;
      AbortKeeps(hub.world, id);
      ghost var w' := Do(hub.world, Action.Abort(id));
      RegistryPositive(w');
      DropKeeps(w', snapshot);
      hub.inner.DropGuard(snapshot);
      hub.world := Do(w', DropGuard(snapshot));
    }
  }
}
