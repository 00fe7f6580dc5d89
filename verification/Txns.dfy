/** Snapshot-isolated transactions: first committer wins, over every interleaving of atomic calls. */
module Txns {
  import opened Bytes
  import opened Records
  import opened Segments
  import opened Logs
  import opened Versions
  import opened Scans
  import opened Stores

  type Writes = map<Bytes, Option<Bytes>>

  /** An open transaction. `begun` is the time of its begin, `seen` what its unbuffered reads returned. */
  datatype Txn = Txn(snapshot: nat, begun: nat, writes: Writes, seen: map<Bytes, Option<Bytes>>)

  /** A committed transaction: its lifetime and write set. */
  datatype Commit = Commit(begun: nat, ended: nat, keys: set<Bytes>)

  /** `ended` holds the snapshots of transactions that are over but have not dropped their guard yet,
      `clock` counts atomic steps, and `commits` lists the transactions that applied writes, in order. */
  datatype World =
    World(store: StoreState, txns: map<nat, Txn>, ended: multiset<nat>, clock: nat, commits: seq<Commit>)

  /** One region under a lock. The store lock is released before a transaction's guard is dropped, under
      the registry's own lock. A restart ends every open transaction, and may follow a compaction. A crash
      inside a commit leaves the first `kept` of its writes in the log. */
  datatype Action =
    | Begin(id: nat)
    | Read(id: nat, key: Bytes)
    | Buffer(id: nat, key: Bytes, value: Option<Bytes>)
    | TryCommit(id: nat)
    | Abort(id: nat)
    | DropGuard(snapshot: nat)
    | CompactStore
    | Restart(compactFirst: bool)
    | CrashInCommit(id: nat, kept: nat)

  // ---------------------------------------------------------------------------
  // Single calls

  function OpOf(key: Bytes, value: Option<Bytes>): LogOp {
    if value.Some? then PutOp(key, value.value) else DeleteOp(key)
  }

  function OpsOf(keys: seq<Bytes>, writes: Writes): seq<LogOp>
    requires forall k :: k in keys ==> k in writes
  {
    if keys == [] then []
    else OpsOf(keys[..|keys| - 1], writes) + [OpOf(keys[|keys| - 1], writes[keys[|keys| - 1]])]
  }

  /** The buffered writes as one batch, in key order. */
  function Ops(writes: Writes): seq<LogOp> {
    OpsOf(SortedKeys(writes.Keys), writes)
  }

  /** A transaction's read: its own buffered write, else its snapshot. */
  function TxnGet(s: StoreState, t: Txn, key: Bytes): Option<Bytes> {
    if key in t.writes then t.writes[key] else GetAt(s, key, t.snapshot)
  }

  /** Someone committed a version of this key since the snapshot was taken. */
  predicate ConflictOn(s: StoreState, t: Txn, key: Bytes) {
    var latest := LatestSeq(s, key);
    latest.Some? && latest.value >= t.snapshot
  }

  predicate NoConflict(s: StoreState, t: Txn) {
    forall k :: k in t.writes ==> !ConflictOn(s, t, k)
  }

  /** Whether committing applies anything. */
  predicate Applies(s: StoreState, t: Txn) {
    t.writes != map[] && NoConflict(s, t)
  }

  // ---------------------------------------------------------------------------
  // The interleaving

  ghost predicate Enabled(w: World, a: Action) {
    match a
    case Begin(id) => id !in w.txns
    case DropGuard(n) => n in w.ended
    case CompactStore => SafeToCompact(w.store)
    case Restart(_) => true
    case CrashInCommit(id, kept) =>
      id in w.txns && Applies(w.store, w.txns[id]) && kept <= |SortedKeys(w.txns[id].writes.Keys)|
    case _ => a.id in w.txns
  }

  function Finish(w: World, id: nat, store: StoreState, commits: seq<Commit>): World
    requires id in w.txns
  {
    World(store, w.txns - {id}, w.ended + multiset{w.txns[id].snapshot}, w.clock + 1, commits)
  }

  /** The writes that reached the log before the crash, in key order. */
  function Landed(writes: Writes, kept: nat): seq<Bytes>
    requires kept <= |SortedKeys(writes.Keys)|
  {
    SortedKeys(writes.Keys)[..kept]
  }

  function Crashed(w: World, t: Txn, kept: nat): World
    requires kept <= |SortedKeys(t.writes.Keys)|
  {
    var keys := Landed(t.writes, kept);
    var rs := w.store.durable + Stamp(OpsOf(keys, t.writes), w.store.nextSeq);
    var commits := if keys == [] then w.commits else w.commits + [Commit(t.begun, w.clock, set k | k in keys)];
    World(Reopen(w.store.(durable := rs)), map[], multiset{}, w.clock + 1, commits)
  }

  function Do(w: World, a: Action): World
    requires a.Read? || a.Buffer? || a.TryCommit? || a.Abort? || a.CrashInCommit? ==> a.id in w.txns
    requires a.CrashInCommit? ==> a.kept <= |SortedKeys(w.txns[a.id].writes.Keys)|
  {
    var tick := w.(clock := w.clock + 1);
    match a
    case Begin(id) =>
      tick.(store := Hold(w.store), txns := w.txns[id := Txn(w.store.nextSeq, w.clock, map[], map[])])
    case Read(id, key) =>
      var t := w.txns[id];
      if key in t.writes then tick
      else tick.(txns := w.txns[id := t.(seen := t.seen[key := GetAt(w.store, key, t.snapshot)])])
    case Buffer(id, key, value) =>
      var t := w.txns[id];
      tick.(txns := w.txns[id := t.(writes := t.writes[key := value])])
    case TryCommit(id) =>
      var t := w.txns[id];
      if Applies(w.store, t)
      then Finish(w, id, ApplyBatch(w.store, Ops(t.writes)), w.commits + [Commit(t.begun, w.clock, t.writes.Keys)])
      else Finish(w, id, w.store, w.commits)
    case Abort(id) => Finish(w, id, w.store, w.commits)
    case DropGuard(n) => tick.(store := Release(w.store, n), ended := w.ended - multiset{n})
    case CompactStore => tick.(store := Compact(w.store))
    case Restart(compactFirst) =>
      World(Reopen(if compactFirst then Compact(w.store) else w.store), map[], multiset{}, w.clock + 1, w.commits)
    case CrashInCommit(id, kept) => Crashed(w, w.txns[id], kept)
  }

  // ---------------------------------------------------------------------------
  // Invariants

  /** Neither transaction ended before the other began. */
  predicate Overlap(c: Commit, d: Commit) {
    c.begun < d.ended && d.begun < c.ended
  }

  ghost predicate FirstCommitterWins(commits: seq<Commit>) {
    forall i, j :: 0 <= i < j < |commits| && Overlap(commits[i], commits[j]) ==> commits[i].keys !! commits[j].keys
  }

  /** A transaction that ended after time `begun` committed a write of `k`. */
  ghost predicate CommittedSince(commits: seq<Commit>, begun: nat, k: Bytes) {
    exists i :: 0 <= i < |commits| && begun < commits[i].ended && k in commits[i].keys
  }

  /** The commits since `t` began are exactly what `t` would conflict with. */
  ghost predicate Tracks(s: StoreState, t: Txn, commits: seq<Commit>) {
    forall k: Bytes :: ConflictOn(s, t, k) <==> CommittedSince(commits, t.begun, k)
  }

  ghost predicate TxnOk(w: World, t: Txn) {
    && t.snapshot <= w.store.nextSeq && t.begun < w.clock
    && Tracks(w.store, t, w.commits)
    && (forall k :: k in t.seen ==> t.seen[k] == GetAt(w.store, k, t.snapshot))
  }

  /** The open transactions that read at snapshot `n`. */
  ghost function Holders(txns: map<nat, Txn>, n: nat): set<nat> {
    set id | id in txns && txns[id].snapshot == n
  }

  /** The registry holds one guard per open transaction and one per guard not dropped yet. */
  ghost predicate Registered(w: World) {
    forall n: nat :: HeldCount(w.store.held, n) == |Holders(w.txns, n)| + w.ended[n]
  }

  ghost predicate Inv(w: World) {
    && Coherent(w.store) && Registered(w) && FirstCommitterWins(w.commits)
    && (forall i :: 0 <= i < |w.commits| ==> w.commits[i].begun < w.commits[i].ended < w.clock)
    && (forall id :: id in w.txns ==> TxnOk(w, w.txns[id]))
  }

  // ---------------------------------------------------------------------------
  // What a commit writes

  lemma {:induction false} OpsOfVersions(keys: seq<Bytes>, writes: Writes, first: nat, k: Bytes)
    requires (forall x :: x in keys ==> x in writes) && forall i, j :: 0 <= i < j < |keys| ==> keys[i] != keys[j]
    ensures |OpsOf(keys, writes)| == |keys|
    ensures var vs := VersionsOf(Stamp(OpsOf(keys, writes), first), k);
            if k in keys then |vs| == 1 && vs[0].seqNo >= first && vs[0].value == writes[k] else vs == []
  {
    hide VersionsOf, Stamp;
    if keys == [] {
      NothingStamped(first, k);
    } else {
      var front, key := keys[..|keys| - 1], keys[|keys| - 1];
      OpsOfVersions(front, writes, first, k);
      var ops, op := OpsOf(front, writes), OpOf(key, writes[key]);
      assert OpsOf(keys, writes) == ops + [op];
      StampAppend(ops, [op], first);
      StampedVersions(op, first + |ops|, k);
      VersionsAppend(Stamp(ops, first), Stamp([op], first + |ops|), k);
      assert keys == front + [key] && key !in front;
    }
  }

  lemma NothingStamped(first: nat, k: Bytes)
    ensures VersionsOf(Stamp([], first), k) == []
  {
  }

  lemma StampedVersions(op: LogOp, n: nat, k: Bytes)
    ensures var r := ToRecord(op, n); VersionsOf(Stamp([op], n), k) == if r.key == k then [VersionOf(r)] else []
  {
    hide VersionsOf;
    StampAt([op], n, 0);
    assert Stamp([op], n) == [ToRecord(op, n)];
    OneRecord(ToRecord(op, n), k);
  }

  /** A committed batch gives each written key exactly one new version. */
  lemma OpsVersions(writes: Writes, first: nat, k: Bytes)
    ensures var vs := VersionsOf(Stamp(Ops(writes), first), k);
            if k in writes then |vs| == 1 && vs[0].seqNo >= first && vs[0].value == writes[k] else vs == []
  {
    hide VersionsOf, Stamp, OpsOf;
    SortedKeysSorted(writes.Keys);
    SortedDistinct(SortedKeys(writes.Keys));
    OpsOfVersions(SortedKeys(writes.Keys), writes, first, k);
  }

  lemma CommitReads(s: StoreState, writes: Writes, k: Bytes)
    ensures var s' := ApplyBatch(s, Ops(writes));
            && Get(s', k) == (if k in writes then writes[k] else Get(s, k))
            && (if k in writes then LatestSeq(s', k).Some? && LatestSeq(s', k).value >= s.nextSeq
                else LatestSeq(s', k) == LatestSeq(s, k))
  {
    hide VersionsOf, Stamp, Ops;
    var rs := Stamp(Ops(writes), s.nextSeq);
    OpsVersions(writes, s.nextSeq, k);
    VersionsAppend(s.history, rs, k);
  }

  // ---------------------------------------------------------------------------
  // Every action keeps the invariant

  /** An open transaction's guard is in the registry. */
  lemma GuardHeld(w: World, id: nat)
    requires Registered(w) && id in w.txns
    ensures HeldCount(w.store.held, w.txns[id].snapshot) > 0
  {
    var n := w.txns[id].snapshot;
    assert id in Holders(w.txns, n);
    assert HeldCount(w.store.held, n) == |Holders(w.txns, n)| + w.ended[n];
  }

  lemma RegisterBegin(w: World, id: nat, t: Txn)
    requires Registered(w) && id !in w.txns && t.snapshot == w.store.nextSeq
    ensures Registered(w.(store := Hold(w.store), txns := w.txns[id := t]))
  {
    hide Holders;
    forall n: nat ensures HeldCount(Hold(w.store).held, n) == |Holders(w.txns[id := t], n)| + w.ended[n] {
      assert HeldCount(w.store.held, n) == |Holders(w.txns, n)| + w.ended[n];
      HoldersMore(w.txns, id, t, n);
    }
  }

  lemma HoldersMore(txns: map<nat, Txn>, id: nat, t: Txn, n: nat)
    requires id !in txns
    ensures |Holders(txns[id := t], n)| == |Holders(txns, n)| + if t.snapshot == n then 1 else 0
  {
    if n == t.snapshot {
      assert Holders(txns[id := t], n) == Holders(txns, n) + {id};
    } else {
      assert Holders(txns[id := t], n) == Holders(txns, n);
    }
  }

  lemma HoldersFewer(txns: map<nat, Txn>, id: nat, n: nat)
    requires id in txns
    ensures |Holders(txns - {id}, n)| == |Holders(txns, n)| - if txns[id].snapshot == n then 1 else 0
  {
    if n == txns[id].snapshot {
      assert Holders(txns - {id}, n) == Holders(txns, n) - {id};
    } else {
      assert Holders(txns - {id}, n) == Holders(txns, n);
    }
  }

  /** Ending a transaction leaves its guard behind. */
  lemma RegisterFinish(w: World, id: nat)
    requires Registered(w) && id in w.txns
    ensures Registered(w.(txns := w.txns - {id}, ended := w.ended + multiset{w.txns[id].snapshot}))
  {
    var t := w.txns[id];
    var ended := w.ended + multiset{t.snapshot};
    forall n: nat ensures HeldCount(w.store.held, n) == |Holders(w.txns - {id}, n)| + ended[n] {
      assert HeldCount(w.store.held, n) == |Holders(w.txns, n)| + w.ended[n];
      HoldersFewer(w.txns, id, n);
    }
  }

  lemma RegisterDrop(w: World, m: nat)
    requires Registered(w) && m in w.ended
    ensures Registered(w.(store := Release(w.store, m), ended := w.ended - multiset{m}))
  {
    forall n: nat ensures HeldCount(Release(w.store, m).held, n) == |Holders(w.txns, n)| + (w.ended - multiset{m})[n] {
      assert HeldCount(w.store.held, n) == |Holders(w.txns, n)| + w.ended[n];
      assert HeldCount(w.store.held, m) == |Holders(w.txns, m)| + w.ended[m];
    }
  }

  lemma RegisterUpdate(w: World, id: nat, t: Txn)
    requires Registered(w) && id in w.txns && t.snapshot == w.txns[id].snapshot
    ensures Registered(w.(txns := w.txns[id := t]))
  {
    forall n: nat ensures Holders(w.txns[id := t], n) == Holders(w.txns, n) {
    }
    forall n: nat ensures HeldCount(w.store.held, n) == |Holders(w.txns[id := t], n)| + w.ended[n] {
      assert HeldCount(w.store.held, n) == |Holders(w.txns, n)| + w.ended[n];
    }
  }

  /** A fresh snapshot conflicts with nothing. */
  lemma FreshTracks(w: World, t: Txn)
    requires Inv(w) && t.snapshot == w.store.nextSeq && t.begun == w.clock
    ensures Tracks(w.store, t, w.commits)
  {
    hide VersionsOf;
    forall k: Bytes ensures !ConflictOn(w.store, t, k) {
      VersionsAscend(w.store.history, k);
    }
  }

  lemma BeginKeeps(w: World, id: nat)
    requires Inv(w) && id !in w.txns
    ensures Inv(Do(w, Begin(id)))
  {
    hide VersionsOf, ReadAt, Coherent, Registered, Tracks, FirstCommitterWins;
    var t, w' := Txn(w.store.nextSeq, w.clock, map[], map[]), Do(w, Begin(id));
    HoldKeeps(w.store);
    RegisterBegin(w, id, t);
    RegisteredSame(w.(store := Hold(w.store), txns := w.txns[id := t]), w');
    FreshTracks(w, t);
    forall x | x in w'.txns ensures TxnOk(w', w'.txns[x]) {
      SameHistory(w.store, w'.store, w'.txns[x], w.commits);
    }
  }

  lemma RegisteredSame(w: World, w': World)
    requires Registered(w) && w'.store.held == w.store.held && w'.txns == w.txns && w'.ended == w.ended
    ensures Registered(w')
  {
  }

  /** Reads and conflicts depend on the history alone. */
  lemma SameHistory(s: StoreState, s': StoreState, t: Txn, commits: seq<Commit>)
    requires s'.history == s.history
    ensures Tracks(s, t, commits) ==> Tracks(s', t, commits)
    ensures forall k: Bytes :: GetAt(s', k, t.snapshot) == GetAt(s, k, t.snapshot)
  {
    hide VersionsOf, ReadAt;
    if Tracks(s, t, commits) {
      forall k: Bytes ensures ConflictOn(s', t, k) <==> CommittedSince(commits, t.begun, k) {
        assert ConflictOn(s', t, k) == ConflictOn(s, t, k);
      }
    }
  }

  lemma LocalKeeps(w: World, a: Action)
    requires Inv(w) && (a.Read? || a.Buffer?) && a.id in w.txns
    ensures Inv(Do(w, a))
  {
    hide VersionsOf, ReadAt, Coherent, Registered, Tracks, FirstCommitterWins;
    var w' := Do(w, a);
    RegisterUpdate(w, a.id, w'.txns[a.id]);
    RegisteredSame(w.(txns := w.txns[a.id := w'.txns[a.id]]), w');
    SameBegin(w.store, w.txns[a.id], w'.txns[a.id], w.commits);
  }

  lemma SameBegin(s: StoreState, t: Txn, t': Txn, commits: seq<Commit>)
    requires Tracks(s, t, commits) && t'.snapshot == t.snapshot && t'.begun == t.begun
    ensures Tracks(s, t', commits)
  {
    hide LatestSeq;
    forall k: Bytes ensures ConflictOn(s, t', k) == ConflictOn(s, t, k) {}
  }

  lemma FinishKeeps(w: World, id: nat)
    requires Inv(w) && id in w.txns
    ensures Inv(Finish(w, id, w.store, w.commits))
  {
    hide VersionsOf, ReadAt, Coherent, Registered, Tracks, FirstCommitterWins;
    var w' := Finish(w, id, w.store, w.commits);
    RegisterFinish(w, id);
    RegisteredSame(w.(txns := w'.txns, ended := w'.ended), w');
  }

  lemma DropKeeps(w: World, n: nat)
    requires Inv(w) && n in w.ended
    ensures Inv(Do(w, DropGuard(n)))
  {
    hide VersionsOf, ReadAt, Coherent, Registered, Tracks, FirstCommitterWins;
    var w' := Do(w, DropGuard(n));
    ReleaseKeeps(w.store, n);
    RegisterDrop(w, n);
    RegisteredSame(w.(store := w'.store, ended := w'.ended), w');
    forall x | x in w'.txns ensures TxnOk(w', w'.txns[x]) {
      SameHistory(w.store, w'.store, w.txns[x], w.commits);
    }
  }

  lemma CompactKeeps(w: World)
    requires Inv(w) && SafeToCompact(w.store)
    ensures Inv(Do(w, CompactStore))
  {
    hide VersionsOf, ReadAt, Coherent, Registered, Tracks, FirstCommitterWins, Compacted;
    var w' := Do(w, CompactStore);
    CompactCoherentIff(w.store);
    RegisteredSame(w, w');
    forall x | x in w'.txns ensures TxnOk(w', w'.txns[x]) {
      SameHistory(w.store, w'.store, w.txns[x], w.commits);
    }
  }

  /** No overlapping transaction that committed earlier wrote any of these keys. */
  lemma WinnerIsDisjoint(w: World, t: Txn, i: nat)
    requires Tracks(w.store, t, w.commits) && NoConflict(w.store, t) && i < |w.commits| && t.begun < w.commits[i].ended
    ensures w.commits[i].keys !! t.writes.Keys
  {
    hide ConflictOn;
    forall k | k in t.writes ensures k !in w.commits[i].keys {
      assert !ConflictOn(w.store, t, k);
    }
  }

  /** A commit by one transaction is what every other open one will conflict with. */
  lemma CommitTracks(w: World, t: Txn, x: Txn)
    requires Coherent(w.store) && Tracks(w.store, x, w.commits) && x.snapshot <= w.store.nextSeq && x.begun < w.clock
    ensures Tracks(ApplyBatch(w.store, Ops(t.writes)), x, w.commits + [Commit(t.begun, w.clock, t.writes.Keys)])
    ensures forall k: Bytes :: GetAt(ApplyBatch(w.store, Ops(t.writes)), k, x.snapshot) == GetAt(w.store, k, x.snapshot)
  {
    hide VersionsOf, ReadAt, Coherent, Ops, Stamp, LatestSeq, ApplyBatch;
    var s', c := ApplyBatch(w.store, Ops(t.writes)), Commit(t.begun, w.clock, t.writes.Keys);
    var commits' := w.commits + [c];
    ApplyKeeps(w.store, Ops(t.writes));
    forall k: Bytes
      ensures ConflictOn(s', x, k) <==> CommittedSince(commits', x.begun, k)
    {
      CommitReads(w.store, t.writes, k);
      if k in t.writes {
        assert commits'[|w.commits|] == c;
      } else {
        assert ConflictOn(s', x, k) == ConflictOn(w.store, x, k);
        if ConflictOn(w.store, x, k) {
          var i :| 0 <= i < |w.commits| && x.begun < w.commits[i].ended && k in w.commits[i].keys;
          assert commits'[i] == w.commits[i];
        } else {
          assert forall i :: 0 <= i < |w.commits| ==> commits'[i] == w.commits[i];
        }
      }
    }
  }

  lemma CommitKeeps(w: World, id: nat)
    requires Inv(w) && id in w.txns
    ensures Inv(Do(w, TryCommit(id)))
  {
    hide VersionsOf, ReadAt, Coherent, Registered, Tracks, NoConflict, Ops, FirstCommitterWins;
    var t, w' := w.txns[id], Do(w, TryCommit(id));
    if !Applies(w.store, t) {
      FinishKeeps(w, id);
      return;
    }
    var s', c := ApplyBatch(w.store, Ops(t.writes)), Commit(t.begun, w.clock, t.writes.Keys);
    ApplyKeeps(w.store, Ops(t.writes));
    RegisterFinish(w, id);
    RegisteredSame(w.(txns := w'.txns, ended := w'.ended), w');
    forall x | x in w'.txns ensures TxnOk(w', w'.txns[x]) {
      CommitTracks(w, t, w.txns[x]);
    }
    WinnersApart(w, t, c);
  }

  /** A commit of some of the keys of a transaction without conflicts joins the others. */
  lemma WinnersApart(w: World, t: Txn, c: Commit)
    requires FirstCommitterWins(w.commits) && Tracks(w.store, t, w.commits) && NoConflict(w.store, t)
    requires c.begun == t.begun && c.keys <= t.writes.Keys
    ensures FirstCommitterWins(w.commits + [c])
  {
    hide Tracks, NoConflict;
    var commits := w.commits + [c];
    forall i, j | 0 <= i < j < |commits| && Overlap(commits[i], commits[j]) ensures commits[i].keys !! commits[j].keys {
      if j == |w.commits| {
        WinnerIsDisjoint(w, t, i);
      }
    }
  }

  /** Every enabled action keeps the invariant. */
  lemma ActionKeeps(w: World, a: Action)
    requires Inv(w) && Enabled(w, a)
    ensures Inv(Do(w, a))
  {
    hide Inv, Do;
    match a {
      case Begin(id) => BeginKeeps(w, id);
      case Read(_, _) => LocalKeeps(w, a);
      case Buffer(_, _, _) => LocalKeeps(w, a);
      case TryCommit(id) => CommitKeeps(w, id);
      case Abort(id) => AbortKeeps(w, id);
      case DropGuard(n) => DropKeeps(w, n);
      case CompactStore => CompactKeeps(w);
      case Restart(compactFirst) => RestartKeeps(w, compactFirst);
      case CrashInCommit(id, kept) => CrashKeeps(w, id, kept);
    }
  }

  lemma AbortKeeps(w: World, id: nat)
    requires Inv(w) && id in w.txns
    ensures Inv(Do(w, Abort(id)))
  {
    hide Inv;
    FinishKeeps(w, id);
  }

  lemma RestartKeeps(w: World, compactFirst: bool)
    requires Inv(w)
    ensures Inv(Do(w, Restart(compactFirst)))
  {
    hide VersionsOf, Compacted, Compact, FirstCommitterWins, NextSeq;
    CompactedIncreasing(w.store.history, Oldest(w.store.held));
    var s := if compactFirst then Compact(w.store) else w.store;
    assert Increasing(s.durable) by { CompactDurable(w.store); }
    ReopenCoherent(s);
    assert forall n: nat :: Holders(map[], n) == {};
  }

  lemma CrashKeeps(w: World, id: nat, kept: nat)
    requires Inv(w) && Enabled(w, CrashInCommit(id, kept))
    ensures Inv(Do(w, CrashInCommit(id, kept)))
  {
    hide VersionsOf, FirstCommitterWins, NextSeq, Stamp, OpsOf, NoConflict, Tracks, Serves;
    var t, keys := w.txns[id], Landed(w.txns[id].writes, kept);
    var ops := OpsOf(keys, t.writes);
    StampContinues(w.store.durable, ops);
    ReopenCoherent(w.store.(durable := w.store.durable + Stamp(ops, w.store.nextSeq)));
    assert TxnOk(w, t);
    if keys != [] {
      WinnersApart(w, t, Commit(t.begun, w.clock, set k | k in keys));
    }
    assert forall n: nat :: Holders(map[], n) == {};
  }

  lemma CompactDurable(s: StoreState)
    ensures Compact(s).durable == Compacted(s.history, Oldest(s.held))
  {
  }

  /** While any transaction is open, compaction is safe: its guard is held. */
  lemma OpenTxnAllowsCompaction(w: World, id: nat)
    requires Inv(w) && id in w.txns
    ensures Enabled(w, CompactStore)
  {
    GuardHeld(w, id);
  }

  /** In every other state a transaction begun right after the compaction can be refused although
      nobody committed anything: it is safe exactly if no such transaction conflicts on any key. */
  lemma FreshTxnConflictsIff(s: StoreState, t: Txn)
    requires Coherent(s) && t.snapshot == Compact(s).nextSeq
    ensures SafeToCompact(s) <==> forall k: Bytes :: !ConflictOn(Compact(s), t, k)
    ensures !SafeToCompact(s) ==> s.history != [] && ConflictOn(Compact(s), t, s.history[|s.history| - 1].key)
  {
    hide LatestSeq, Compact, Coherent;
    CompactKeepsVersionsPast(s);
    if !SafeToCompact(s) {
      assert ConflictOn(Compact(s), t, s.history[|s.history| - 1].key);
    }
  }

  // ---------------------------------------------------------------------------
  // What an action does to the committed state

  /** The action makes a write of `k` durable: a commit that applies, or a crash inside it after that write. */
  ghost predicate CommitsTo(w: World, a: Action, k: Bytes) {
    match a
    case TryCommit(id) => id in w.txns && k in w.txns[id].writes && Applies(w.store, w.txns[id])
    case CrashInCommit(id, kept) => Enabled(w, a) && k in Landed(w.txns[id].writes, kept)
    case _ => false
  }

  lemma RestartReads(w: World, compactFirst: bool, k: Bytes)
    requires Inv(w)
    ensures Get(Do(w, Restart(compactFirst)).store, k) == Get(w.store, k)
  {
    hide VersionsOf, Compacted, NextSeq, Scan, Serves;
    if compactFirst {
      CompactionKeepsPresent(w.store, []);
    } else {
      CoherentRecoverable(w.store);
    }
  }

  /** A store reopened after a crash inside a commit shows the writes that landed, in key order. */
  lemma CrashReads(w: World, id: nat, kept: nat, k: Bytes)
    requires Inv(w) && Enabled(w, CrashInCommit(id, kept))
    ensures var t := w.txns[id];
            Get(Do(w, CrashInCommit(id, kept)).store, k) ==
            if k in Landed(t.writes, kept) then t.writes[k] else Get(w.store, k)
  {
    hide VersionsOf, NextSeq, Stamp, OpsOf, Applies, Coherent, Registered, TxnOk;
    var t, keys := w.txns[id], Landed(w.txns[id].writes, kept);
    SortedKeysSorted(t.writes.Keys);
    SortedDistinct(SortedKeys(t.writes.Keys));
    OpsOfVersions(keys, t.writes, w.store.nextSeq, k);
    VersionsAppend(w.store.durable, Stamp(OpsOf(keys, t.writes), w.store.nextSeq), k);
    CoherentRecoverable(w.store);
  }

  /** Only a successful commit changes what the store answers, and then all its writes show at once.
      A failed commit, an abort, a read, a buffered write, a compaction and a restart change nothing. A
      crash inside a commit shows a prefix of its writes in key order. */
  lemma ActionReads(w: World, a: Action, k: Bytes)
    requires Inv(w) && Enabled(w, a)
    ensures Get(Do(w, a).store, k) == if CommitsTo(w, a, k) then w.txns[a.id].writes[k] else Get(w.store, k)
  {
    hide VersionsOf, Inv, Ops, Compacted, Applies, Latest;
    match a {
      case TryCommit(id) => CommitReads(w.store, w.txns[id].writes, k);
      case Restart(compactFirst) => RestartReads(w, compactFirst, k);
      case CrashInCommit(id, kept) => CrashReads(w, id, kept, k);
      case _ =>
    }
  }

  /** What the run records, so that the laws below speak of what happened: every step takes one tick, a
      transaction is born at the tick of its begin, an unbuffered read is remembered with its value, and a
      commit that applies is listed with its lifetime and every key it wrote. */
  lemma Bookkeeping(w: World, a: Action)
    requires Enabled(w, a)
    ensures Do(w, a).clock == w.clock + 1
    ensures a.Begin? ==> a.id in Do(w, a).txns && Do(w, a).txns[a.id].begun == w.clock
    ensures a.Read? && a.key !in w.txns[a.id].writes ==>
              var t := Do(w, a).txns[a.id];
              a.key in t.seen && t.seen[a.key] == GetAt(w.store, a.key, w.txns[a.id].snapshot)
    ensures a.TryCommit? && Applies(w.store, w.txns[a.id]) ==>
              var t := w.txns[a.id];
              Do(w, a).commits == w.commits + [Commit(t.begun, w.clock, t.writes.Keys)]
    ensures a.CrashInCommit? && a.kept > 0 ==>
              var t := w.txns[a.id];
              Do(w, a).commits == w.commits + [Commit(t.begun, w.clock, set k | k in Landed(t.writes, a.kept))]
  {
    hide ApplyBatch, Compact, Reopen, Ops, GetAt, Applies, SortedKeys;
  }

  /** A commit that shares a key with a transaction ending now, and overlaps it. */
  ghost predicate Clashes(c: Commit, t: Txn, now: nat) {
    Overlap(c, Commit(t.begun, now, t.writes.Keys)) && !(c.keys !! t.writes.Keys)
  }

  /** A commit is refused exactly if a transaction that overlapped this one has committed one of its keys. */
  lemma CommitRefusedIff(w: World, id: nat)
    requires Inv(w) && id in w.txns
    ensures var t := w.txns[id];
            !NoConflict(w.store, t) <==> exists i :: 0 <= i < |w.commits| && Clashes(w.commits[i], t, w.clock)
  {
    hide ConflictOn, Coherent, Registered, FirstCommitterWins;
    var t := w.txns[id];
    if k :| k in t.writes && ConflictOn(w.store, t, k) {
      var i :| 0 <= i < |w.commits| && t.begun < w.commits[i].ended && k in w.commits[i].keys;
      assert k in w.commits[i].keys && k in t.writes.Keys;
      assert Clashes(w.commits[i], t, w.clock);
    }
    forall i | 0 <= i < |w.commits| && Clashes(w.commits[i], t, w.clock) ensures !NoConflict(w.store, t) {
      var k :| k in w.commits[i].keys && k in t.writes.Keys;
      assert CommittedSince(w.commits, t.begun, k);
      assert ConflictOn(w.store, t, k);
    }
  }

  /** No lost update: a key read from the snapshot and then overwritten by a transaction that commits
      still had the value that was read, just before the commit. */
  lemma NoLostUpdate(w: World, a: Action, k: Bytes)
    requires Inv(w) && CommitsTo(w, a, k) && k in w.txns[a.id].seen
    ensures w.txns[a.id].seen[k] == Get(w.store, k)
  {
    hide VersionsOf;
    var t, vs := w.txns[a.id], VersionsOf(w.store.history, k);
    assert TxnOk(w, t) && !ConflictOn(w.store, t, k);
    VersionsAscend(w.store.history, k);
    ReadAtTop(vs, t.snapshot);
  }

  // ---------------------------------------------------------------------------
  // What a crash inside a commit leaves in the files

  lemma {:induction false} OpsPrefix(keys: seq<Bytes>, writes: Writes, n: nat)
    requires (forall k :: k in keys ==> k in writes) && n <= |keys|
    ensures |OpsOf(keys, writes)| == |keys| && OpsOf(keys, writes)[..n] == OpsOf(keys[..n], writes)
  {
    if n < |keys| {
      OpsPrefix(keys[..|keys| - 1], writes, n);
      assert keys[..|keys| - 1][..n] == keys[..n];
      assert OpsOf(keys, writes)[..n] == OpsOf(keys[..|keys| - 1], writes)[..n];
    } else {
      assert keys[..n] == keys;
      OpsLength(keys, writes);
    }
  }

  lemma {:induction false} OpsLength(keys: seq<Bytes>, writes: Writes)
    requires forall k :: k in keys ==> k in writes
    ensures |OpsOf(keys, writes)| == |keys|
  {
    if keys != [] {
      OpsLength(keys[..|keys| - 1], writes);
    }
  }

  /** Opening these segments gives this store. */
  ghost predicate ReopensAs(crc: Checksum, segs: seq<Bytes>, s: StoreState) {
    && OpenLog(crc, segs).Some? && LogOk(crc, OpenLog(crc, segs).value)
    && var found := Replay(crc, SegmentsOf(OpenLog(crc, segs).value));
       s == StoreState(found, found, NextSeq(found), map[])
  }

  /** If only `cut` bytes of the batch reached the file, opening the log is a crash that kept some prefix
      of the writes, all of them exactly if every byte arrived. */
  lemma CrashLeavesPrefix(crc: Checksum, max: nat, log: LogState, w: World, t: Txn, rs: seq<Record>, cut: nat)
    returns (kept: nat)
    requires LogOk(crc, log) && w.store.durable == Replay(crc, SegmentsOf(log)) && w.store.nextSeq == log.nextSeq
    requires rs == Stamp(Ops(t.writes), log.nextSeq) && AllFit(rs) && cut <= |EncodeAll(crc, rs)|
    ensures kept <= |SortedKeys(t.writes.Keys)|
    ensures cut == |EncodeAll(crc, rs)| <==> kept == |SortedKeys(t.writes.Keys)|
    ensures ReopensAs(crc, TornSegments(crc, max, log, rs, cut), Crashed(w, t, kept).store)
  {
    hide EncodeAll, Replay, LogOk, OpenLog, TornSegments, NextSeq, Stamp, OpsOf;
    kept := OpenAfterCut(crc, max, log, Ops(t.writes), cut);
    OpsLength(SortedKeys(t.writes.Keys), t.writes);
    OpsPrefix(SortedKeys(t.writes.Keys), t.writes, kept);
  }

  // ---------------------------------------------------------------------------
  // Whole runs

  ghost predicate Legal(w: World, actions: seq<Action>)
    decreases |actions|
  {
    actions != [] ==> Enabled(w, actions[0]) && Legal(Do(w, actions[0]), actions[1..])
  }

  function RunAll(w: World, actions: seq<Action>): World
    requires Legal(w, actions)
    decreases |actions|
  {
    if actions == [] then w else RunAll(Do(w, actions[0]), actions[1..])
  }

  function Start(store: StoreState): World {
    World(store, map[], multiset{}, 0, [])
  }

  lemma StartOk(store: StoreState)
    requires Coherent(store) && store.held == map[]
    ensures Inv(Start(store))
  {
    assert forall n: nat :: Holders(map[], n) == {};
  }

  lemma {:induction false} RunKeeps(w: World, actions: seq<Action>)
    requires Inv(w) && Legal(w, actions)
    ensures Inv(RunAll(w, actions))
    decreases |actions|
  {
    hide Inv, Do;
    if actions != [] {
      ActionKeeps(w, actions[0]);
      RunKeeps(Do(w, actions[0]), actions[1..]);
    }
  }

  /** Over every interleaving, committed transactions whose lifetimes overlap wrote disjoint keys. */
  lemma SnapshotIsolation(store: StoreState, actions: seq<Action>, i: nat, j: nat)
    requires Coherent(store) && store.held == map[] && Legal(Start(store), actions)
    requires var cs := RunAll(Start(store), actions).commits; i < j < |cs| && Overlap(cs[i], cs[j])
    ensures var cs := RunAll(Start(store), actions).commits; cs[i].keys !! cs[j].keys
  {
    hide Coherent, Legal, RunAll, Registered, TxnOk;
    StartOk(store);
    RunKeeps(Start(store), actions);
  }

  /** The transaction stays open over the whole run. */
  ghost predicate OpenThroughout(w: World, actions: seq<Action>, id: nat)
    decreases |actions|
  {
    id in w.txns &&
    (actions != [] ==> Enabled(w, actions[0]) && OpenThroughout(Do(w, actions[0]), actions[1..], id))
  }

  lemma {:induction false} OpenIsLegal(w: World, actions: seq<Action>, id: nat)
    requires OpenThroughout(w, actions, id)
    ensures Legal(w, actions)
    decreases |actions|
  {
    hide Do;
    if actions != [] {
      OpenIsLegal(Do(w, actions[0]), actions[1..], id);
    }
  }

  lemma ActionKeepsSnapshot(w: World, a: Action, id: nat, k: Bytes)
    requires Inv(w) && Enabled(w, a) && id in w.txns && id in Do(w, a).txns
    ensures Do(w, a).txns[id].snapshot == w.txns[id].snapshot
    ensures GetAt(Do(w, a).store, k, w.txns[id].snapshot) == GetAt(w.store, k, w.txns[id].snapshot)
  {
    hide VersionsOf, ReadAt, Ops, Compacted, Registered, Coherent, FirstCommitterWins, Tracks, NextSeq, NoConflict,
      Stamp;
    if a.TryCommit? {
      ApplyKeeps(w.store, Ops(w.txns[a.id].writes));
    }
  }

  lemma {:induction false} SnapshotStable(w: World, actions: seq<Action>, id: nat, k: Bytes)
    requires Inv(w) && OpenThroughout(w, actions, id)
    ensures Legal(w, actions) && id in RunAll(w, actions).txns
    ensures var w' := RunAll(w, actions);
            w'.txns[id].snapshot == w.txns[id].snapshot &&
            GetAt(w'.store, k, w.txns[id].snapshot) == GetAt(w.store, k, w.txns[id].snapshot)
    decreases |actions|
  {
    hide Inv, Do, GetAt;
    OpenIsLegal(w, actions, id);
    if actions != [] {
      ActionKeeps(w, actions[0]);
      ActionKeepsSnapshot(w, actions[0], id, k);
      SnapshotStable(Do(w, actions[0]), actions[1..], id, k);
    }
  }

  /** However others commit, compact or abort meanwhile, a transaction reads its own buffered write or
      else exactly what the store answered when it began. */
  lemma ReadsFromBegin(w: World, id: nat, actions: seq<Action>, k: Bytes)
    requires Inv(w) && Enabled(w, Begin(id)) && OpenThroughout(Do(w, Begin(id)), actions, id)
    ensures Legal(Do(w, Begin(id)), actions) && id in RunAll(Do(w, Begin(id)), actions).txns
    ensures var w' := RunAll(Do(w, Begin(id)), actions);
            TxnGet(w'.store, w'.txns[id], k) ==
              if k in w'.txns[id].writes then w'.txns[id].writes[k] else Get(w.store, k)
  {
    hide VersionsOf, ReadAt, Coherent, Registered, FirstCommitterWins, TxnOk, Legal, OpenThroughout, RunAll;
    BeginKeeps(w, id);
    SnapshotStable(Do(w, Begin(id)), actions, id, k);
    FreshSnapshotIsPresent(w.store, k);
  }

  // ---------------------------------------------------------------------------
  // A shared counter

  /** Every transaction that commits a write to `c` read it first and wrote one more than it read. */
  ghost predicate OnlyIncrements(w: World, actions: seq<Action>, c: Bytes, value: Option<Bytes> -> int)
    requires Legal(w, actions)
    decreases |actions|
  {
    actions == [] ||
    var a := actions[0];
    && (CommitsTo(w, a, c) ==>
          c in w.txns[a.id].seen && value(w.txns[a.id].writes[c]) == value(w.txns[a.id].seen[c]) + 1)
    && OnlyIncrements(Do(w, a), actions[1..], c, value)
  }

  /** How many commits of the run wrote `c`. */
  ghost function Increments(w: World, actions: seq<Action>, c: Bytes): nat
    requires Legal(w, actions)
    decreases |actions|
  {
    if actions == [] then 0
    else (if CommitsTo(w, actions[0], c) then 1 else 0) + Increments(Do(w, actions[0]), actions[1..], c)
  }

  /** A counter ends at its initial value plus the number of successful increments, over every
      interleaving with conflicts, aborts, compactions and restarts. */
  lemma {:induction false} CounterCountsCommits(w: World, actions: seq<Action>, c: Bytes, value: Option<Bytes> -> int)
    requires Inv(w) && Legal(w, actions) && OnlyIncrements(w, actions, c, value)
    ensures value(Get(RunAll(w, actions).store, c)) == value(Get(w.store, c)) + Increments(w, actions, c)
    decreases |actions|
  {
    hide Inv, Do, Get;
    if actions != [] {
      var a := actions[0];
      ActionKeeps(w, a);
      ActionReads(w, a, c);
      if CommitsTo(w, a, c) {
        NoLostUpdate(w, a, c);
      }
      CounterCountsCommits(Do(w, a), actions[1..], c, value);
    }
  }
}
