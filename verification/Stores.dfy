/** The multi-version store: writes, snapshots, held guards and compaction, as a state machine. */
module Stores {
  import opened Bytes
  import opened Records
  import opened Logs
  import opened Versions
  import opened Scans

  /** `history` is what the in-memory index was built from, `durable` what the log holds. Compaction
      replaces the log but never prunes the index. `held` counts the live guards per snapshot. */
  datatype StoreState = StoreState(history: seq<Record>, durable: seq<Record>, nextSeq: nat, held: map<nat, nat>)

  function KeysOf(rs: seq<Record>): set<Bytes> {
    set r | r in rs :: r.key
  }

  function Get(s: StoreState, key: Bytes): Option<Bytes> {
    Latest(VersionsOf(s.history, key))
  }

  function GetAt(s: StoreState, key: Bytes, snapshot: nat): Option<Bytes> {
    ReadAt(VersionsOf(s.history, key), snapshot)
  }

  function Scan(s: StoreState, prefix: Bytes): seq<(Bytes, Bytes)> {
    PrefixScan(KeysOf(s.history), prefix, k => Get(s, k))
  }

  function ScanAt(s: StoreState, prefix: Bytes, snapshot: nat): seq<(Bytes, Bytes)> {
    PrefixScan(KeysOf(s.history), prefix, k => GetAt(s, k, snapshot))
  }

  function LatestSeq(s: StoreState, key: Bytes): Option<nat> {
    var vs := VersionsOf(s.history, key);
    if vs == [] then None else Some(vs[|vs| - 1].seqNo)
  }

  // ---------------------------------------------------------------------------
  // Operations

  function ApplyBatch(s: StoreState, ops: seq<LogOp>): StoreState {
    var rs := Stamp(ops, s.nextSeq);
    s.(history := s.history + rs, durable := s.durable + rs, nextSeq := s.nextSeq + |ops|)
  }

  function HeldCount(held: map<nat, nat>, n: nat): nat {
    if n in held then held[n] else 0
  }

  /** Takes a snapshot of the present and registers it. */
  function Hold(s: StoreState): StoreState {
    s.(held := s.held[s.nextSeq := HeldCount(s.held, s.nextSeq) + 1])
  }

  /** Drops one guard. */
  function Release(s: StoreState, n: nat): StoreState {
    if n !in s.held then s
    else if s.held[n] <= 1 then s.(held := s.held - {n})
    else s.(held := s.held[n := s.held[n] - 1])
  }

  lemma {:induction false} LeastExists(ns: set<nat>)
    requires ns != {}
    ensures exists m :: IsLeast(m, ns)
    decreases |ns|
  {
    var x :| x in ns;
    if ns == {x} {
      assert IsLeast(x, ns);
    } else {
      LeastExists(ns - {x});
      var m :| IsLeast(m, ns - {x});
      assert forall n :: n in ns ==> n == x || n in ns - {x};
      assert IsLeast(if x < m then x else m, ns);
    }
  }

  predicate IsLeast(m: nat, ns: set<nat>) {
    m in ns && forall n :: n in ns ==> m <= n
  }

  function Oldest(held: map<nat, nat>): (m: Option<nat>)
    ensures m.None? <==> held == map[]
    ensures m.Some? ==> IsLeast(m.value, held.Keys)
  {
    if held == map[] then None
    else
      assert exists n :: n in held;
      LeastExists(held.Keys);
      var m :| IsLeast(m, held.Keys);
      Some(m)
  }

  /** The records a compaction writes: retained versions of every key, sorted by sequence number. */
  function Compacted(history: seq<Record>, threshold: Option<nat>): seq<Record> {
    SortBySeq(Gather(SortedKeys(KeysOf(history)), history, threshold))
  }

  /** Replaces the log and recomputes the next sequence number from it; the index stays. */
  function Compact(s: StoreState): StoreState {
    var rs := Compacted(s.history, Oldest(s.held));
    s.(durable := rs, nextSeq := NextSeq(rs))
  }

  /** Rebuilds the index from the log. */
  function Reopen(s: StoreState): StoreState {
    StoreState(s.durable, s.durable, NextSeq(s.durable), map[])
  }

  // ---------------------------------------------------------------------------
  // What compaction writes

  lemma {:induction false} RetainedSubset(vs: seq<Version>, threshold: Option<nat>)
    ensures forall v :: v in Retained(vs, threshold) ==> v in vs
  {
    if threshold.Some? {
      BoundarySubset(vs, threshold.value);
    }
  }

  lemma {:induction false} BoundarySubset(vs: seq<Version>, t: nat)
    ensures forall v :: v in Boundary(vs, t) || v in AtOrAfter(vs, t) ==> v in vs
  {
    if vs != [] {
      BoundarySubset(vs[..|vs| - 1], t);
      assert vs[|vs| - 1] in vs && forall v :: v in vs[..|vs| - 1] ==> v in vs;
    }
  }

  lemma RetainedAscends(vs: seq<Version>, threshold: Option<nat>)
    requires Ascending(vs)
    ensures Ascending(Retained(vs, threshold))
  {
    if threshold.Some? {
      RetainedReads(vs, threshold.value, threshold.value);
    }
  }

  lemma {:induction false} NoVersions(rs: seq<Record>, key: Bytes)
    ensures VersionsOf(rs, key) == [] <==> key !in KeysOf(rs)
  {
    if rs != [] {
      var front, r := rs[..|rs| - 1], rs[|rs| - 1];
      NoVersions(front, key);
      assert rs == front + [r];
      assert r in rs;
      assert KeysOf(rs) == KeysOf(front) + {r.key};
    }
  }

  /** The compacted log holds, per key, exactly the retained versions. */
  lemma CompactedVersions(history: seq<Record>, threshold: Option<nat>, key: Bytes)
    requires Increasing(history)
    ensures VersionsOf(Compacted(history, threshold), key) == Retained(VersionsOf(history, key), threshold)
  {
    hide VersionsOf, SortBySeq, Gather, Retained, KeysOf, SortedKeys, Less;
    var keys := SortedKeys(KeysOf(history));
    var rs := Gather(keys, history, threshold);
    SortedKeysSorted(KeysOf(history));
    SortedDistinct(keys);
    forall k: Bytes
      ensures VersionsOf(rs, k) == Retained(VersionsOf(history, k), threshold) && Ascending(VersionsOf(rs, k))
    {
      GatherVersions(keys, history, threshold, k);
      VersionsAscend(history, k);
      RetainedAscends(VersionsOf(history, k), threshold);
      NoVersions(history, k);
      RetainedNothing(threshold);
    }
    SortVersions(rs, key);
  }

  /** What compaction writes and what it drops, for each key: with a guard held, the versions from the
      oldest held snapshot on and the newest one before it; without, the newest one if it is a value. */
  lemma CompactedKeepsIff(history: seq<Record>, t: nat, key: Bytes, v: Version)
    requires Increasing(history)
    ensures var vs := VersionsOf(history, key);
            && (v in VersionsOf(Compacted(history, Some(t)), key) <==>
                v in vs && (v.seqNo >= t || IsBoundary(vs, t, v)))
            && (v in VersionsOf(Compacted(history, None), key) <==>
                v in vs && v.value.Some? && forall w :: w in vs ==> w.seqNo <= v.seqNo)
  {
    hide VersionsOf, Compacted, Retained, IsBoundary;
    CompactedVersions(history, Some(t), key);
    CompactedVersions(history, None, key);
    VersionsAscend(history, key);
    RetainedIff(VersionsOf(history, key), t, v);
  }

  /** So of each key at most one version before the threshold is left. */
  lemma OneVersionBefore(history: seq<Record>, t: nat, key: Bytes, i: nat, j: nat)
    requires Increasing(history)
    requires var vs := VersionsOf(Compacted(history, Some(t)), key); i < j < |vs|
    ensures VersionsOf(Compacted(history, Some(t)), key)[j].seqNo >= t
  {
    hide VersionsOf, Compacted, Retained, IsBoundary;
    var vs, cs := VersionsOf(history, key), VersionsOf(Compacted(history, Some(t)), key);
    CompactedKeepsIff(history, t, key, cs[i]);
    CompactedKeepsIff(history, t, key, cs[j]);
    CompactedVersions(history, Some(t), key);
    VersionsAscend(history, key);
    RetainedAscends(vs, Some(t));
    BoundaryOnce(vs, t, cs[i], cs[j]);
  }

  lemma BoundaryOnce(vs: seq<Version>, t: nat, v: Version, w: Version)
    requires v in vs && w in vs && v.seqNo < w.seqNo && (v.seqNo >= t || IsBoundary(vs, t, v))
    ensures w.seqNo >= t
  {
  }

  lemma SortedDistinct(ks: seq<Bytes>)
    requires StrictlySorted(ks)
    ensures forall i, j :: 0 <= i < j < |ks| ==> ks[i] != ks[j]
  {
    OrderLaws();
  }

  lemma RetainedNothing(threshold: Option<nat>)
    ensures Retained([], threshold) == []
  {
  }

  /** Two records of one key are two of its versions, in the same order. */
  lemma TwoVersions(rs: seq<Record>, i: nat, j: nat) returns (a: nat, b: nat)
    requires i < j < |rs| && rs[i].key == rs[j].key
    ensures var vs := VersionsOf(rs, rs[i].key);
            a < b < |vs| && vs[a] == VersionOf(rs[i]) && vs[b] == VersionOf(rs[j])
  {
    var k, front, rest := rs[i].key, rs[..j], rs[j + 1..];
    a := VersionIndex(front, rs[i]) by { assert front[i] == rs[i]; }
    b := |VersionsOf(front, k)|;
    assert rs == front + [rs[j]] + rest;
    VersionsAppend(front, [rs[j]], k);
    VersionsAppend(front + [rs[j]], rest, k);
    OneRecord(rs[j], k);
  }

  /** Each compacted record is a version some record of the history wrote. */
  lemma CompactedFrom(history: seq<Record>, threshold: Option<nat>, i: nat) returns (j: nat)
    requires Increasing(history) && i < |Compacted(history, threshold)|
    ensures j < |history| && history[j].key == Compacted(history, threshold)[i].key
    ensures VersionOf(history[j]) == VersionOf(Compacted(history, threshold)[i])
  {
    hide VersionsOf, Compacted, Retained, Increasing;
    var r := Compacted(history, threshold)[i];
    var a := VersionIndex(Compacted(history, threshold), r);
    CompactedVersions(history, threshold, r.key);
    RetainedSubset(VersionsOf(history, r.key), threshold);
    VersionsFrom(history, r.key);
    assert VersionOf(r) in Retained(VersionsOf(history, r.key), threshold);
    assert VersionOf(r) in VersionsOf(history, r.key);
    j :| 0 <= j < |history| && history[j].key == r.key && VersionOf(history[j]) == VersionOf(r);
  }

  /** Sequence numbers survive unchanged and stay strictly increasing. */
  lemma CompactedIncreasing(history: seq<Record>, threshold: Option<nat>)
    requires Increasing(history)
    ensures Increasing(Compacted(history, threshold))
  {
    hide VersionsOf, Retained, Gather, SortBySeq;
    var c := Compacted(history, threshold);
    SortSorts(Gather(SortedKeys(KeysOf(history)), history, threshold));
    forall i, j | 0 <= i < j < |c| ensures c[i].seqNo < c[j].seqNo {
      if c[i].seqNo == c[j].seqNo {
        var x := CompactedFrom(history, threshold, i);
        var y := CompactedFrom(history, threshold, j);
        assert x == y;
        var a, b := TwoVersions(c, i, j);
        CompactedVersions(history, threshold, c[i].key);
        VersionsAscend(history, c[i].key);
        RetainedAscends(VersionsOf(history, c[i].key), threshold);
        assert false;
      }
    }
  }

  /** The newest record of an increasing history, seen from its key. */
  lemma NewestVersion(history: seq<Record>)
    requires history != []
    ensures var r := history[|history| - 1];
            var vs := VersionsOf(history, r.key);
            vs != [] && vs[|vs| - 1] == VersionOf(r)
  {
  }

  lemma NextSeqAtLeast(rs: seq<Record>, i: nat)
    requires i < |rs|
    ensures rs[i].seqNo < NextSeq(rs)
  {
    NextSeqAppend(rs[..i + 1], rs[i + 1..]);
    assert rs == rs[..i + 1] + rs[i + 1..];
    assert rs[..i + 1][i] == rs[i];
  }

  lemma CompactedNextSeqAtMost(history: seq<Record>, threshold: Option<nat>)
    requires Increasing(history)
    ensures NextSeq(Compacted(history, threshold)) <= NextSeq(history)
  {
    hide VersionsOf, Compacted, NextSeq;
    var c := Compacted(history, threshold);
    CompactedIncreasing(history, threshold);
    NextSeqOf(c);
    if c != [] {
      var j := CompactedFrom(history, threshold, |c| - 1);
      NextSeqAtLeast(history, j);
    } else {
      NextSeqOf(history);
    }
  }

  /** The next sequence number survives exactly if the newest record's version is retained. */
  lemma CompactedNextSeq(history: seq<Record>, threshold: Option<nat>)
    requires Increasing(history) && history != []
    ensures var r := history[|history| - 1];
            (NextSeq(Compacted(history, threshold)) == NextSeq(history)) ==
            (VersionOf(r) in Retained(VersionsOf(history, r.key), threshold))
  {
    hide VersionsOf, Compacted, NextSeq, Retained;
    var r, c := history[|history| - 1], Compacted(history, threshold);
    NextSeqOf(history);
    CompactedNextSeqAtMost(history, threshold);
    CompactedVersions(history, threshold, r.key);
    if VersionOf(r) in Retained(VersionsOf(history, r.key), threshold) {
      VersionsFrom(c, r.key);
      var i :| 0 <= i < |c| && c[i].key == r.key && VersionOf(c[i]) == VersionOf(r);
      NextSeqAtLeast(c, i);
    } else if NextSeq(c) == NextSeq(history) {
      CompactedIncreasing(history, threshold);
      NextSeqOf(c);
      var i := |c| - 1;
      var j := CompactedFrom(history, threshold, i);
      assert j == |history| - 1;
      var a := VersionIndex(c, c[i]);
      assert false;
    }
  }

  // ---------------------------------------------------------------------------
  // Coherent states

  /** The log serves a snapshot as the index does. */
  ghost predicate Serves(s: StoreState, snapshot: nat) {
    forall key: Bytes :: ReadAt(VersionsOf(s.durable, key), snapshot) == ReadAt(VersionsOf(s.history, key), snapshot)
  }

  /** Index and log tell the same story: sequence numbers increase, the next one is past them all,
      and the log serves the present and every held snapshot. */
  ghost predicate Coherent(s: StoreState) {
    && Increasing(s.history) && s.nextSeq == NextSeq(s.history)
    && Increasing(s.durable) && s.nextSeq == NextSeq(s.durable)
    && (forall n :: n in s.held ==> n <= s.nextSeq && s.held[n] > 0 && Serves(s, n))
    && (forall n :: n >= s.nextSeq ==> Serves(s, n))
  }

  /** What a caller can check before compacting: a guard is held, or the newest record is a Put. */
  predicate SafeToCompact(s: StoreState) {
    s.held != map[] || s.history == [] || s.history[|s.history| - 1].kind == Put
  }

  lemma NewestRetained(s: StoreState)
    requires Increasing(s.history) && s.history != [] && forall n :: n in s.held ==> n <= NextSeq(s.history)
    ensures var r := s.history[|s.history| - 1];
            VersionOf(r) in Retained(VersionsOf(s.history, r.key), Oldest(s.held)) <==> SafeToCompact(s)
  {
    hide VersionsOf;
    var r := s.history[|s.history| - 1];
    var vs := VersionsOf(s.history, r.key);
    NewestVersion(s.history);
  }

  /** Reads of the present and of any snapshot from the threshold on are kept by compaction. */
  lemma CompactedServes(history: seq<Record>, threshold: Option<nat>, key: Bytes, snapshot: nat)
    requires Increasing(history)
    requires threshold.Some? ==> threshold.value <= snapshot
    requires threshold.None? ==> NextSeq(history) <= snapshot
    ensures var c := Compacted(history, threshold);
            && ReadAt(VersionsOf(c, key), snapshot) == ReadAt(VersionsOf(history, key), snapshot)
            && Latest(VersionsOf(c, key)) == Latest(VersionsOf(history, key))
  {
    hide VersionsOf, Compacted, NextSeq;
    CompactedVersions(history, threshold, key);
    VersionsAscend(history, key);
    var vs := VersionsOf(history, key);
    if threshold.Some? {
      RetainedReads(vs, threshold.value, snapshot);
    } else {
      ReadAtTop(vs, snapshot);
      ReadAtTop(Retained(vs, threshold), snapshot);
    }
  }

  /** A compaction leaves index and log coherent exactly when it was safe. */
  lemma CompactCoherentIff(s: StoreState)
    requires Coherent(s)
    ensures Coherent(Compact(s)) <==> SafeToCompact(s)
    ensures SafeToCompact(s) ==> Compact(s).nextSeq == s.nextSeq
  {
    hide VersionsOf, Compacted, NextSeq, Retained, ReadAt, Increasing;
    var t, s' := Oldest(s.held), Compact(s);
    CompactedIncreasing(s.history, t);
    if s.history == [] {
      CompactedNextSeqAtMost(s.history, t);
      EmptyNextSeq();
    } else {
      NewestRetained(s);
      CompactedNextSeq(s.history, t);
    }
    if SafeToCompact(s) {
      forall n: nat | n in s.held || n >= s.nextSeq ensures Serves(s', n) {
        forall key: Bytes ensures ReadAt(VersionsOf(s'.durable, key), n) == ReadAt(VersionsOf(s'.history, key), n) {
          CompactedServes(s.history, t, key, n);
        }
      }
    }
  }

  /** What that means to a client: every version in the index lies before a snapshot taken after the
      compaction, exactly when it was safe. */
  lemma CompactKeepsVersionsPast(s: StoreState)
    requires Coherent(s)
    ensures SafeToCompact(s) <==>
            forall key: Bytes :: LatestSeq(Compact(s), key).Some? ==>
              LatestSeq(Compact(s), key).value < Compact(s).nextSeq
    ensures !SafeToCompact(s) ==>
              var newest := LatestSeq(Compact(s), s.history[|s.history| - 1].key);
              newest.Some? && newest.value >= Compact(s).nextSeq
  {
    hide VersionsOf, Compacted, NextSeq, Retained;
    if SafeToCompact(s) {
      CompactCoherentIff(s);
      forall key: Bytes
        ensures LatestSeq(Compact(s), key).Some? ==> LatestSeq(Compact(s), key).value < Compact(s).nextSeq
      {
        VersionsAscend(s.history, key);
      }
    } else {
      var t, r := Oldest(s.held), s.history[|s.history| - 1];
      NewestRetained(s);
      CompactedNextSeq(s.history, t);
      CompactedNextSeqAtMost(s.history, t);
      NextSeqOf(s.history);
      NewestVersion(s.history);
      assert LatestSeq(Compact(s), r.key) == Some(r.seqNo);
    }
  }

  /** Reopening is coherent whenever the log's numbers increase, so also after an unsafe compaction. */
  lemma ReopenCoherent(s: StoreState)
    requires Increasing(s.durable)
    ensures Coherent(Reopen(s))
  {
  }

  /** A batch continues both the index and the log, out of sight of every earlier snapshot. */
  lemma ApplyKeeps(s: StoreState, ops: seq<LogOp>)
    requires Coherent(s)
    ensures Coherent(ApplyBatch(s, ops))
    ensures forall n: nat, key: Bytes :: n <= s.nextSeq ==> GetAt(ApplyBatch(s, ops), key, n) == GetAt(s, key, n)
  {
    hide VersionsOf, NextSeq, ReadAt, Stamp, Increasing;
    var rs, s' := Stamp(ops, s.nextSeq), ApplyBatch(s, ops);
    StampContinues(s.history, ops);
    StampContinues(s.durable, ops);
    StampSeqs(ops, s.nextSeq);
    forall key: Bytes, n: nat
      ensures n <= s.nextSeq ==> ReadAt(VersionsOf(s'.history, key), n) == ReadAt(VersionsOf(s.history, key), n)
      ensures n <= s.nextSeq ==> ReadAt(VersionsOf(s'.durable, key), n) == ReadAt(VersionsOf(s.durable, key), n)
      ensures n >= s.nextSeq ==> ReadAt(VersionsOf(s'.durable, key), n) == ReadAt(VersionsOf(s'.history, key), n)
    {
      VersionsAppend(s.history, rs, key);
      VersionsAppend(s.durable, rs, key);
      if n <= s.nextSeq {
        VersionsFromBound(rs, key, n);
        ReadAtIgnoresLater(VersionsOf(s.history, key), VersionsOf(rs, key), n);
        ReadAtIgnoresLater(VersionsOf(s.durable, key), VersionsOf(rs, key), n);
      }
      if n >= s.nextSeq {
        assert Serves(s, n);
        ReadTail(VersionsOf(s.durable, key), VersionsOf(s.history, key), VersionsOf(rs, key), n);
      }
    }
    forall n: nat | n in s.held || n >= s'.nextSeq ensures Serves(s', n) {
      assert n <= s.nextSeq ==> Serves(s, n);
    }
  }

  /** What the last op on `key` writes, if the batch has one; a delete writes `None`. */
  function LastWrite(ops: seq<LogOp>, key: Bytes): Option<Option<Bytes>> {
    if ops == [] then None
    else
      var op := ops[|ops| - 1];
      if op.key != key then LastWrite(ops[..|ops| - 1], key)
      else Some(if op.PutOp? then Some(op.value) else None)
  }

  lemma {:induction false} StampLast(ops: seq<LogOp>, first: nat, key: Bytes)
    ensures var vs := VersionsOf(Stamp(ops, first), key);
            (vs == [] <==> LastWrite(ops, key).None?) && (vs != [] ==> Some(Latest(vs)) == LastWrite(ops, key))
  {
    if ops != [] {
      StampLast(ops[..|ops| - 1], first, key);
      var rs := Stamp(ops, first);
      assert rs[..|rs| - 1] == Stamp(ops[..|ops| - 1], first);
    }
  }

  /** After a batch each key reads what its last op wrote, and every other key what it read before. */
  lemma ApplyReads(s: StoreState, ops: seq<LogOp>, key: Bytes)
    ensures var w := LastWrite(ops, key); Get(ApplyBatch(s, ops), key) == if w.Some? then w.value else Get(s, key)
  {
    hide VersionsOf, Stamp, LastWrite;
    StampLast(ops, s.nextSeq, key);
    VersionsAppend(s.history, Stamp(ops, s.nextSeq), key);
  }

  lemma HoldKeeps(s: StoreState)
    requires Coherent(s)
    ensures Coherent(Hold(s))
  {
    assert Serves(s, s.nextSeq);
    assert forall n :: Serves(s, n) ==> Serves(Hold(s), n);
  }

  lemma ReleaseKeeps(s: StoreState, n: nat)
    requires Coherent(s)
    ensures Coherent(Release(s, n))
  {
    assert forall m :: Serves(s, m) ==> Serves(Release(s, n), m);
  }

  lemma StampSeqs(ops: seq<LogOp>, first: nat)
    ensures forall i :: 0 <= i < |ops| ==> Stamp(ops, first)[i].seqNo == first + i
  {
    forall i | 0 <= i < |ops| ensures Stamp(ops, first)[i].seqNo == first + i {
      StampAt(ops, first, i);
    }
  }

  /** A snapshot taken now reads the present. */
  lemma FreshSnapshotIsPresent(s: StoreState, key: Bytes)
    requires Coherent(s)
    ensures GetAt(s, key, s.nextSeq) == Get(s, key)
  {
    VersionsAscend(s.history, key);
    ReadAtTop(VersionsOf(s.history, key), s.nextSeq);
  }

  // ---------------------------------------------------------------------------
  // Compaction preserves meaning

  /** Two key sets scan alike if they read alike and both hold every live key. */
  lemma SameScan(a: set<Bytes>, b: set<Bytes>, prefix: Bytes, f: Bytes -> Option<Bytes>, g: Bytes -> Option<Bytes>)
    requires forall k: Bytes :: f(k) == g(k) && (f(k).Some? ==> k in a && k in b)
    ensures PrefixScan(a, prefix, f) == PrefixScan(b, prefix, g)
  {
    hide PrefixScan, Less;
    PrefixScanSpec(a, prefix, f);
    PrefixScanSpec(b, prefix, g);
    var x, y := PrefixScan(a, prefix, f), PrefixScan(b, prefix, g);
    forall p ensures p in x <==> p in y {
      assert f(p.0) == g(p.0);
    }
    ListingUnique(x, y);
  }

  /** A scan lists exactly the live pairs whose key starts with the prefix, in key order; so does a scan
      at any snapshot. */
  lemma ScanSpec(s: StoreState, prefix: Bytes, snapshot: nat)
    ensures Listed(Scan(s, prefix)) && Listed(ScanAt(s, prefix, snapshot))
    ensures forall p :: p in Scan(s, prefix) <==>
                          |prefix| <= |p.0| && p.0[..|prefix|] == prefix && Get(s, p.0) == Some(p.1)
    ensures forall p :: p in ScanAt(s, prefix, snapshot) <==>
                          |prefix| <= |p.0| && p.0[..|prefix|] == prefix && GetAt(s, p.0, snapshot) == Some(p.1)
  {
    hide PrefixScan, VersionsOf, KeysOf, Less;
    PrefixScanSpec(KeysOf(s.history), prefix, k => Get(s, k));
    PrefixScanSpec(KeysOf(s.history), prefix, k => GetAt(s, k, snapshot));
    forall k: Bytes ensures Get(s, k).Some? || GetAt(s, k, snapshot).Some? ==> k in KeysOf(s.history) {
      NoVersions(s.history, k);
    }
  }

  /** Reopening the compacted log answers every current read and scan as before. */
  lemma CompactionKeepsPresent(s: StoreState, prefix: Bytes)
    requires Increasing(s.history)
    ensures var s' := Reopen(Compact(s));
            (forall k: Bytes :: Get(s', k) == Get(s, k)) && Scan(s', prefix) == Scan(s, prefix)
  {
    hide VersionsOf, Compacted, NextSeq, KeysOf, PrefixScan, Increasing;
    var s' := Reopen(Compact(s));
    var n := NextSeq(s.history) + if Oldest(s.held).Some? then Oldest(s.held).value else 0;
    forall k: Bytes
      ensures Get(s', k) == Get(s, k) && (Get(s, k).Some? ==> k in KeysOf(s.history) && k in KeysOf(s'.history))
    {
      CompactedServes(s.history, Oldest(s.held), k, n);
      NoVersions(s.history, k);
      NoVersions(s'.history, k);
    }
    SameScan(KeysOf(s'.history), KeysOf(s.history), prefix, k => Get(s', k), k => Get(s, k));
  }

  /** With guards held, so does every snapshot from the oldest held one on, and the next sequence
      number is the same. */
  lemma CompactionKeepsSnapshots(s: StoreState, prefix: Bytes, snapshot: nat)
    requires Increasing(s.history) && Oldest(s.held).Some? && Oldest(s.held).value <= snapshot
    requires forall n :: n in s.held ==> n <= NextSeq(s.history)
    ensures var s' := Reopen(Compact(s));
            && (forall k: Bytes :: GetAt(s', k, snapshot) == GetAt(s, k, snapshot))
            && ScanAt(s', prefix, snapshot) == ScanAt(s, prefix, snapshot)
            && s'.nextSeq == NextSeq(s.history)
  {
    hide VersionsOf, Compacted, NextSeq, KeysOf, PrefixScan, Increasing, Retained;
    var t, s' := Oldest(s.held), Reopen(Compact(s));
    forall k: Bytes
      ensures GetAt(s', k, snapshot) == GetAt(s, k, snapshot)
      ensures GetAt(s, k, snapshot).Some? ==> k in KeysOf(s.history) && k in KeysOf(s'.history)
    {
      CompactedServes(s.history, t, k, snapshot);
      NoVersions(s.history, k);
      NoVersions(s'.history, k);
    }
    SameScan(KeysOf(s'.history), KeysOf(s.history), prefix, k => GetAt(s', k, snapshot), k => GetAt(s, k, snapshot));
    if s.history == [] {
      CompactedNextSeqAtMost(s.history, t);
      EmptyNextSeq();
    } else {
      NewestRetained(s);
      CompactedNextSeq(s.history, t);
    }
  }

  /** In any history, increasing or not, the compacted log ends a key's list with its top retained version. */
  lemma CompactedEnd(history: seq<Record>, threshold: Option<nat>, key: Bytes)
    ensures var before := Retained(VersionsOf(history, key), threshold);
            var after := VersionsOf(Compacted(history, threshold), key);
            (before == [] <==> after == []) && (before != [] ==> after[|after| - 1] == Top(before))
  {
    hide VersionsOf, SortBySeq, Gather, Retained, KeysOf, SortedKeys, Less, Top;
    var keys := SortedKeys(KeysOf(history));
    SortedKeysSorted(KeysOf(history));
    SortedDistinct(keys);
    GatherVersions(keys, history, threshold, key);
    NoVersions(history, key);
    RetainedNothing(threshold);
    SortEnd(Gather(keys, history, threshold), key);
  }

  /** The newest version of a key, in the order of writing, is also the one compaction will leave last:
      no version it retains has a larger number. */
  predicate NewestOnTop(vs: seq<Version>, threshold: Option<nat>) {
    vs == [] || forall v :: v in Retained(vs, threshold) ==> v.seqNo <= vs[|vs| - 1].seqNo
  }

  lemma RetainsNewest(vs: seq<Version>, threshold: Option<nat>)
    requires vs != [] && (threshold.None? ==> vs[|vs| - 1].value.Some?)
    ensures vs[|vs| - 1] in Retained(vs, threshold)
    ensures NewestOnTop(vs, threshold) ==> Top(Retained(vs, threshold)) == vs[|vs| - 1]
  {
    hide Top;
    if NewestOnTop(vs, threshold) {
      RetainedEnd(vs, threshold);
      TopAtEnd(Retained(vs, threshold));
    }
  }

  lemma TopAtEnd(vs: seq<Version>)
    requires vs != [] && forall v :: v in vs ==> v.seqNo <= vs[|vs| - 1].seqNo
    ensures Top(vs) == vs[|vs| - 1]
  {
    var front := vs[..|vs| - 1];
    assert front != [] ==> Top(front) in vs;
  }

  /** A newest version that no retained one outnumbers is retained last. */
  lemma RetainedEnd(vs: seq<Version>, threshold: Option<nat>)
    requires vs != [] && (threshold.None? ==> vs[|vs| - 1].value.Some?) && NewestOnTop(vs, threshold)
    ensures var r := Retained(vs, threshold); r != [] && r[|r| - 1] == vs[|vs| - 1]
  {
    if threshold.Some? && vs[|vs| - 1].seqNo < threshold.value {
      var tail := AtOrAfter(vs, threshold.value);
      TailNumbers(vs, threshold.value);
      assert forall v :: v in tail ==> v in Retained(vs, threshold);
    }
  }

  lemma {:induction false} TailNumbers(vs: seq<Version>, t: nat)
    ensures forall v :: v in AtOrAfter(vs, t) ==> v.seqNo >= t
  {
    if vs != [] {
      TailNumbers(vs[..|vs| - 1], t);
    }
  }

  /** Without a guard, reopening the compacted log keeps every current value, whatever the history. With
      one, it keeps a key's newest version exactly if no retained version of the key has a larger number. */
  lemma CompactionKeepsNewestIff(s: StoreState, key: Bytes)
    ensures Oldest(s.held).None? ==> Get(Reopen(Compact(s)), key) == Get(s, key)
    ensures var before, after := VersionsOf(s.history, key), VersionsOf(Reopen(Compact(s)).history, key);
            Oldest(s.held).Some? && before != [] ==>
              (after != [] && after[|after| - 1] == before[|before| - 1] <==> NewestOnTop(before, Oldest(s.held)))
    ensures Oldest(s.held).Some? && NewestOnTop(VersionsOf(s.history, key), Oldest(s.held)) ==>
              Get(Reopen(Compact(s)), key) == Get(s, key)
  {
    hide VersionsOf, Compacted, NextSeq, Top, Retained;
    var t, vs := Oldest(s.held), VersionsOf(s.history, key);
    CompactedEnd(s.history, t, key);
    if vs == [] {
      RetainedNothing(t);
    } else if t.None? {
      RetainedWithoutGuard(vs);
    } else {
      RetainsNewest(vs, t);
    }
  }

  lemma RetainedWithoutGuard(vs: seq<Version>)
    requires vs != []
    ensures var r := Retained(vs, None); if vs[|vs| - 1].value.None? then r == [] else r == [vs[|vs| - 1]]
  {
  }

  lemma PutThenDelete(key: Bytes)
    ensures var h := [PutRecord(0, key, []), DeleteRecord(1, key)];
            && VersionsOf(h, key) == [Version(0, Some([])), Version(1, None)]
            && Increasing(h) && NextSeq(h) == 2 && Compacted(h, None) == []
  {
    hide SortBySeq, Gather, SortedKeys;
    var a, b := PutRecord(0, key, []), DeleteRecord(1, key);
    var h := [a, b];
    assert h[..1] == [a] && h == [a] + [b];
    VersionsAppend([a], [b], key);
    OneRecord(a, key);
    OneRecord(b, key);
    NextSeqOf(h);
    var c := Compacted(h, None);
    CompactedVersions(h, None, key);
    if c != [] {
      var j := CompactedFrom(h, None, 0);
      var i := VersionIndex(c, c[0]);
      assert false;
    }
  }

  /** An unsafe compaction, by contrast, forgets a tombstone's number: after one more write to any
      other key, a fresh snapshot sees the deleted value come back. */
  lemma UnsafeCompactionRevivesDeletedKey(key: Bytes, other: Bytes) returns (s: StoreState, s': StoreState)
    requires other != key
    ensures Coherent(s) && !SafeToCompact(s) && s' == ApplyBatch(Compact(s), [PutOp(other, [])])
    ensures Get(s', key) == None && GetAt(s', key, s'.nextSeq) == Some([])
  {
    hide Compacted, NextSeq, Increasing;
    PutThenDelete(key);
    var h := [PutRecord(0, key, []), DeleteRecord(1, key)];
    s := StoreState(h, h, 2, map[]);
    s' := ApplyBatch(Compact(s), [PutOp(other, [])]);
    EmptyNextSeq();
    var d := PutRecord(0, other, []);
    StampAt([PutOp(other, [])], 0, 0);
    assert s'.history == h + [d];
    VersionsAppend(h, [d], key);
    OneRecord(d, key);
    var vs := VersionsOf(h, key);
    assert VersionsOf(s'.history, key) == vs && s'.nextSeq == 1;
    assert vs[..1] == [Version(0, Some([]))];
    assert ReadAt(vs, 1) == ReadAt(vs[..1], 1);
  }

  /** And the damage outlasts it: a value written after an unsafe compaction reuses a forgotten number, so
      a later compaction with a guard held, followed by a reopening, loses that acknowledged write. */
  lemma UnsafeCompactionLosesLaterWrite(key: Bytes) returns (s: StoreState, t: StoreState)
    ensures Coherent(s) && !SafeToCompact(s) && t == ApplyBatch(Compact(s), [PutOp(key, [7])])
    ensures Get(t, key) == Some([7]) && SafeToCompact(Hold(t)) && !Coherent(t)
    ensures Get(Reopen(Compact(Hold(t))), key) == None
  {
    hide Compacted, NextSeq, Increasing;
    PutThenDelete(key);
    var h := [PutRecord(0, key, []), DeleteRecord(1, key)];
    s := StoreState(h, h, 2, map[]);
    EmptyNextSeq();
    t := ApplyBatch(Compact(s), [PutOp(key, [7])]);
    var d := PutRecord(0, key, [7]);
    StampAt([PutOp(key, [7])], 0, 0);
    assert t.history == h + [d];
    VersionsAppend(h, [d], key);
    OneRecord(d, key);
    LostWriteVersions(key, t);
  }

  lemma LostWriteVersions(key: Bytes, t: StoreState)
    requires t.nextSeq == 1 && t.held == map[] && t.history != []
    requires VersionsOf(t.history, key) == [Version(0, Some([])), Version(1, None), Version(0, Some([7]))]
    ensures Get(Reopen(Compact(Hold(t))), key) == None && !Coherent(t)
  {
    hide VersionsOf, Compacted, NextSeq, Top;
    var vs, held := VersionsOf(t.history, key), Hold(t).held;
    assert 1 in held && IsLeast(Oldest(held).value, held.Keys);
    assert Oldest(held) == Some(1);
    assert vs[..2] == [Version(0, Some([])), Version(1, None)] && vs[..2][..1] == [Version(0, Some([]))];
    assert AtOrAfter(vs[..2][..1], 1) == [];
    assert AtOrAfter(vs[..2], 1) == [Version(1, None)];
    assert Retained(vs, Some(1)) == [Version(0, Some([7])), Version(1, None)];
    CompactedEnd(t.history, Some(1), key);
    if Coherent(t) {
      VersionsAscend(t.history, key);
    }
  }

  /** Whatever the index holds, the log alone is in order and answers for the present as the index does. */
  ghost predicate Recoverable(s: StoreState) {
    && Increasing(s.durable) && s.nextSeq == NextSeq(s.durable)
    && forall key: Bytes :: Latest(VersionsOf(s.durable, key)) == Get(s, key)
  }

  /** A compaction of an increasing history, safe or not, leaves such a log. */
  lemma CompactRecoverable(s: StoreState)
    requires Increasing(s.history)
    ensures Recoverable(Compact(s))
  {
    hide VersionsOf, Compacted, NextSeq;
    var t, n := Oldest(s.held), NextSeq(s.history);
    CompactedIncreasing(s.history, t);
    forall key: Bytes ensures Latest(VersionsOf(Compact(s).durable, key)) == Get(s, key) {
      CompactedServes(s.history, t, key, n + if t.Some? then t.value else 0);
    }
  }

  lemma ApplyRecoverable(s: StoreState, ops: seq<LogOp>)
    requires Recoverable(s)
    ensures Recoverable(ApplyBatch(s, ops))
  {
    hide VersionsOf, NextSeq, Stamp;
    var rs, s' := Stamp(ops, s.nextSeq), ApplyBatch(s, ops);
    StampContinues(s.durable, ops);
    forall key: Bytes ensures Latest(VersionsOf(s'.durable, key)) == Get(s', key) {
      assert Latest(VersionsOf(s.durable, key)) == Get(s, key);
      VersionsAppend(s.history, rs, key);
      VersionsAppend(s.durable, rs, key);
    }
  }

  /** So after an unsafe compaction, and any writes but no second compaction, a reopening is sound. */
  lemma ReopenRecoverable(s: StoreState, prefix: Bytes)
    requires Recoverable(s)
    ensures Coherent(Reopen(s))
    ensures (forall k: Bytes :: Get(Reopen(s), k) == Get(s, k)) && Scan(Reopen(s), prefix) == Scan(s, prefix)
  {
    hide VersionsOf, PrefixScan, KeysOf, NextSeq;
    var s' := Reopen(s);
    ReopenCoherent(s);
    forall k: Bytes
      ensures Get(s', k) == Get(s, k) && (Get(s, k).Some? ==> k in KeysOf(s.history) && k in KeysOf(s'.history))
    {
      assert Latest(VersionsOf(s.durable, k)) == Get(s, k);
      NoVersions(s.history, k);
      NoVersions(s.durable, k);
    }
    SameScan(KeysOf(s'.history), KeysOf(s.history), prefix, k => Get(s', k), k => Get(s, k));
  }

  lemma CoherentRecoverable(s: StoreState)
    requires Coherent(s)
    ensures Recoverable(s)
  {
    hide VersionsOf, NextSeq, ReadAt;
    var n := s.nextSeq;
    forall k: Bytes ensures Latest(VersionsOf(s.durable, k)) == Get(s, k) {
      assert Serves(s, n);
      VersionsAscend(s.history, k);
      VersionsAscend(s.durable, k);
      ReadAtTop(VersionsOf(s.history, k), n);
      ReadAtTop(VersionsOf(s.durable, k), n);
    }
  }
}
