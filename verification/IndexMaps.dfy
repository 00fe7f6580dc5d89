/** The persistent index as a map: namespaced keys, tagged values, a sentinel, and tail replay. */
module IndexMaps {
  import opened Bytes
  import opened Records
  import opened Logs
  import opened Versions
  import opened Stores

  const NS_USER: Byte := 1
  const NS_META: Byte := 0

  type Index = map<Bytes, Bytes>

  function UserKey(key: Bytes): Bytes {
    [NS_USER] + key
  }

  /** Where the index records the log position it has caught up with. */
  const LAST_INDEXED_KEY: Bytes := [NS_META] + [0]

  function EncodeValue(value: Option<Bytes>): Bytes {
    if value.None? then [0] else [1] + value.value
  }

  function DecodeValue(bs: Bytes): Option<Bytes>
    requires bs != [] && bs[0] <= 1
  {
    if bs[0] == 0 then None else Some(bs[1..])
  }

  function Sentinel(m: Index): nat {
    if LAST_INDEXED_KEY in m then FromLE(m[LAST_INDEXED_KEY]) else 0
  }

  function SetSentinel(m: Index, next: nat): Index {
    m[LAST_INDEXED_KEY := ToLE(next, 8)]
  }

  /** A delete is indexed as a tombstone, so it is an upsert too. */
  function ApplyRecord(m: Index, r: Record): Index {
    m[UserKey(r.key) := EncodeValue(VersionOf(r).value)]
  }

  /** Replays the records from sequence number `from` on, skipping the earlier ones. */
  function ReplayFrom(m: Index, rs: seq<Record>, from: nat): Index {
    if rs == [] then m
    else
      var m', r := ReplayFrom(m, rs[..|rs| - 1], from), rs[|rs| - 1];
      if r.seqNo >= from then ApplyRecord(m', r) else m'
  }

  /** The records replayed. */
  function Tail(rs: seq<Record>, from: nat): seq<Record> {
    if rs == [] then []
    else
      var front, r := Tail(rs[..|rs| - 1], from), rs[|rs| - 1];
      if r.seqNo >= from then front + [r] else front
  }

  /** What opening makes of an image: the tail is replayed and, if there was any, the sentinel moves. */
  function Reconciled(image: Index, rs: seq<Record>): Index {
    var m := ReplayFrom(image, rs, Sentinel(image));
    if Tail(rs, Sentinel(image)) == [] then m else SetSentinel(m, NextSeq(rs))
  }

  // ---------------------------------------------------------------------------
  // Which records an index reflects

  /** What the index must hold for one key with these versions. */
  ghost predicate HoldsKey(m: Index, key: Bytes, vs: seq<Version>) {
    (UserKey(key) in m <==> vs != []) && (UserKey(key) in m ==> m[UserKey(key)] == EncodeValue(Latest(vs)))
  }

  /** Nothing but user entries and the sentinel. */
  ghost predicate Namespaced(m: Index) {
    && (forall x :: x in m ==> x == LAST_INDEXED_KEY || (x != [] && x[0] == NS_USER))
    && (LAST_INDEXED_KEY in m ==> |m[LAST_INDEXED_KEY]| == 8)
  }

  /** The index holds the newest version of every key of `rs`, and nothing else of the user's. */
  ghost predicate Reflects(m: Index, rs: seq<Record>) {
    Namespaced(m) && forall key: Bytes {:trigger UserKey(key)} {:trigger VersionsOf(rs, key)} ::
      HoldsKey(m, key, VersionsOf(rs, key))
  }

  lemma UserKeysApart(a: Bytes, b: Bytes)
    ensures UserKey(a) == UserKey(b) <==> a == b
    ensures UserKey(a) != LAST_INDEXED_KEY && UserKey(a)[1..] == a
  {
    assert UserKey(a)[1..] == a && UserKey(b)[1..] == b;
    assert UserKey(a)[0] != LAST_INDEXED_KEY[0];
  }

  lemma {:induction false} UserKeyOrderFrom(a: Bytes, b: Bytes, i: nat)
    ensures LessFrom(UserKey(a), UserKey(b), i + 1) <==> LessFrom(a, b, i)
    decreases |b| - i
  {
    if i < |b| {
      UserKeyOrderFrom(a, b, i + 1);
    }
  }

  lemma UserKeyOrder(a: Bytes, b: Bytes)
    ensures Less(UserKey(a), UserKey(b)) <==> Less(a, b)
  {
    UserKeyOrderFrom(a, b, 0);
  }

  lemma EmptyReflects()
    ensures Reflects(map[], [])
  {
  }

  lemma SentinelReflects(m: Index, rs: seq<Record>, next: nat)
    requires Reflects(m, rs) && next < 0x1_0000_0000_0000_0000
    ensures Reflects(SetSentinel(m, next), rs) && Sentinel(SetSentinel(m, next)) == next
  {
    hide VersionsOf, ToLE, FromLE;
    PowWidths();
    FromToLE(next, 8);
    forall key: Bytes ensures HoldsKey(SetSentinel(m, next), key, VersionsOf(rs, key)) {
      UserKeysApart(key, key);
      assert HoldsKey(m, key, VersionsOf(rs, key));
    }
  }

  /** Applying a record keeps the index up with the log. */
  lemma ApplyReflects(m: Index, rs: seq<Record>, r: Record)
    requires Reflects(m, rs)
    ensures Reflects(ApplyRecord(m, r), rs + [r]) && Sentinel(ApplyRecord(m, r)) == Sentinel(m)
  {
    hide VersionsOf, FromLE;
    UserKeysApart(r.key, r.key);
    forall key: Bytes ensures HoldsKey(ApplyRecord(m, r), key, VersionsOf(rs + [r], key)) {
      UserKeysApart(key, r.key);
      VersionsAppend(rs, [r], key);
      OneRecord(r, key);
      assert HoldsKey(m, key, VersionsOf(rs, key));
    }
  }

  /** Two indexes of the same records hold the same user entries. */
  lemma ReflectsUnique(a: Index, b: Index, rs: seq<Record>)
    requires Reflects(a, rs) && Reflects(b, rs)
    ensures a - {LAST_INDEXED_KEY} == b - {LAST_INDEXED_KEY}
  {
    hide VersionsOf;
    forall x: Bytes | x != LAST_INDEXED_KEY && (x in a || x in b) ensures x in a && x in b && a[x] == b[x] {
      var key := x[1..];
      assert x == UserKey(key);
      assert HoldsKey(a, key, VersionsOf(rs, key)) && HoldsKey(b, key, VersionsOf(rs, key));
    }
  }

  // ---------------------------------------------------------------------------
  // Tail replay

  lemma {:induction false} ReplayNamespaced(m: Index, rs: seq<Record>, from: nat)
    requires Namespaced(m)
    ensures Namespaced(ReplayFrom(m, rs, from)) && Sentinel(ReplayFrom(m, rs, from)) == Sentinel(m)
  {
    hide FromLE;
    if rs != [] {
      ReplayNamespaced(m, rs[..|rs| - 1], from);
      UserKeysApart(rs[|rs| - 1].key, []);
    }
  }

  /** Both indexes hold the same at this key, or both nothing. */
  predicate SameAt(m: Index, m': Index, key: Bytes) {
    (key in m' <==> key in m) && (key in m ==> m'[key] == m[key])
  }

  /** A replayed key holds its newest replayed version, any other key what it held before. */
  lemma {:induction false} ReplayReads(m: Index, rs: seq<Record>, from: nat, key: Bytes)
    ensures var m', vs := ReplayFrom(m, rs, from), VersionsOf(Tail(rs, from), key);
            if vs != [] then HoldsKey(m', key, vs)
            else SameAt(m, m', UserKey(key))
  {
    hide VersionsOf;
    if rs == [] {
      NoRecords(key);
    } else {
      var front, r := rs[..|rs| - 1], rs[|rs| - 1];
      ReplayReads(m, front, from, key);
      UserKeysApart(r.key, key);
      VersionsAppend(Tail(front, from), [r], key);
      OneRecord(r, key);
    }
  }

  lemma {:induction false} TailOf(rs: seq<Record>, from: nat, j: nat)
    requires j <= |rs| && forall i :: 0 <= i < |rs| ==> (rs[i].seqNo >= from <==> i >= j)
    ensures Tail(rs, from) == rs[j..]
  {
    if rs != [] {
      var front := rs[..|rs| - 1];
      if j < |rs| {
        TailOf(front, from, j);
        assert rs[j..] == front[j..] + [rs[|rs| - 1]];
      } else {
        TailOf(front, from, |front|);
      }
    }
  }

  /** In an increasing log the replayed records are a suffix. */
  lemma TailIsSuffix(rs: seq<Record>, from: nat) returns (j: nat)
    requires Increasing(rs)
    ensures j <= |rs| && Tail(rs, from) == rs[j..]
    ensures forall i :: 0 <= i < |rs| ==> (rs[i].seqNo >= from <==> i >= j)
  {
    j := 0;
    while j < |rs| && rs[j].seqNo < from
      invariant j <= |rs| && forall i :: 0 <= i < j ==> rs[i].seqNo < from
    {
      j := j + 1;
    }
    TailOf(rs, from, j);
  }

  /** The sentinel claims no more than the image reflects: every record past the first `p` is at or
      after it. */
  ghost predicate CaughtUp(m: Index, rs: seq<Record>, p: nat) {
    && p <= |rs| && Reflects(m, rs[..p]) && Sentinel(m) <= NextSeq(rs)
    && forall i :: p <= i < |rs| ==> rs[i].seqNo >= Sentinel(m)
  }

  /** An image stays usable while the log grows past it. */
  lemma CaughtUpGrows(m: Index, rs: seq<Record>, p: nat, ops: seq<LogOp>)
    requires CaughtUp(m, rs, p)
    ensures CaughtUp(m, rs + Stamp(ops, NextSeq(rs)), p)
  {
    hide Reflects, Sentinel, NextSeq, Stamp;
    var new', all := Stamp(ops, NextSeq(rs)), rs + Stamp(ops, NextSeq(rs));
    StampNext(rs, ops);
    assert all[..p] == rs[..p];
    forall i | p <= i < |all| ensures all[i].seqNo >= Sentinel(m) {
      if i >= |rs| {
        StampAt(ops, NextSeq(rs), i - |rs|);
        assert all[i] == new'[i - |rs|];
      }
    }
  }

  lemma TailVersions(rs: seq<Record>, p: nat, j: nat, key: Bytes)
    requires j <= p <= |rs|
    ensures var vs := VersionsOf(rs[j..], key);
            && Latest(VersionsOf(rs, key)) == (if vs != [] then Latest(vs) else Latest(VersionsOf(rs[..p], key)))
            && (VersionsOf(rs, key) == [] <==> vs == [] && VersionsOf(rs[..p], key) == [])
  {
    hide VersionsOf;
    VersionsAppend(rs[..j], rs[j..], key);
    VersionsAppend(rs[..j], rs[j..p], key);
    VersionsAppend(rs[j..p], rs[p..], key);
    assert rs == rs[..j] + rs[j..] && rs[..p] == rs[..j] + rs[j..p] && rs[j..] == rs[j..p] + rs[p..];
  }

  /** Replaying the tail from the sentinel brings any complete image of a log prefix up to the whole
      log, even when some of the replayed records were already in it. */
  lemma TailReplay(m: Index, rs: seq<Record>, p: nat)
    requires Increasing(rs) && CaughtUp(m, rs, p)
    ensures Reflects(ReplayFrom(m, rs, Sentinel(m)), rs)
    ensures ReplayFrom(m, rs, Sentinel(m)) - {LAST_INDEXED_KEY} == ReplayFrom(map[], rs, 0) - {LAST_INDEXED_KEY}
  {
    hide Sentinel, ReplayFrom, Tail, Increasing;
    ReplayAllKeys(m, rs, p, Sentinel(m));
    EmptyReflects();
    assert rs[..0] == [];
    ReplayAllKeys(map[], rs, 0, 0);
    ReflectsUnique(ReplayFrom(m, rs, Sentinel(m)), ReplayFrom(map[], rs, 0), rs);
  }

  /** Opening any such image gives an index of the whole log with its sentinel at the end. */
  lemma ReconciledReflects(image: Index, rs: seq<Record>, p: nat)
    requires Increasing(rs) && CaughtUp(image, rs, p) && NextSeq(rs) < 0x1_0000_0000_0000_0000
    ensures Reflects(Reconciled(image, rs), rs) && Sentinel(Reconciled(image, rs)) == NextSeq(rs)
  {
    hide Sentinel, ReplayFrom, Tail, Increasing, SetSentinel, NextSeq, Reflects;
    var from := Sentinel(image);
    var m := ReplayFrom(image, rs, from);
    TailReplay(image, rs, p);
    TailBounded(rs, from);
    ReflectsNamespaced(image, rs[..p]);
    ReplayNamespaced(image, rs, from);
    SentinelReflects(m, rs, NextSeq(rs));
  }

  lemma ReflectsNamespaced(m: Index, rs: seq<Record>)
    requires Reflects(m, rs)
    ensures Namespaced(m)
  {
  }

  lemma ReplayAllKeys(m: Index, rs: seq<Record>, p: nat, from: nat)
    requires Increasing(rs) && p <= |rs| && Reflects(m, rs[..p]) && forall i :: p <= i < |rs| ==> rs[i].seqNo >= from
    ensures Reflects(ReplayFrom(m, rs, from), rs)
  {
    hide VersionsOf, ReplayFrom, Tail, EncodeValue, Namespaced;
    var m' := ReplayFrom(m, rs, from);
    var j := TailIsSuffix(rs, from);
    ReplayNamespaced(m, rs, from);
    assert p < |rs| ==> rs[p].seqNo >= from;
    forall key: Bytes ensures HoldsKey(m', key, VersionsOf(rs, key)) {
      ReplayReads(m, rs, from, key);
      TailVersions(rs, p, j, key);
      assert HoldsKey(m, key, VersionsOf(rs[..p], key));
    }
  }

  /** Replay is bounded by how far the sentinel lags behind the log, and there is nothing to replay
      exactly when it does not lag. */
  lemma {:induction false} TailBounded(rs: seq<Record>, from: nat)
    requires Increasing(rs) && from <= NextSeq(rs)
    ensures |Tail(rs, from)| <= NextSeq(rs) - from
    ensures Tail(rs, from) == [] <==> from == NextSeq(rs)
  {
    if rs != [] {
      var front, r := rs[..|rs| - 1], rs[|rs| - 1];
      NextSeqOf(front);
      NextSeqOf(rs);
      if from <= NextSeq(front) {
        TailBounded(front, from);
      } else {
        NothingPast(front, from);
      }
    }
  }

  lemma {:induction false} NothingPast(rs: seq<Record>, from: nat)
    requires Increasing(rs) && NextSeq(rs) <= from
    ensures Tail(rs, from) == []
  {
    if rs != [] {
      NextSeqOf(rs);
      NextSeqOf(rs[..|rs| - 1]);
      NothingPast(rs[..|rs| - 1], from);
    }
  }

  // ---------------------------------------------------------------------------
  // Reads

  function IndexGet(m: Index, key: Bytes): Option<Bytes>
    requires UserKey(key) in m ==> m[UserKey(key)] != [] && m[UserKey(key)][0] <= 1
  {
    if UserKey(key) in m then DecodeValue(m[UserKey(key)]) else None
  }

  lemma ValueRoundTrip(v: Option<Bytes>)
    ensures EncodeValue(v) != [] && EncodeValue(v)[0] <= 1 && DecodeValue(EncodeValue(v)) == v
  {
  }

  /** The index answers a point read as the plain store over the same records does. */
  lemma GetAgrees(m: Index, s: StoreState, key: Bytes)
    requires Reflects(m, s.history)
    ensures UserKey(key) in m ==> m[UserKey(key)] != [] && m[UserKey(key)][0] <= 1
    ensures IndexGet(m, key) == Get(s, key)
  {
    hide VersionsOf;
    assert HoldsKey(m, key, VersionsOf(s.history, key));
    ValueRoundTrip(Latest(VersionsOf(s.history, key)));
  }
}
