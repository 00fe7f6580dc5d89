/** Ordered key sets and prefix scans over them. */
module Scans {
  import opened Bytes

  predicate StrictlySorted(ks: seq<Bytes>) {
    forall i, j :: 0 <= i < j < |ks| ==> Less(ks[i], ks[j])
  }

  predicate IsMinimum(k: Bytes, s: set<Bytes>) {
    k in s && forall j :: j in s ==> !Less(j, k)
  }

  lemma {:induction false} MinimumExists(s: set<Bytes>)
    requires s != {}
    ensures exists k :: IsMinimum(k, s)
    decreases |s|
  {
    hide Less;
    OrderLaws();
    var x :| x in s;
    var rest := s - {x};
    if rest == {} {
      assert s == {x};
      assert IsMinimum(x, s);
    } else {
      MinimumExists(rest);
      var m :| IsMinimum(m, rest);
      assert IsMinimum(if Less(x, m) then x else m, s);
    }
  }

  /** The keys of an ordered map, in order. */
  function SortedKeys(s: set<Bytes>): (ks: seq<Bytes>)
    ensures forall k :: k in ks <==> k in s
    decreases |s|
  {
    if s == {} then []
    else
      MinimumExists(s);
      OrderLaws();
      var k :| IsMinimum(k, s);
      [k] + SortedKeys(s - {k})
  }

  lemma {:induction false} SortedKeysSorted(s: set<Bytes>)
    ensures StrictlySorted(SortedKeys(s))
    decreases |s|
  {
    hide Less;
    if s != {} {
      var ks := SortedKeys(s);
      var k := ks[0];
      assert ks == [k] + SortedKeys(s - {k});
      SortedKeysSorted(s - {k});
      OrderLaws();
      forall i | 0 < i < |ks| ensures Less(k, ks[i]) {
        assert ks[i] in SortedKeys(s - {k});
      }
    }
  }

  // ---------------------------------------------------------------------------
  // Prefix scans

  /** The keys from `prefix` on. */
  function RangeFrom(ks: seq<Bytes>, prefix: Bytes): seq<Bytes> {
    if ks == [] || !Less(ks[0], prefix) then ks else RangeFrom(ks[1..], prefix)
  }

  /** The leading keys that start with `prefix`. */
  function TakeWhile(ks: seq<Bytes>, prefix: Bytes): seq<Bytes> {
    if ks == [] || !StartsWith(ks[0], prefix) then [] else [ks[0]] + TakeWhile(ks[1..], prefix)
  }

  /** Keys with a live value, paired with it. */
  function Live(ks: seq<Bytes>, read: Bytes -> Option<Bytes>): seq<(Bytes, Bytes)> {
    if ks == [] then []
    else if read(ks[0]).Some? then [(ks[0], read(ks[0]).value)] + Live(ks[1..], read)
    else Live(ks[1..], read)
  }

  function PrefixScan(keys: set<Bytes>, prefix: Bytes, read: Bytes -> Option<Bytes>): seq<(Bytes, Bytes)> {
    Live(TakeWhile(RangeFrom(SortedKeys(keys), prefix), prefix), read)
  }

  /** Sorted by key, each key once. */
  predicate Listed(out: seq<(Bytes, Bytes)>) {
    forall i, j :: 0 <= i < j < |out| ==> Less(out[i].0, out[j].0)
  }

  lemma {:induction false} RangeSuffix(ks: seq<Bytes>, prefix: Bytes) returns (a: seq<Bytes>)
    requires StrictlySorted(ks)
    ensures ks == a + RangeFrom(ks, prefix)
    ensures forall k :: k in a ==> !StartsWith(k, prefix)
    ensures forall k :: k in RangeFrom(ks, prefix) ==> !Less(k, prefix)
  {
    if ks == [] || !Less(ks[0], prefix) {
      a := [];
      OrderLaws();
    } else {
      a := RangeSuffix(ks[1..], prefix);
      if StartsWith(ks[0], prefix) {
        PrefixNotLess(ks[0], prefix, 0);
      }
      a := [ks[0]] + a;
    }
  }

  lemma {:induction false} TakeWhileAll(ks: seq<Bytes>, prefix: Bytes)
    requires StrictlySorted(ks) && forall k :: k in ks ==> !Less(k, prefix)
    ensures TakeWhile(ks, prefix) <= ks
    ensures forall k :: k in TakeWhile(ks, prefix) <==> k in ks && StartsWith(k, prefix)
  {
    hide Less;
    if ks != [] {
      if StartsWith(ks[0], prefix) {
        TakeWhileAll(ks[1..], prefix);
      } else {
        forall k | k in ks ensures !StartsWith(k, prefix) {
          if StartsWith(k, prefix) && k != ks[0] {
            PrefixContiguous(prefix, ks[0], k);
          }
        }
      }
    }
  }

  lemma {:induction false} LiveSpec(ks: seq<Bytes>, read: Bytes -> Option<Bytes>)
    requires StrictlySorted(ks)
    ensures Listed(Live(ks, read))
    ensures forall p :: p in Live(ks, read) <==> p.0 in ks && read(p.0) == Some(p.1)
  {
    hide Less;
    if ks != [] {
      LiveSpec(ks[1..], read);
      assert ks == [ks[0]] + ks[1..];
      assert forall k :: k in ks[1..] ==> Less(ks[0], k);
      OrderLaws();
    }
  }

  /** Range from the prefix plus take-while returns exactly the live keys that start with it, in order. */
  lemma PrefixScanSpec(keys: set<Bytes>, prefix: Bytes, read: Bytes -> Option<Bytes>)
    ensures Listed(PrefixScan(keys, prefix, read))
    ensures forall p :: p in PrefixScan(keys, prefix, read) <==>
                          && p.0 in keys && |prefix| <= |p.0| && p.0[..|prefix|] == prefix
                          && read(p.0) == Some(p.1)
  {
    hide Less, SortedKeys, RangeFrom, TakeWhile, Live;
    var ks := SortedKeys(keys);
    SortedKeysSorted(keys);
    var a := RangeSuffix(ks, prefix);
    var r := RangeFrom(ks, prefix);
    SuffixSorted(a, r);
    TakeWhileAll(r, prefix);
    var w := TakeWhile(r, prefix);
    assert StrictlySorted(w);
    LiveSpec(w, read);
    assert forall k :: k in ks <==> k in a || k in r;
  }

  lemma SuffixSorted(a: seq<Bytes>, r: seq<Bytes>)
    requires StrictlySorted(a + r)
    ensures StrictlySorted(r)
  {
    forall i, j | 0 <= i < j < |r| ensures Less(r[i], r[j]) {
      assert (a + r)[|a| + i] == r[i] && (a + r)[|a| + j] == r[j];
    }
  }

  /** A listing is determined by what it contains. */
  lemma {:induction false} ListingUnique(a: seq<(Bytes, Bytes)>, b: seq<(Bytes, Bytes)>)
    requires Listed(a) && Listed(b) && forall p :: p in a <==> p in b
    ensures a == b
  {
    hide Less;
    OrderLaws();
    assert b != [] ==> b[0] in b;
    if a != [] {
      assert a[0] in b && b != [] && b[0] in a;
      assert a[0] == b[0];
      forall p ensures p in a[1..] <==> p in b[1..] {
        assert p in a <==> p == a[0] || p in a[1..];
        assert p in b <==> p == b[0] || p in b[1..];
        assert a[0] !in a[1..] && b[0] !in b[1..];
      }
      ListingUnique(a[1..], b[1..]);
    }
  }
}
