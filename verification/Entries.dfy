/** Sorted entry lists as maps: search, upsert and removal inside a leaf. */
module Entries {
  import opened Bytes
  import opened Nodes
  import opened Trees

  /** The map a list of entries denotes. */
  ghost function ToMap(es: seq<Entry>): map<Key, Value> {
    if es == [] then map[] else ToMap(es[..|es| - 1])[es[|es| - 1].key := es[|es| - 1].value]
  }

  /** Where a binary search for `key` lands: past exactly the smaller keys of a sorted list. */
  function SearchIndex(es: seq<Entry>, key: Key): (i: nat)
    ensures i <= |es|
    ensures i > 0 ==> Less(es[i - 1].key, key)
    ensures i < |es| ==> !Less(es[i].key, key)
  {
    if es == [] then 0
    else if Less(es[|es| - 1].key, key) then |es|
    else SearchIndex(es[..|es| - 1], key)
  }

  predicate Holds(es: seq<Entry>, key: Key) {
    var i := SearchIndex(es, key);
    i < |es| && es[i].key == key
  }

  function PutEntry(es: seq<Entry>, key: Key, value: Value): seq<Entry> {
    var i := SearchIndex(es, key);
    if i < |es| && es[i].key == key then es[i := Entry(key, value)]
    else es[..i] + [Entry(key, value)] + es[i..]
  }

  function RemoveEntry(es: seq<Entry>, key: Key): seq<Entry> {
    var i := SearchIndex(es, key);
    if i < |es| && es[i].key == key then es[..i] + es[i + 1..] else es
  }

  /** Linear lookup, as a point read does inside one leaf. */
  function FindEntry(es: seq<Entry>, key: Key): Option<Value> {
    if es == [] then None
    else if es[0].key == key then Some(es[0].value)
    else FindEntry(es[1..], key)
  }

  lemma {:induction false} ToMapAppend(a: seq<Entry>, b: seq<Entry>)
    ensures ToMap(a + b) == ToMap(a) + ToMap(b)
  {
    if b == [] {
      assert a + b == a;
    } else {
      ToMapAppend(a, b[..|b| - 1]);
      assert (a + b)[..|a + b| - 1] == a + b[..|b| - 1];
    }
  }

  lemma {:induction false} ToMapKeys(es: seq<Entry>, key: Key)
    ensures key in ToMap(es) <==> exists i :: 0 <= i < |es| && es[i].key == key
  {
    if es != [] {
      ToMapKeys(es[..|es| - 1], key);
      assert es[|es| - 1].key == key ==> key in ToMap(es);
    }
  }

  lemma ToMapEmpty()
    ensures ToMap([]) == map[]
  {
  }

  lemma ToMapOne(e: Entry)
    ensures ToMap([e]) == map[e.key := e.value]
  {
    assert [e][..0] == [];
  }

  /** All keys of `es` lie on one side of `key`. */
  predicate AllBefore(es: seq<Entry>, key: Key) {
    forall i :: 0 <= i < |es| ==> Less(es[i].key, key)
  }

  predicate AllAfter(es: seq<Entry>, key: Key) {
    forall i :: 0 <= i < |es| ==> Less(key, es[i].key)
  }

  lemma SmallerBefore(es: seq<Entry>, key: Key, i: nat)
    requires SortedEntries(es) && 0 < i <= |es| && Less(es[i - 1].key, key)
    ensures AllBefore(es[..i], key)
  {
    hide Less;
    OrderLaws();
    forall j | 0 <= j < i ensures Less(es[j].key, key) {
      assert j < i - 1 ==> Less(es[j].key, es[i - 1].key);
    }
  }

  lemma LargerAfter(es: seq<Entry>, key: Key, i: nat)
    requires SortedEntries(es) && i < |es| && Less(key, es[i].key)
    ensures AllAfter(es[i..], key)
  {
    hide Less;
    OrderLaws();
    forall j | i <= j < |es| ensures Less(key, es[j].key) {
      assert i < j ==> Less(es[i].key, es[j].key);
    }
  }

  /** A sorted list splits at the search position into smaller keys, the key if present, larger keys. */
  lemma SearchSplits(es: seq<Entry>, key: Key)
    requires SortedEntries(es)
    ensures var i := SearchIndex(es, key);
            && AllBefore(es[..i], key)
            && AllAfter(if Holds(es, key) then es[i + 1..] else es[i..], key)
    ensures Holds(es, key) ==> var i := SearchIndex(es, key); es == es[..i] + [es[i]] + es[i + 1..]
  {
    hide SearchIndex, Less, AllBefore, AllAfter;
    OrderLaws();
    var i := SearchIndex(es, key);
    NoneAround(key);
    if i > 0 {
      SmallerBefore(es, key, i);
    }
    assert es[..0] == [] && es[|es|..] == [];
    if Holds(es, key) {
      if i + 1 < |es| {
        LargerAfter(es, key, i + 1);
      }
    } else if i < |es| {
      LargerAfter(es, key, i);
    }
  }

  lemma NoneAround(key: Key)
    ensures AllBefore([], key) && AllAfter([], key)
  {
  }

  lemma NotInMap(es: seq<Entry>, key: Key)
    requires AllBefore(es, key) || AllAfter(es, key)
    ensures key !in ToMap(es)
  {
    OrderLaws();
    ToMapKeys(es, key);
  }

  /** What a list with `key` at most once, between smaller and larger keys, denotes. */
  lemma ToMapAround(a: seq<Entry>, m: seq<Entry>, b: seq<Entry>, key: Key)
    requires AllBefore(a, key) && AllAfter(b, key)
    ensures ToMap(a + m + b) == ToMap(a) + ToMap(m) + ToMap(b)
    ensures key !in ToMap(a) && key !in ToMap(b)
  {
    ToMapAppend(a, m);
    ToMapAppend(a + m, b);
    NotInMap(a, key);
    NotInMap(b, key);
  }

  lemma HoldsIsMember(es: seq<Entry>, key: Key)
    requires SortedEntries(es)
    ensures Holds(es, key) <==> key in ToMap(es)
  {
    hide SearchIndex;
    var i := SearchIndex(es, key);
    SearchSplits(es, key);
    if Holds(es, key) {
      ToMapKeys(es, key);
    } else {
      assert es == es[..i] + [] + es[i..];
      ToMapAround(es[..i], [], es[i..], key);
    }
  }

  lemma RemoveMap(es: seq<Entry>, key: Key)
    requires SortedEntries(es)
    ensures ToMap(RemoveEntry(es, key)) == ToMap(es) - {key}
    ensures Holds(es, key) ==> |RemoveEntry(es, key)| == |es| - 1
  {
    hide SearchIndex, ToMap, Less;
    var i := SearchIndex(es, key);
    SearchSplits(es, key);
    HoldsIsMember(es, key);
    if Holds(es, key) {
      ToMapAround(es[..i], [es[i]], es[i + 1..], key);
      ToMapOne(es[i]);
      ToMapAppend(es[..i], es[i + 1..]);
    }
  }

  lemma {:induction false} FindIsLookup(es: seq<Entry>, key: Key)
    requires SortedEntries(es)
    ensures FindEntry(es, key) == if key in ToMap(es) then Some(ToMap(es)[key]) else None
  {
    hide Less;
    if es != [] {
      var rest := es[1..];
      FindIsLookup(rest, key);
      assert es == [es[0]] + rest;
      ToMapAppend([es[0]], rest);
      ToMapOne(es[0]);
      if es[0].key == key {
        assert AllAfter(rest, key);
        NotInMap(rest, key);
      }
    }
  }

  /** A sorted listing holds an entry exactly if the map does. */
  lemma {:induction false} MapMember(es: seq<Entry>, e: Entry)
    requires SortedEntries(es)
    ensures e in es <==> e.key in ToMap(es) && ToMap(es)[e.key] == e.value
  {
    hide Less;
    OrderLaws();
    if es != [] {
      var front, last := es[..|es| - 1], es[|es| - 1];
      MapMember(front, e);
      assert es == front + [last];
      if e in front {
        assert Less(e.key, last.key);
      }
    }
  }

  lemma PutParts(es: seq<Entry>, key: Key, value: Value) returns (a: seq<Entry>, m: seq<Entry>, b: seq<Entry>)
    requires SortedEntries(es)
    ensures es == a + m + b && PutEntry(es, key, value) == a + [Entry(key, value)] + b
    ensures m == [] || m == [Entry(key, m[0].value)]
    ensures AllBefore(a, key) && AllAfter(b, key) && SortedEntries(a) && SortedEntries(b)
  {
    hide SearchIndex, Less, AllBefore, AllAfter, SortedEntries;
    var i := SearchIndex(es, key);
    SearchSplits(es, key);
    if Holds(es, key) {
      a, m, b := es[..i], [es[i]], es[i + 1..];
      assert es[i := Entry(key, value)] == a + [Entry(key, value)] + b;
    } else {
      a, m, b := es[..i], [], es[i..];
    }
    SortedSlices(es, i, |es| - |b|);
  }

  lemma SortedSlices(es: seq<Entry>, i: nat, j: nat)
    requires SortedEntries(es) && i <= |es| && j <= |es|
    ensures SortedEntries(es[..i]) && SortedEntries(es[j..])
  {
    hide Less;
  }

  lemma PutMap(es: seq<Entry>, key: Key, value: Value)
    requires SortedEntries(es)
    ensures ToMap(PutEntry(es, key, value)) == ToMap(es)[key := value]
  {
    hide ToMap, PutEntry, SortedEntries;
    var a, m, b := PutParts(es, key, value);
    var e := Entry(key, value);
    ToMapAround(a, [e], b, key);
    ToMapAround(a, m, b, key);
    ToMapOne(e);
    ToMapEmpty();
    if m != [] {
      ToMapOne(m[0]);
    }
  }

  lemma PutSize(es: seq<Entry>, key: Key, value: Value)
    requires SortedEntries(es) && |key| + |value| <= MAX_ENTRY
    ensures LeafSize(PutEntry(es, key, value)) <= LeafSize(es) + 8 + MAX_ENTRY
  {
    hide LeafSize, PutEntry, SortedEntries;
    var a, m, b := PutParts(es, key, value);
    var e := Entry(key, value);
    LeafSizeAppend(a, [e]);
    LeafSizeAppend(a + [e], b);
    LeafSizeAppend(a, m);
    LeafSizeAppend(a + m, b);
    LeafSizeBounds([e]);
  }

  lemma PutShape(es: seq<Entry>, key: Key, value: Value, lo: Key, hi: Option<Key>)
    requires SortedEntries(es) && EntriesInRange(es, lo, hi) && SmallEntries(es)
    requires InRange(key, lo, hi) && |key| + |value| <= MAX_ENTRY
    ensures var es' := PutEntry(es, key, value);
            SortedEntries(es') && EntriesInRange(es', lo, hi) && SmallEntries(es') && es' != []
  {
    hide PutEntry, InRange, SortedEntries;
    var a, m, b := PutParts(es, key, value);
    var e := Entry(key, value);
    SortedAround(a, e, b);
    forall j | 0 <= j < |a + m + b| ensures InRange((a + m + b)[j].key, lo, hi) {}
    assert forall j :: 0 <= j < |a| ==> a[j] == (a + m + b)[j];
    assert forall j :: 0 <= j < |b| ==> b[j] == (a + m + b)[|a| + |m| + j];
  }

  lemma SortedAround(a: seq<Entry>, e: Entry, b: seq<Entry>)
    requires SortedEntries(a) && SortedEntries(b) && AllBefore(a, e.key) && AllAfter(b, e.key)
    ensures SortedEntries(a + [e] + b)
  {
    OrderLaws();
  }

  lemma RemoveShape(es: seq<Entry>, key: Key, lo: Key, hi: Option<Key>)
    requires SortedEntries(es) && EntriesInRange(es, lo, hi) && SmallEntries(es)
    ensures var es' := RemoveEntry(es, key);
            SortedEntries(es') && EntriesInRange(es', lo, hi) && SmallEntries(es')
    ensures LeafSize(RemoveEntry(es, key)) <= LeafSize(es)
  {
    hide SearchIndex, LeafSize, Less;
    var i := SearchIndex(es, key);
    if Holds(es, key) {
      assert es == es[..i] + [es[i]] + es[i + 1..];
      LeafSizeAppend(es[..i], [es[i]]);
      LeafSizeAppend(es[..i] + [es[i]], es[i + 1..]);
      LeafSizeAppend(es[..i], es[i + 1..]);
    }
  }
}
