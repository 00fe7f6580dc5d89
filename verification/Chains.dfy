/** The leaf level: what an insert or delete does to the row of leaves, and the sibling chain
    that threads every leaf ever created. */
module Chains {
  import opened Bytes
  import opened Pages
  import opened Nodes
  import opened Trees
  import opened Entries

  // ---------------------------------------------------------------------------
  // One leaf

  /** An upsert in one leaf: the leaf itself, or its two halves, the right one on page `newId`. */
  ghost function PutLeaf(l: Tree, key: Key, value: Value, newId: PageId): seq<Tree>
    requires l.Leaf?
  {
    var es := PutEntry(l.entries, key, value);
    if LeafSize(es) <= LEAF_CAPACITY then [Leaf(l.id, l.next, es)]
    else var mid := |es| / 2; [Leaf(l.id, newId, es[..mid]), Leaf(newId, l.next, es[mid..])]
  }

  /** A removal in one leaf; the sibling pointer never changes. */
  ghost function CutLeaf(l: Tree, key: Key): Tree
    requires l.Leaf?
  {
    Leaf(l.id, l.next, RemoveEntry(l.entries, key))
  }

  lemma PutLeafFlat(l: Tree, key: Key, value: Value, newId: PageId)
    requires l.Leaf?
    ensures Flat(PutLeaf(l, key, value, newId)) == PutEntry(l.entries, key, value)
  {
    hide PutEntry, LeafSize;
    var es := PutEntry(l.entries, key, value);
    if LeafSize(es) <= LEAF_CAPACITY {
      FlatOne(Leaf(l.id, l.next, es));
    } else {
      var a, b := Leaf(l.id, newId, es[..|es| / 2]), Leaf(newId, l.next, es[|es| / 2..]);
      FlatOne(a);
      FlatOne(b);
      FlatAppend([a], [b]);
      assert [a] + [b] == [a, b];
    }
  }

  /** `key` belongs at leaf `pos`: everything to the left is smaller, everything to the right larger. */
  ghost predicate Located(leaves: seq<Tree>, pos: nat, key: Key) {
    && pos < |leaves| && leaves[pos].Leaf?
    && AllBefore(Flat(leaves[..pos]), key) && AllAfter(Flat(leaves[pos + 1..]), key)
  }

  lemma FlatAround(a: seq<Tree>, m: seq<Tree>, b: seq<Tree>)
    ensures Flat(a + m + b) == Flat(a) + Flat(m) + Flat(b)
  {
    FlatAppend(a, m);
    FlatAppend(a + m, b);
  }

  lemma FlatAt(leaves: seq<Tree>, pos: nat)
    requires pos < |leaves| && leaves[pos].Leaf?
    ensures Flat(leaves) == Flat(leaves[..pos]) + leaves[pos].entries + Flat(leaves[pos + 1..])
  {
    assert leaves == leaves[..pos] + [leaves[pos]] + leaves[pos + 1..];
    FlatAround(leaves[..pos], [leaves[pos]], leaves[pos + 1..]);
    FlatOne(leaves[pos]);
  }

  /** Splicing the upserted leaf back into the row is an update of the map. */
  lemma PutSplice(leaves: seq<Tree>, pos: nat, key: Key, value: Value, newId: PageId)
    requires Located(leaves, pos, key) && SortedEntries(leaves[pos].entries)
    ensures ToMap(Flat(leaves[..pos] + PutLeaf(leaves[pos], key, value, newId) + leaves[pos + 1..]))
         == ToMap(Flat(leaves))[key := value]
  {
    hide PutEntry, PutLeaf, ToMap, SortedEntries;
    var l := leaves[pos];
    var a, b := Flat(leaves[..pos]), Flat(leaves[pos + 1..]);
    FlatAt(leaves, pos);
    FlatAround(leaves[..pos], PutLeaf(l, key, value, newId), leaves[pos + 1..]);
    PutLeafFlat(l, key, value, newId);
    ToMapAround(a, PutEntry(l.entries, key, value), b, key);
    ToMapAround(a, l.entries, b, key);
    PutMap(l.entries, key, value);
  }

  /** Splicing the shrunk leaf back in, or leaving it out once empty, removes the key from the map. */
  lemma CutSplice(leaves: seq<Tree>, pos: nat, key: Key, m: seq<Tree>)
    requires Located(leaves, pos, key) && SortedEntries(leaves[pos].entries)
    requires m == [CutLeaf(leaves[pos], key)] || (m == [] && CutLeaf(leaves[pos], key).entries == [])
    ensures ToMap(Flat(leaves[..pos] + m + leaves[pos + 1..])) == ToMap(Flat(leaves)) - {key}
  {
    hide RemoveEntry, ToMap, SortedEntries;
    var l := leaves[pos];
    var a, b := Flat(leaves[..pos]), Flat(leaves[pos + 1..]);
    FlatAt(leaves, pos);
    FlatAround(leaves[..pos], m, leaves[pos + 1..]);
    FlatOne(CutLeaf(l, key));
    assert Flat(m) == RemoveEntry(l.entries, key);
    ToMapAround(a, RemoveEntry(l.entries, key), b, key);
    ToMapAround(a, l.entries, b, key);
    RemoveMap(l.entries, key);
  }

  /** Reading the located leaf reads the map. */
  lemma LookupSplice(leaves: seq<Tree>, pos: nat, key: Key)
    requires Located(leaves, pos, key)
    ensures key in ToMap(Flat(leaves)) <==> key in ToMap(leaves[pos].entries)
    ensures key in ToMap(Flat(leaves)) ==> ToMap(Flat(leaves))[key] == ToMap(leaves[pos].entries)[key]
  {
    hide ToMap;
    FlatAt(leaves, pos);
    ToMapAround(Flat(leaves[..pos]), leaves[pos].entries, Flat(leaves[pos + 1..]), key);
  }

  // ---------------------------------------------------------------------------
  // The sibling chain

  /** `leaves` is `chain` with some empty leaves left out. */
  ghost predicate Sub(leaves: seq<Tree>, chain: seq<Tree>) {
    if chain == [] then leaves == []
    else
      || (leaves != [] && leaves[0] == chain[0] && Sub(leaves[1..], chain[1..]))
      || (chain[0].Leaf? && chain[0].entries == [] && Sub(leaves, chain[1..]))
  }

  function NextOf(chain: seq<Tree>, i: nat): PageId
    requires i < |chain|
  {
    if i + 1 < |chain| then chain[i + 1].id else NO_SIBLING
  }

  /** Every leaf points to its successor, the last one nowhere; no page occurs twice. */
  ghost predicate Threaded(chain: seq<Tree>) {
    && (forall i :: 0 <= i < |chain| ==> chain[i].Leaf? && chain[i].next == NextOf(chain, i))
    && (forall i, j :: 0 <= i < j < |chain| ==> chain[i].id != chain[j].id)
  }

  lemma {:induction false} SubConcat(a: seq<Tree>, c: seq<Tree>, b: seq<Tree>, d: seq<Tree>)
    requires Sub(a, c) && Sub(b, d)
    ensures Sub(a + b, c + d)
    decreases |c|
  {
    if c == [] {
      assert a + b == b && c + d == d;
    } else {
      assert (c + d)[0] == c[0] && (c + d)[1..] == c[1..] + d;
      if a != [] && a[0] == c[0] && Sub(a[1..], c[1..]) {
        SubConcat(a[1..], c[1..], b, d);
        assert (a + b)[0] == a[0] && (a + b)[1..] == a[1..] + b;
      } else {
        SubConcat(a, c[1..], b, d);
      }
    }
  }

  /** Each reachable leaf has its place in the chain. */
  lemma {:induction false} SubAt(leaves: seq<Tree>, chain: seq<Tree>, pos: nat) returns (q: nat)
    requires Sub(leaves, chain) && pos < |leaves|
    ensures q < |chain| && chain[q] == leaves[pos]
    ensures Sub(leaves[..pos], chain[..q]) && Sub(leaves[pos + 1..], chain[q + 1..])
    decreases |chain|
  {
    if leaves[0] == chain[0] && Sub(leaves[1..], chain[1..]) {
      if pos == 0 {
        q := 0;
      } else {
        q := SubAt(leaves[1..], chain[1..], pos - 1);
        q := q + 1;
        assert leaves[..pos][1..] == leaves[1..][..pos - 1] && chain[..q][1..] == chain[1..][..q - 1];
        assert leaves[1..][pos..] == leaves[pos + 1..] && chain[1..][q..] == chain[q + 1..];
      }
    } else {
      q := SubAt(leaves, chain[1..], pos);
      q := q + 1;
      assert chain[..q][1..] == chain[1..][..q - 1] && chain[1..][q..] == chain[q + 1..];
    }
  }

  lemma {:induction false} SubRefl(a: seq<Tree>)
    ensures Sub(a, a)
  {
    if a != [] {
      SubRefl(a[1..]);
    }
  }

  /** Walking the chain reads exactly the reachable entries. */
  lemma {:induction false} SubFlat(leaves: seq<Tree>, chain: seq<Tree>)
    requires Sub(leaves, chain)
    ensures Flat(leaves) == Flat(chain)
    decreases |chain|
  {
    if chain != [] {
      assert chain == [chain[0]] + chain[1..];
      FlatAppend([chain[0]], chain[1..]);
      if leaves != [] && leaves[0] == chain[0] && Sub(leaves[1..], chain[1..]) {
        SubFlat(leaves[1..], chain[1..]);
        assert leaves == [leaves[0]] + leaves[1..];
        FlatAppend([leaves[0]], leaves[1..]);
      } else {
        SubFlat(leaves, chain[1..]);
        FlatOne(chain[0]);
      }
    }
  }

  /** A changed leaf keeps its place. */
  lemma ThreadReplace(chain: seq<Tree>, q: nat, l: Tree)
    requires Threaded(chain) && q < |chain|
    requires l.Leaf? && l.id == chain[q].id && l.next == chain[q].next
    ensures Threaded(chain[q := l])
  {
  }

  /** A new leaf is threaded in right after the one it was split from. */
  lemma ThreadInsert(chain: seq<Tree>, q: nat, l: Tree, r: Tree)
    requires Threaded(chain) && q < |chain| && forall i :: 0 <= i < |chain| ==> chain[i].id != r.id
    requires l.Leaf? && l.id == chain[q].id && l.next == r.id
    requires r.Leaf? && r.next == chain[q].next
    ensures Threaded(chain[..q] + [l, r] + chain[q + 1..])
  {
    hide NextOf;
    var c := chain[..q] + [l, r] + chain[q + 1..];
    assert |c| == |chain| + 1 && c[q] == l && c[q + 1] == r;
    assert forall i :: 0 <= i < q ==> c[i] == chain[i];
    assert forall i :: q + 2 <= i < |c| ==> c[i] == chain[i - 1];
    forall i | 0 <= i < |c| ensures c[i].Leaf? && c[i].next == NextOf(c, i) {
      NextAfterInsert(chain, q, c, i);
    }
    forall i, j | 0 <= i < j < |c| ensures c[i].id != c[j].id {
      ApartAfterInsert(chain, q, c, i, j);
    }
  }

  lemma ApartAfterInsert(chain: seq<Tree>, q: nat, c: seq<Tree>, i: nat, j: nat)
    requires Threaded(chain) && q < |chain| && |c| == |chain| + 1 && i < j < |c|
    requires forall x :: 0 <= x < |chain| ==> chain[x].id != c[q + 1].id
    requires forall x :: 0 <= x < q ==> c[x] == chain[x]
    requires forall x :: q + 2 <= x < |c| ==> c[x] == chain[x - 1]
    requires c[q].id == chain[q].id
    ensures c[i].id != c[j].id
  {
    hide NextOf;
    var x, y := if i <= q then i else i - 1, if j <= q then j else j - 1;
    assert i != q + 1 ==> c[i].id == chain[x].id;
    assert j != q + 1 ==> c[j].id == chain[y].id;
  }

  lemma NextAfterInsert(chain: seq<Tree>, q: nat, c: seq<Tree>, i: nat)
    requires Threaded(chain) && q < |chain| && |c| == |chain| + 1 && i < |c|
    requires forall x :: 0 <= x < q ==> c[x] == chain[x]
    requires forall x :: q + 2 <= x < |c| ==> c[x] == chain[x - 1]
    requires c[q].Leaf? && c[q].id == chain[q].id && c[q].next == c[q + 1].id
    requires c[q + 1].Leaf? && c[q + 1].next == chain[q].next
    ensures c[i].Leaf? && c[i].next == NextOf(c, i)
  {
    hide Threaded;
    if i < q {
      LeafAt(chain, i);
      assert c[i] == chain[i] && c[i + 1].id == chain[i + 1].id;
    } else if i > q {
      LeafAt(chain, i - 1);
      assert i + 1 < |c| ==> c[i + 1] == chain[i];
    }
  }

  lemma ThreadPut(chain: seq<Tree>, q: nat, key: Key, value: Value, newId: PageId)
    requires Threaded(chain) && q < |chain| && forall i :: 0 <= i < |chain| ==> chain[i].id != newId
    ensures Threaded(chain[..q] + PutLeaf(chain[q], key, value, newId) + chain[q + 1..])
  {
    hide PutEntry, LeafSize, Threaded;
    assert chain[q].Leaf? by { LeafAt(chain, q); }
    var m := PutLeaf(chain[q], key, value, newId);
    if |m| == 1 {
      ThreadReplace(chain, q, m[0]);
      assert chain[..q] + m + chain[q + 1..] == chain[q := m[0]];
    } else {
      ThreadInsert(chain, q, m[0], m[1]);
      assert m == [m[0], m[1]];
    }
  }

  lemma LeafAt(chain: seq<Tree>, q: nat)
    requires Threaded(chain) && q < |chain|
    ensures chain[q].Leaf? && chain[q].next == NextOf(chain, q)
  {
  }

  // ---------------------------------------------------------------------------
  // Range scans

  predicate InWindow(e: Entry, start: Key, end: Key) {
    !Less(e.key, start) && Less(e.key, end)
  }

  /** The entries with start <= key < end, in order. */
  function Window(es: seq<Entry>, start: Key, end: Key): seq<Entry> {
    if es == [] then []
    else
      var front, e := Window(es[..|es| - 1], start, end), es[|es| - 1];
      if InWindow(e, start, end) then front + [e] else front
  }

  lemma {:induction false} WindowAppend(a: seq<Entry>, b: seq<Entry>, start: Key, end: Key)
    ensures Window(a + b, start, end) == Window(a, start, end) + Window(b, start, end)
  {
    if b == [] {
      assert a + b == a;
    } else {
      WindowAppend(a, b[..|b| - 1], start, end);
      assert (a + b)[..|a + b| - 1] == a + b[..|b| - 1];
    }
  }

  lemma {:induction false} WindowEmpty(es: seq<Entry>, start: Key, end: Key)
    requires forall i :: 0 <= i < |es| ==> !InWindow(es[i], start, end)
    ensures Window(es, start, end) == []
  {
    if es != [] {
      WindowEmpty(es[..|es| - 1], start, end);
    }
  }

  /** Exactly the entries from the start key, included, up to the end key, excluded. */
  lemma {:induction false} WindowMembers(es: seq<Entry>, start: Key, end: Key, e: Entry)
    ensures e in Window(es, start, end) <==> e in es && !Less(e.key, start) && Less(e.key, end)
  {
    hide Less;
    if es != [] {
      WindowMembers(es[..|es| - 1], start, end, e);
      assert es == es[..|es| - 1] + [es[|es| - 1]];
    }
  }

  lemma {:induction false} WindowSorted(es: seq<Entry>, start: Key, end: Key)
    requires SortedEntries(es)
    ensures SortedEntries(Window(es, start, end))
  {
    hide Less;
    if es != [] {
      var front, e := es[..|es| - 1], es[|es| - 1];
      WindowSorted(front, start, end);
      forall x | x in Window(front, start, end) ensures Less(x.key, e.key) {
        WindowMembers(front, start, end, x);
      }
    }
  }

  /** From a key at or past the end on, a sorted list has nothing more to offer. */
  lemma WindowCut(es: seq<Entry>, i: nat, start: Key, end: Key)
    requires SortedEntries(es) && i < |es| && !Less(es[i].key, end)
    ensures Window(es, start, end) == Window(es[..i], start, end)
  {
    OrderLaws();
    assert es == es[..i] + es[i..];
    WindowAppend(es[..i], es[i..], start, end);
    forall j | 0 <= j < |es[i..]| ensures !InWindow(es[i..][j], start, end) {
      assert j == 0 || Less(es[i].key, es[i + j].key);
    }
    WindowEmpty(es[i..], start, end);
  }
}
