/** Recursive descents of the on-page B+tree, through the buffer pool. */
module TreeWalks {
  import opened Bytes
  import opened Pages
  import opened Buffers
  import opened Nodes
  import opened Trees
  import opened Entries
  import opened Chains
  import opened TreeSteps

  /** A pool between operations: consistent, nothing pinned, nothing half-written. */
  ghost predicate Quiet(pool: BufferPool)
    reads pool
  {
    pool.Valid() && pool.pins == multiset{} && pool.touched == {}
  }

  /** Exactly one pin is out, on `id`. */
  ghost predicate Holding(pool: BufferPool, id: PageId)
    reads pool
  {
    pool.Valid() && pool.pins == multiset{id} && pool.touched == {}
  }

  method Pin(pool: BufferPool, id: PageId) returns (page: Page)
    requires Quiet(pool) && id < pool.nextId
    modifies pool
    ensures Holding(pool, id) && pool.view == old(pool.view) && pool.nextId == old(pool.nextId)
    ensures id in pool.view && page == pool.view[id]
  {
    hide PoolInv;
    pool.NotExhausted();
    var ok := pool.Fetch(id);
    var p := pool.ReadPage(id);
    page := p.value;
  }

  method Release(pool: BufferPool, id: PageId)
    requires Holding(pool, id)
    modifies pool
    ensures Quiet(pool) && pool.view == old(pool.view) && pool.nextId == old(pool.nextId)
  {
    hide PoolInv;
    var ok := pool.Unpin(id, false);
  }

  /** Reads one page: pin, copy out, unpin. */
  method Peek(pool: BufferPool, id: PageId) returns (page: Page)
    requires Quiet(pool) && id < pool.nextId
    modifies pool
    ensures Quiet(pool) && pool.view == old(pool.view) && pool.nextId == old(pool.nextId)
    ensures id in pool.view && page == pool.view[id]
  {
    page := Pin(pool, id);
    Release(pool, id);
  }

  /** Replaces the pinned page and unpins it as dirtied. */
  method WriteBack(pool: BufferPool, id: PageId, page: Page)
    requires Holding(pool, id)
    modifies pool
    ensures Quiet(pool) && pool.view == old(pool.view)[id := page] && pool.nextId == old(pool.nextId)
  {
    hide PoolInv;
    pool.PageMut(id, page);
    var ok := pool.Unpin(id, true);
  }

  /** Replaces the pinned page and fills a newly allocated one: the only two pins ever held at once. */
  method WriteSplit(pool: BufferPool, id: PageId, page: Page, newPage: Page) returns (newId: PageId)
    requires Holding(pool, id) && pool.capacity >= 2
    modifies pool
    ensures Quiet(pool) && newId == old(pool.nextId) && pool.nextId == newId + 1
    ensures pool.view == old(pool.view)[id := page][newId := newPage]
  {
    hide PoolInv, BufferPool.Bounds;
    pool.NotExhausted();
    pool.PinnedBelow(id);
    var opt := pool.NewPinned(newPage.ptype);
    newId := opt.value;
    ghost var view := pool.view;
    WriteBoth(pool, id, page, newId, newPage);
    assert view[id := page][newId := newPage] == old(pool.view)[id := page][newId := newPage];
  }

  method WriteBoth(pool: BufferPool, id: PageId, page: Page, newId: PageId, newPage: Page)
    requires pool.Valid() && pool.pins == multiset{id, newId} && pool.touched == {} && id != newId
    modifies pool
    ensures Quiet(pool) && pool.nextId == old(pool.nextId) && pool.view == old(pool.view)[id := page][newId := newPage]
  {
    hide PoolInv, BufferPool.Bounds;
    pool.PageMut(id, page);
    pool.PageMut(newId, newPage);
    var ok := pool.Unpin(newId, true);
    ok := pool.Unpin(id, true);
  }

  // ---------------------------------------------------------------------------
  // Inserting

  ghost function SplitOf(g: seq<Ent>): Option<(Key, PageId)> {
    if |g| == 2 && g[1].key.Some? then Some((g[1].key.value, g[1].kid.id)) else None
  }

  /** Upserts into a pinned leaf, splitting it by count when the result does not fit one page. */
  method InsertLeaf(pool: BufferPool, id: PageId, page: Page, key: Key, value: Value,
                    ghost t: Tree, ghost lo: Key, ghost hi: Option<Key>, ghost h: nat)
    returns (split: Option<(Key, PageId)>, ghost g: seq<Ent>)
    requires t.Leaf? && t.id == id && Holding(pool, id) && pool.capacity >= 2 && pool.nextId < MAX_PAGE_IDS
    requires TreeOk(pool.view, t, lo, hi, h, pool.nextId) && page == pool.view[id]
    requires InRange(key, lo, hi) && |key| + |value| <= MAX_ENTRY
    modifies pool
    ensures Quiet(pool) && pool.nextId <= old(pool.nextId) + 1
    ensures Grown(old(pool.view), pool.view, t, g, lo, hi, h, old(pool.nextId), pool.nextId)
    ensures split == SplitOf(g) && LeavesOf(g) == PutLeaf(t, key, value, old(pool.nextId))
  {
    hide PoolInv, Less, LeafSize, LeafPage, LeavesOf, PutEntry, Grown, IsLeafPage, ReadLeafEntries, ReadLeafSibling,
      SortedEntries, EntriesInRange, SmallEntries;
    LeafReads(pool.view, t, lo, hi, h, pool.nextId);
    PutShape(t.entries, key, value, lo, hi);
    PutSize(t.entries, key, value);
    pool.ViewIsTotal();
    var next := ReadLeafSibling(page);
    var entries := PutEntry(ReadLeafEntries(page), key, value);
    var built := BuildLeaf(entries, next);
    match built {
      case Some(newPage) =>
        g := LeafRewritten(pool.view, t, entries, lo, hi, h, pool.nextId);
        WriteBack(pool, id, newPage);
        split := None;
      case None =>
        var mid := |entries| / 2;
        LeafSplitFits(entries);
        g := LeafSplit(pool.view, t, entries, mid, lo, hi, h, pool.nextId);
        var left := BuildLeaf(entries[..mid], pool.nextId);
        var right := BuildLeaf(entries[mid..], next);
        var rightId := WriteSplit(pool, id, left.value, right.value);
        split := Some((entries[mid].key, rightId));
    }
  }

  /** A separator found below the i-th child lies strictly between its neighbours' separators. */
  lemma SeparatorBetween(view: View, ents: seq<Ent>, i: nat, g: seq<Ent>, lo: Key, hi: Option<Key>, h: nat, limit: nat)
    requires i < |ents| && |g| == 2 && KidsOk(view, Plug(ents, i, g), lo, hi, h, limit)
    ensures g[1].key.Some?
    ensures forall j :: 1 <= j <= i ==> ents[j].key.Some? && Less(ents[j].key.value, g[1].key.value)
    ensures i + 1 < |ents| ==> ents[i + 1].key.Some? && Less(g[1].key.value, ents[i + 1].key.value)
  {
    hide KidsOk, IdsOf, LeavesOf, Less;
    var e := Plug(ents, i, g);
    assert e[i + 1] == g[1];
    SuffixOk(view, e, i + 1, lo, hi, h, limit);
    var a, b := e[..i + 1], Unkeyed(e[i + 1..]);
    KeyedKids(view, a, lo, g[1].key, h, limit);
    forall j | 1 <= j <= i ensures ents[j].key.Some? && Less(ents[j].key.value, g[1].key.value) {
      assert a[j].key == ents[j].key;
    }
    if i + 1 < |ents| {
      KeyedKids(view, b, g[1].key.value, hi, h, limit);
      assert b[1] == ents[i + 1];
    }
  }

  /** It therefore lands right behind the child it was split from. */
  lemma PositionIsNext(view: View, ents: seq<Ent>, i: nat, g: seq<Ent>, at: nat,
                       lo: Key, hi: Option<Key>, h: nat, limit: nat)
    requires i < |ents| && |g| == 2 && KidsOk(view, Plug(ents, i, g), lo, hi, h, limit)
    requires Keyed(Refs(ents)) && 1 <= at <= |ents| && g[1].key.Some?
    requires forall j :: 1 <= j < at ==> !Less(g[1].key.value, Refs(ents)[j].key.value)
    requires at < |ents| ==> Less(g[1].key.value, Refs(ents)[at].key.value)
    ensures at == i + 1
  {
    hide KidsOk, Less, Plug;
    SeparatorBetween(view, ents, i, g, lo, hi, h, limit);
    OrderLaws();
    assert forall j :: 1 <= j < |ents| ==> Refs(ents)[j].key == ents[j].key;
  }

  lemma SeparatorSize(r: seq<InternalEntry>, i: nat, e: InternalEntry)
    requires i < |r| && SmallInternal(e)
    ensures InternalSize(r[..i + 1] + [e] + r[i + 1..]) <= InternalSize(r) + 14 + MAX_ENTRY
  {
    InternalSizeAppend(r[..i + 1], [e]);
    InternalSizeAppend(r[..i + 1] + [e], r[i + 1..]);
    InternalSizeAppend(r[..i + 1], r[i + 1..]);
    assert r == r[..i + 1] + r[i + 1..];
    InternalSizeBounds([e]);
  }

  /** The node's page after its i-th child split, and the entry list that absorbs the split. */
  lemma AbsorbFacts(view: View, view': View, t: Tree, i: nat, g: seq<Ent>,
                    lo: Key, hi: Option<Key>, h: nat, limit: nat, limit': nat)
    requires TreeOk(view, t, lo, hi, h, limit) && t.Node? && i < |t.ents| && |g| == 2 && limit' <= MAX_PAGE_IDS
    requires Grown(view, view', t.ents[i].kid, g, KidLo(t.ents, i, lo), KidHi(t.ents, i, hi), h - 1, limit, limit')
    ensures t.id < limit && t.id in view' && IsInternalPage(view'[t.id])
    ensures ReadInternalEntries(view'[t.id]) == Refs(t.ents) && Keyed(Refs(t.ents)) && |Refs(t.ents)| == |t.ents|
    ensures KidsOk(view', Plug(t.ents, i, g), lo, hi, h - 1, limit')
    ensures var r := Refs(t.ents);
            Refs(Plug(t.ents, i, g)) == r[..i + 1] + [InternalEntry(g[1].key, g[1].kid.id)] + r[i + 1..]
    ensures SmallInternals(Refs(Plug(t.ents, i, g))) && Keyed(Refs(Plug(t.ents, i, g)))
    ensures |Refs(Plug(t.ents, i, g))| == |Plug(t.ents, i, g)| && h > 1
    ensures InternalSize(Refs(Plug(t.ents, i, g))) <= PAGE_CAPACITY + 14 + MAX_ENTRY
  {
    hide InternalSize, InternalPage, LeavesOf, IdsOf, Plug, KidsOk, IsInternalPage, ReadInternalEntries, Less;
    var r, e := Refs(t.ents), Refs(Plug(t.ents, i, g));
    SiblingsKept(view, view', t, i, g, lo, hi, h, limit, limit');
    NodeReads(view, t, lo, hi, h, limit);
    RefsSmall(view', Plug(t.ents, i, g), lo, hi, h - 1, limit');
    PlugRefs(t.ents, i, g);
    assert SmallInternal(e[i + 1]);
    SeparatorSize(r, i, e[i + 1]);
  }

  /** Takes over a split of the i-th child: adds the separator, splitting this node in turn if needed. */
  method AbsorbSplit(pool: BufferPool, id: PageId, sep: Key, newChild: PageId,
                     ghost view0: View, ghost limit0: nat, ghost t: Tree, ghost i: nat, ghost g0: seq<Ent>,
                     ghost lo: Key, ghost hi: Option<Key>, ghost h: nat)
    returns (split: Option<(Key, PageId)>, ghost g: seq<Ent>)
    requires Quiet(pool) && pool.capacity >= 2 && pool.nextId < MAX_PAGE_IDS && limit0 <= pool.nextId
    requires TreeOk(view0, t, lo, hi, h, limit0) && t.Node? && t.id == id && i < |t.ents|
    requires Grown(view0, pool.view, t.ents[i].kid, g0, KidLo(t.ents, i, lo), KidHi(t.ents, i, hi), h - 1, limit0,
             pool.nextId)
    requires SplitOf(g0) == Some((sep, newChild))
    modifies pool
    ensures Quiet(pool) && pool.nextId <= old(pool.nextId) + 1
    ensures Grown(view0, pool.view, t, g, lo, hi, h, limit0, pool.nextId)
    ensures split == SplitOf(g)
    ensures LeavesOf(g) == LeavesOf(t.ents[..i]) + LeavesOf(g0) + LeavesOf(t.ents[i + 1..])
  {
    hide PoolInv, Less, InternalSize, InternalPage, LeavesOf, IdsOf, Refs, Plug, KidsOk, TreeOk, Grown,
      IsInternalPage, ReadInternalEntries, Confined, SmallInternals;
    ghost var kids, view1, limit1 := Plug(t.ents, i, g0), pool.view, pool.nextId;
    AbsorbFacts(view0, view1, t, i, g0, lo, hi, h, limit0, limit1);
    var page := Pin(pool, id);
    var entries := ReadInternalEntries(page);
    var at := InsertPosition(entries, sep);
    PositionIsNext(view1, t.ents, i, g0, at, lo, hi, h - 1, limit1);
    entries := entries[..at] + [InternalEntry(Some(sep), newChild)] + entries[at..];
    var built := BuildInternal(entries);
    match built {
      case Some(newPage) =>
        WriteBack(pool, id, newPage);
        g := GrowFits(view0, view1, pool.view, t, i, g0, lo, hi, h, limit0, limit1);
        split := None;
      case None =>
        InternalSplitFits(entries);
        var mid := if |entries| / 2 > 1 then |entries| / 2 else 1;
        SplitRefs(kids, mid);
        var left := BuildInternal(entries[..mid]);
        var right := BuildInternal([InternalEntry(None, entries[mid].child)] + entries[mid + 1..]);
        var rightId := WriteSplit(pool, id, left.value, right.value);
        g := GrowSplits(view0, view1, pool.view, t, i, g0, mid, lo, hi, h, limit0, limit1);
        split := Some((entries[mid].key.value, rightId));
    }
  }

  /** Where routing leads from a node: the child, its bounds, and its place among the leaves. */
  lemma Descend(view: View, t: Tree, key: Key, i: nat, lo: Key, hi: Option<Key>, h: nat, limit: nat)
    requires TreeOk(view, t, lo, hi, h, limit) && t.Node? && InRange(key, lo, hi)
    requires Keyed(Refs(t.ents)) && Routes(Refs(t.ents), key, i)
    ensures i < |t.ents| == |Refs(t.ents)| && Refs(t.ents)[i].child == t.ents[i].kid.id && h > 1
    ensures var kid := t.ents[i].kid;
            && TreeOk(view, kid, KidLo(t.ents, i, lo), KidHi(t.ents, i, hi), h - 1, limit)
            && InRange(key, KidLo(t.ents, i, lo), KidHi(t.ents, i, hi))
            && Leaves(t) == LeavesOf(t.ents[..i]) + Leaves(kid) + LeavesOf(t.ents[i + 1..])
    ensures AllBefore(Flat(LeavesOf(t.ents[..i])), key) && AllAfter(Flat(LeavesOf(t.ents[i + 1..])), key)
  {
    hide Less, IdsOf, LeavesOf, Flat, KidsOk, InternalSize, InternalPage;
    KidAt(view, t.ents, i, lo, hi, h - 1, limit);
    RouteOk(view, t.ents, key, i, lo, hi, h - 1, limit);
  }

  /** Inserts below page `id`. On return `g` is what stands in place of the subtree `t`, its leaves
      being those of `t` with the one that `key` belongs to upserted. */
  method InsertRecursive(pool: BufferPool, id: PageId, key: Key, value: Value,
                         ghost t: Tree, ghost lo: Key, ghost hi: Option<Key>, ghost h: nat)
    returns (split: Option<(Key, PageId)>, ghost g: seq<Ent>, ghost pos: nat)
    requires Quiet(pool) && pool.capacity >= 2 && pool.nextId + h <= MAX_PAGE_IDS
    requires TreeOk(pool.view, t, lo, hi, h, pool.nextId) && t.id == id
    requires InRange(key, lo, hi) && |key| + |value| <= MAX_ENTRY
    modifies pool
    ensures Quiet(pool) && pool.nextId <= old(pool.nextId) + h
    ensures Grown(old(pool.view), pool.view, t, g, lo, hi, h, old(pool.nextId), pool.nextId)
    ensures split == SplitOf(g) && Located(Leaves(t), pos, key)
    ensures LeavesOf(g) == Splice(Leaves(t), pos, PutLeaf(Leaves(t)[pos], key, value, old(pool.nextId)))
    decreases h
  {
    hide PoolInv, Less, InternalSize, InternalPage, LeavesOf, IdsOf, Refs, Plug, KidsOk, Grown,
      IsInternalPage, ReadInternalEntries, IsLeafPage, Confined, SmallInternals, PutLeaf, AllBefore, AllAfter, Flat,
      Routes, InRange;
    ghost var view0, limit0 := pool.view, pool.nextId;
    var page := Pin(pool, id);
    if t.Leaf? {
      LeafReads(view0, t, lo, hi, h, limit0);
    } else {
      NodeReads(view0, t, lo, hi, h, limit0);
    }
    if page.ptype == BTreeLeaf {
      split, g := InsertLeaf(pool, id, page, key, value, t, lo, hi, h);
      pos := 0;
      LocatedAlone(t, key);
    } else {
      var entries := ReadInternalEntries(page);
      var i := RouteIndex(entries, key);
      Release(pool, id);
      Descend(view0, t, key, i, lo, hi, h, limit0);
      ghost var kid := t.ents[i].kid;
      var childSplit, g0, pos0 := InsertRecursive(pool, entries[i].child, key, value, kid,
                                                  KidLo(t.ents, i, lo), KidHi(t.ents, i, hi), h - 1);
      GrownFacts(view0, pool.view, kid, g0, KidLo(t.ents, i, lo), KidHi(t.ents, i, hi), h - 1, limit0, pool.nextId);
      ghost var a, c := LeavesOf(t.ents[..i]), LeavesOf(t.ents[i + 1..]);
      pos := |a| + pos0;
      LocatedInside(a, Leaves(kid), c, pos0, key);
      SpliceInside(a, Leaves(kid), c, pos0, PutLeaf(Leaves(kid)[pos0], key, value, limit0));
      match childSplit {
        case None =>
          split := None;
          g := GrowInPlace(view0, pool.view, t, i, g0, lo, hi, h, limit0, pool.nextId);
        case Some((sep, newChild)) =>
          split, g := AbsorbSplit(pool, id, sep, newChild, view0, limit0, t, i, g0, lo, hi, h);
      }
    }
  }

  lemma GrownFacts(view: View, view': View, t: Tree, g: seq<Ent>, lo: Key, hi: Option<Key>, h: nat, limit: nat,
                   limit': nat)
    requires Grown(view, view', t, g, lo, hi, h, limit, limit')
    ensures limit <= limit' && 1 <= |g| <= 2 && (|g| == 1 <==> SplitOf(g).None?)
  {
    KeyedKids(view', g, lo, hi, h, limit');
  }

  lemma LocatedAlone(t: Tree, key: Key)
    requires t.Leaf?
    ensures Located(Leaves(t), 0, key)
    ensures forall m :: Splice(Leaves(t), 0, m) == m
  {
  }

  // ---------------------------------------------------------------------------
  // Deleting

  /** The leaf that stands in for a leaf after a removal, unless it emptied and was dropped. */
  ghost function Remains(l: Tree, key: Key, emptied: bool): seq<Tree>
    requires l.Leaf?
  {
    if CutLeaf(l, key).entries == [] && !emptied then [] else [CutLeaf(l, key)]
  }

  /** What deleting `key` below `t` leaves behind. A subtree reports itself emptied exactly when its
      only leaf lost its last entry; an emptied leaf with others around is dropped, page and all. */
  ghost predicate Shrunk(view: View, view': View, t: Tree, g: seq<Ent>, pos: nat, key: Key, emptied: bool,
                         lo: Key, hi: Option<Key>, h: nat, limit: nat)
  {
    && |g| == 1 && Grown(view, view', t, g, lo, hi, h, limit, limit)
    && pos < |Leaves(t)| && Leaves(t)[pos].Leaf?
    && LeavesOf(g) == Splice(Leaves(t), pos, Remains(Leaves(t)[pos], key, emptied))
    && (emptied <==> CutLeaf(Leaves(t)[pos], key).entries == [] && |Leaves(t)| == 1)
    && (CutLeaf(Leaves(t)[pos], key).entries == [] && !emptied ==> Leaves(t)[pos].id !in IdsOf(g))
    && Leaves(t)[pos].id in view'
    && view'[Leaves(t)[pos].id] == LeafPage(CutLeaf(Leaves(t)[pos], key).entries, Leaves(t)[pos].next)
  }

  method DeleteLeaf(pool: BufferPool, id: PageId, page: Page, key: Key,
                    ghost t: Tree, ghost lo: Key, ghost hi: Option<Key>, ghost h: nat)
    returns (found: bool, emptied: bool, ghost g: seq<Ent>)
    requires t.Leaf? && t.id == id && Holding(pool, id) && pool.nextId <= MAX_PAGE_IDS
    requires TreeOk(pool.view, t, lo, hi, h, pool.nextId) && page == pool.view[id]
    modifies pool
    ensures Quiet(pool) && pool.nextId == old(pool.nextId)
    ensures found <==> Holds(t.entries, key)
    ensures !found ==> pool.view == old(pool.view)
    ensures found ==> Shrunk(old(pool.view), pool.view, t, g, 0, key, emptied, lo, hi, h, pool.nextId)
  {
    hide PoolInv, Less, LeafSize, LeafPage, LeavesOf, Grown, IsLeafPage, ReadLeafEntries, ReadLeafSibling,
      SortedEntries, EntriesInRange, SmallEntries, SearchIndex;
    LeafReads(pool.view, t, lo, hi, h, pool.nextId);
    RemoveShape(t.entries, key, lo, hi);
    pool.ViewIsTotal();
    var next := ReadLeafSibling(page);
    var entries := ReadLeafEntries(page);
    found := Holds(entries, key);
    entries := RemoveEntry(entries, key);
    emptied := entries == [];
    if found {
      g := LeafRewritten(pool.view, t, entries, lo, hi, h, pool.nextId);
      var built := BuildLeaf(entries, next);
      WriteBack(pool, id, built.value);
      LocatedAlone(t, key);
    } else {
      g := [];
      Release(pool, id);
    }
  }

  /** The i-th child shrank but stays: nothing to do here. */
  lemma ShrunkInPlace(view: View, view': View, t: Tree, i: nat, g0: seq<Ent>, pos0: nat, key: Key, emptied: bool,
                      lo: Key, hi: Option<Key>, h: nat, limit: nat) returns (g: seq<Ent>)
    requires TreeOk(view, t, lo, hi, h, limit) && t.Node? && i < |t.ents|
    requires Shrunk(view, view', t.ents[i].kid, g0, pos0, key, emptied, KidLo(t.ents, i, lo), KidHi(t.ents, i, hi),
             h - 1, limit)
    requires emptied ==> |t.ents| == 1
    ensures Shrunk(view, view', t, g, |LeavesOf(t.ents[..i])| + pos0, key, emptied, lo, hi, h, limit)
  {
    hide KidsOk, IdsOf, LeavesOf, InternalPage, InternalSize, Refs, Plug, CutLeaf, Less, SortedEntries,
      EntriesInRange, Flat,
      LeafPage, LeafSize, SmallEntries;
    var ents, kid := t.ents, t.ents[i].kid;
    g := GrowInPlace(view, view', t, i, g0, lo, hi, h, limit, limit);
    SiblingsKept(view, view', t, i, g0, lo, hi, h, limit, limit);
    KidAt(view, ents, i, lo, hi, h - 1, limit);
    TreeSorted(view, kid, KidLo(ents, i, lo), KidHi(ents, i, hi), h - 1, limit);
    var a, c := LeavesOf(ents[..i]), LeavesOf(ents[i + 1..]);
    SpliceInside(a, Leaves(kid), c, pos0, Remains(Leaves(kid)[pos0], key, emptied));
    if emptied {
      assert ents[..i] == [] && ents[i + 1..] == [];
      EmptyParts();
    }
  }

  /** The i-th child emptied and the node has others: it is dropped. */
  lemma ShrunkByDrop(view: View, view': View, view'': View, t: Tree, i: nat, g0: seq<Ent>, pos0: nat, key: Key,
                     lo: Key, hi: Option<Key>, h: nat, limit: nat) returns (g: seq<Ent>)
    requires TreeOk(view, t, lo, hi, h, limit) && t.Node? && i < |t.ents| && |t.ents| > 1
    requires Shrunk(view, view', t.ents[i].kid, g0, pos0, key, true, KidLo(t.ents, i, lo), KidHi(t.ents, i, hi), h - 1,
             limit)
    requires view'' == view'[t.id := InternalPage(Refs(Drop(t.ents, i)))]
    ensures Shrunk(view, view'', t, g, |LeavesOf(t.ents[..i])| + pos0, key, false, lo, hi, h, limit)
  {
    hide KidsOk, IdsOf, LeavesOf, InternalPage, InternalSize, Refs, Drop, CutLeaf, Less, SortedEntries,
      EntriesInRange, Flat,
      LeafPage, LeafSize, SmallEntries, Grown, KidLo, KidHi;
    var ents, kid := t.ents, t.ents[i].kid;
    g := NodeDrops(view, view', view'', t, i, g0, lo, hi, h, limit);
    KidAt(view, ents, i, lo, hi, h - 1, limit);
    TreeSorted(view, kid, KidLo(ents, i, lo), KidHi(ents, i, hi), h - 1, limit);
    var a, c := LeavesOf(ents[..i]), LeavesOf(ents[i + 1..]);
    SpliceInside(a, Leaves(kid), c, pos0, []);
    assert Splice(Leaves(kid), pos0, []) == [];
    assert a + [] + c == a + c;
  }

  /** Deletes below page `id`, propagating only that a subtree became empty. */
  method DeleteRecursive(pool: BufferPool, id: PageId, key: Key,
                         ghost t: Tree, ghost lo: Key, ghost hi: Option<Key>, ghost h: nat)
    returns (found: bool, emptied: bool, ghost g: seq<Ent>, ghost pos: nat)
    requires Quiet(pool) && pool.nextId <= MAX_PAGE_IDS
    requires TreeOk(pool.view, t, lo, hi, h, pool.nextId) && t.id == id && InRange(key, lo, hi)
    modifies pool
    ensures Quiet(pool) && pool.nextId == old(pool.nextId)
    ensures Located(Leaves(t), pos, key) && (found <==> Holds(Leaves(t)[pos].entries, key))
    ensures !found ==> pool.view == old(pool.view) && (emptied ==> t.Leaf?)
    ensures found ==> Shrunk(old(pool.view), pool.view, t, g, pos, key, emptied, lo, hi, h, pool.nextId)
    decreases h
  {
    hide PoolInv, Less, InternalSize, InternalPage, LeavesOf, IdsOf, Refs, KidsOk, Shrunk, Drop, Grown, SearchIndex,
      IsInternalPage, ReadInternalEntries, IsLeafPage, SmallInternals, AllBefore, AllAfter, Flat, Routes, InRange;
    ghost var view0, limit := pool.view, pool.nextId;
    var page := Pin(pool, id);
    if t.Leaf? {
      LeafReads(view0, t, lo, hi, h, limit);
    } else {
      NodeReads(view0, t, lo, hi, h, limit);
    }
    if page.ptype == BTreeLeaf {
      found, emptied, g := DeleteLeaf(pool, id, page, key, t, lo, hi, h);
      pos := 0;
      LocatedAlone(t, key);
      return;
    }
    var entries := ReadInternalEntries(page);
    var i := RouteIndex(entries, key);
    Release(pool, id);
    Descend(view0, t, key, i, lo, hi, h, limit);
    ghost var kid, klo, khi := t.ents[i].kid, KidLo(t.ents, i, lo), KidHi(t.ents, i, hi);
    ghost var a, c := LeavesOf(t.ents[..i]), LeavesOf(t.ents[i + 1..]);
    ghost var g0, pos0;
    found, emptied, g0, pos0 := DeleteRecursive(pool, entries[i].child, key, kid, klo, khi, h - 1);
    pos := |a| + pos0;
    LocatedInside(a, Leaves(kid), c, pos0, key);
    SpliceInside(a, Leaves(kid), c, pos0, []);
    if !found {
      return false, false, g0, pos;
    }
    ghost var view1 := pool.view;
    if !emptied {
      g := ShrunkInPlace(view0, view1, t, i, g0, pos0, key, emptied, lo, hi, h, limit);
      return true, false, g, pos;
    }
    NodeKept(view0, view1, t, i, g0, pos0, key, lo, hi, h, limit);
    page := Pin(pool, id);
    entries := ReadInternalEntries(page);
    if i == 0 && |entries| == 1 {
      Release(pool, id);
      g := ShrunkInPlace(view0, view1, t, i, g0, pos0, key, emptied, lo, hi, h, limit);
      return true, true, g, pos;
    }
    if i == 0 {
      entries := [InternalEntry(None, entries[1].child)] + entries[2..];
    } else {
      entries := entries[..i] + entries[i + 1..];
    }
    DropRefs(t.ents, i);
    var built := BuildInternal(entries);
    WriteBack(pool, id, built.value);
    g := ShrunkByDrop(view0, view1, pool.view, t, i, g0, pos0, key, lo, hi, h, limit);
    return true, entries == [], g, pos;
  }

  /** The node's own page is as before when control returns to it. */
  lemma NodeKept(view: View, view': View, t: Tree, i: nat, g: seq<Ent>, pos: nat, key: Key,
                 lo: Key, hi: Option<Key>, h: nat, limit: nat)
    requires TreeOk(view, t, lo, hi, h, limit) && t.Node? && i < |t.ents| && limit <= MAX_PAGE_IDS
    requires Shrunk(view, view', t.ents[i].kid, g, pos, key, true, KidLo(t.ents, i, lo), KidHi(t.ents, i, hi), h - 1,
             limit)
    ensures t.id < limit && t.id in view' && IsInternalPage(view'[t.id])
    ensures ReadInternalEntries(view'[t.id]) == Refs(t.ents) && |Refs(t.ents)| == |t.ents|
    ensures InternalSize(Refs(t.ents)) <= PAGE_CAPACITY
  {
    hide InternalSize, InternalPage, LeavesOf, IdsOf, Plug, KidsOk, IsInternalPage, ReadInternalEntries, CutLeaf;
    SiblingsKept(view, view', t, i, g, lo, hi, h, limit, limit);
    NodeReads(view, t, lo, hi, h, limit);
  }

  // ---------------------------------------------------------------------------
  // Reading

  method GetRecursive(pool: BufferPool, id: PageId, key: Key,
                      ghost t: Tree, ghost lo: Key, ghost hi: Option<Key>, ghost h: nat)
    returns (result: Option<Value>, ghost pos: nat)
    requires Quiet(pool) && pool.nextId <= MAX_PAGE_IDS
    requires TreeOk(pool.view, t, lo, hi, h, pool.nextId) && t.id == id && InRange(key, lo, hi)
    modifies pool
    ensures Quiet(pool) && pool.nextId == old(pool.nextId) && pool.view == old(pool.view)
    ensures Located(Leaves(t), pos, key) && result == FindEntry(Leaves(t)[pos].entries, key)
    decreases h
  {
    hide PoolInv, Less, InternalSize, InternalPage, LeavesOf, IdsOf, Refs, KidsOk, FindEntry,
      IsInternalPage, ReadInternalEntries, IsLeafPage, SmallInternals, AllBefore, AllAfter, Flat, Routes, InRange;
    var page := Peek(pool, id);
    if t.Leaf? {
      LeafReads(pool.view, t, lo, hi, h, pool.nextId);
    } else {
      NodeReads(pool.view, t, lo, hi, h, pool.nextId);
    }
    if page.ptype == BTreeLeaf {
      LocatedAlone(t, key);
      return FindEntry(ReadLeafEntries(page), key), 0;
    }
    var entries := ReadInternalEntries(page);
    var i := RouteIndex(entries, key);
    Descend(pool.view, t, key, i, lo, hi, h, pool.nextId);
    ghost var kid := t.ents[i].kid;
    ghost var a, c := LeavesOf(t.ents[..i]), LeavesOf(t.ents[i + 1..]);
    ghost var pos0;
    result, pos0 := GetRecursive(pool, entries[i].child, key, kid, KidLo(t.ents, i, lo), KidHi(t.ents, i, hi), h - 1);
    LocatedInside(a, Leaves(kid), c, pos0, key);
    SpliceInside(a, Leaves(kid), c, pos0, []);
    pos := |a| + pos0;
  }

  /** Descends to the leaf that would hold `key`, whether or not it does. */
  method FindLeafForKey(pool: BufferPool, id: PageId, key: Key,
                        ghost t: Tree, ghost lo: Key, ghost hi: Option<Key>, ghost h: nat)
    returns (leaf: PageId, ghost pos: nat)
    requires Quiet(pool) && pool.nextId <= MAX_PAGE_IDS
    requires TreeOk(pool.view, t, lo, hi, h, pool.nextId) && t.id == id && InRange(key, lo, hi)
    modifies pool
    ensures Quiet(pool) && pool.nextId == old(pool.nextId) && pool.view == old(pool.view)
    ensures Located(Leaves(t), pos, key) && Leaves(t)[pos].id == leaf
    decreases h
  {
    hide PoolInv, Less, InternalSize, InternalPage, LeavesOf, IdsOf, Refs, KidsOk,
      IsInternalPage, ReadInternalEntries, IsLeafPage, SmallInternals, AllBefore, AllAfter, Flat, Routes, InRange;
    var page := Peek(pool, id);
    if t.Leaf? {
      LeafReads(pool.view, t, lo, hi, h, pool.nextId);
    } else {
      NodeReads(pool.view, t, lo, hi, h, pool.nextId);
    }
    if page.ptype == BTreeLeaf {
      LocatedAlone(t, key);
      return id, 0;
    }
    var entries := ReadInternalEntries(page);
    var i := RouteIndex(entries, key);
    Descend(pool.view, t, key, i, lo, hi, h, pool.nextId);
    ghost var kid := t.ents[i].kid;
    ghost var a, c := LeavesOf(t.ents[..i]), LeavesOf(t.ents[i + 1..]);
    ghost var pos0;
    leaf, pos0 := FindLeafForKey(pool, entries[i].child, key, kid, KidLo(t.ents, i, lo), KidHi(t.ents, i, hi), h - 1);
    LocatedInside(a, Leaves(kid), c, pos0, key);
    SpliceInside(a, Leaves(kid), c, pos0, []);
    pos := |a| + pos0;
  }

  /** Appends the entries below page `id` to `out`, in key order. */
  method ScanRecursive(pool: BufferPool, id: PageId, out: seq<Entry>,
                       ghost t: Tree, ghost lo: Key, ghost hi: Option<Key>, ghost h: nat)
    returns (out': seq<Entry>)
    requires Quiet(pool) && pool.nextId <= MAX_PAGE_IDS
    requires TreeOk(pool.view, t, lo, hi, h, pool.nextId) && t.id == id
    modifies pool
    ensures Quiet(pool) && pool.nextId == old(pool.nextId) && pool.view == old(pool.view)
    ensures out' == out + Flat(Leaves(t))
    decreases h
  {
    hide PoolInv, Less, InternalSize, InternalPage, LeavesOf, IdsOf, Refs, KidsOk,
      IsInternalPage, ReadInternalEntries, IsLeafPage, SmallInternals, Flat;
    ghost var view, limit := pool.view, pool.nextId;
    var page := Peek(pool, id);
    if t.Leaf? {
      LeafReads(view, t, lo, hi, h, limit);
    } else {
      NodeReads(view, t, lo, hi, h, limit);
    }
    if page.ptype == BTreeLeaf {
      FlatOne(t);
      return out + ReadLeafEntries(page);
    }
    var entries := ReadInternalEntries(page);
    ghost var ents := t.ents;
    out' := out;
    EmptyParts();
    assert ents[..0] == [];
    RefsLen(ents);
    for i := 0 to |entries|
      invariant Quiet(pool) && pool.nextId == limit && pool.view == view
      invariant out' == out + Flat(LeavesOf(ents[..i]))
    {
      KidAt(view, ents, i, lo, hi, h - 1, limit);
      ghost var kid := ents[i].kid;
      out' := ScanRecursive(pool, entries[i].child, out', kid, KidLo(ents, i, lo), KidHi(ents, i, hi), h - 1);
      assert ents[..i + 1] == ents[..i] + [ents[i]];
      ConcatParts(ents[..i], [ents[i]]);
      OneKid(ents[i]);
      FlatAppend(LeavesOf(ents[..i]), Leaves(kid));
    }
    assert ents[..|ents|] == ents;
  }

  lemma RefsLen(ents: seq<Ent>)
    ensures |Refs(ents)| == |ents|
    ensures forall i :: 0 <= i < |ents| ==> Refs(ents)[i].child == ents[i].kid.id
  {
  }
}
