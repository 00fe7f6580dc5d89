/** The on-page B+tree: a sorted map with range scans along the sibling chain. */
module BTrees {
  import opened Bytes
  import opened Pages
  import opened Buffers
  import opened Nodes
  import opened Trees
  import opened Entries
  import opened Chains
  import opened TreeSteps
  import opened TreeWalks

  // ---------------------------------------------------------------------------
  // A whole tree in its pages

  /** The meta page names the root. */
  ghost predicate MetaOk(view: View, root: PageId) {
    META_PAGE_ID in view && view[META_PAGE_ID].slots == [Live(ToLE(root, 8))]
  }

  /** No reachable leaf is empty, unless it is the only one. */
  ghost predicate NoEmptyLeaf(leaves: seq<Tree>) {
    |leaves| == 1 || forall i :: 0 <= i < |leaves| ==> leaves[i].Leaf? && leaves[i].entries != []
  }

  /** A leaf that deletion cut off: empty, on a page no reachable node uses, still in the chain. */
  ghost predicate Orphan(view: View, c: Tree, t: Tree) {
    c.Leaf? && c.entries == [] && c.id !in Ids(t) && c.id in view && view[c.id] == LeafPage([], c.next)
  }

  /** `chain` threads every leaf ever created: the reachable ones in order, orphans in between. */
  ghost predicate ChainOk(view: View, chain: seq<Tree>, t: Tree, limit: nat) {
    && Threaded(chain) && Sub(Leaves(t), chain)
    && (forall i :: 0 <= i < |chain| ==> 0 < chain[i].id < limit)
    && (forall i :: 0 <= i < |chain| ==> chain[i] in Leaves(t) || Orphan(view, chain[i], t))
  }

  ghost predicate Image(view: View, t: Tree, h: nat, chain: seq<Tree>, limit: nat) {
    && Total(view) && limit <= MAX_PAGE_IDS && MetaOk(view, t.id)
    && TreeOk(view, t, [], None, h, limit) && ChainOk(view, chain, t, limit) && NoEmptyLeaf(Leaves(t))
  }

  // ---------------------------------------------------------------------------
  // How inserts and deletes move the chain

  lemma {:induction false} SpliceMembers(leaves: seq<Tree>, pos: nat, m: seq<Tree>, c: Tree)
    requires pos < |leaves| && c in leaves && c != leaves[pos]
    ensures c in Splice(leaves, pos, m)
  {
    var i :| 0 <= i < |leaves| && leaves[i] == c;
    var s := Splice(leaves, pos, m);
    if i < pos {
      assert s[i] == c;
    } else {
      assert s[i - 1 + |m|] == c;
    }
  }

  /** Replacing the leaf at `pos` by `m`, in the row and in the chain alike. */
  lemma ChainMoves(view: View, view': View, t: Tree, t': Tree, chain: seq<Tree>, chain': seq<Tree>,
                   pos: nat, q: nat, m: seq<Tree>, n: seq<Tree>, limit: nat, limit': nat)
    requires ChainOk(view, chain, t, limit) && limit <= limit'
    requires pos < |Leaves(t)| && q < |chain| && chain[q] == Leaves(t)[pos]
    requires Sub(Leaves(t)[..pos], chain[..q]) && Sub(Leaves(t)[pos + 1..], chain[q + 1..])
    requires Leaves(t') == Splice(Leaves(t), pos, m) && Sub(m, n)
    requires chain' == chain[..q] + n + chain[q + 1..] && Threaded(chain')
    requires forall i :: 0 <= i < |n| ==> 0 < n[i].id < limit' && (n[i] in m || Orphan(view', n[i], t'))
    requires forall id :: id in Ids(t') ==> id in Ids(t) || limit <= id
    requires forall id: PageId :: id !in Ids(t) && 0 < id < limit ==>
             id in view' && (id in view ==> view'[id] == view[id])
    ensures ChainOk(view', chain', t', limit')
  {
    hide Sub, Leaves, Ids, Orphan, Threaded;
    var a, c := chain[..q], chain[q + 1..];
    SubConcat(Leaves(t)[..pos], a, m, n);
    SubConcat(Leaves(t)[..pos] + m, a + n, Leaves(t)[pos + 1..], c);
    forall i | 0 <= i < |chain'|
      ensures 0 < chain'[i].id < limit' && (chain'[i] in Leaves(t') || Orphan(view', chain'[i], t'))
    {
      if q <= i < q + |n| {
        assert chain'[i] == n[i - q];
        if n[i - q] in m {
          NewMember(Leaves(t), pos, m, n[i - q]);
        }
      } else {
        var j := if i < q then i else i - |n| + 1;
        assert chain'[i] == chain[j] && j != q;
        OldMember(view, view', t, t', chain, pos, q, j, m, limit);
      }
    }
  }

  lemma NewMember(leaves: seq<Tree>, pos: nat, m: seq<Tree>, x: Tree)
    requires pos < |leaves| && x in m
    ensures x in Splice(leaves, pos, m)
  {
    var j :| 0 <= j < |m| && m[j] == x;
    assert Splice(leaves, pos, m)[pos + j] == x;
  }

  /** A leaf of the chain other than the replaced one stays reachable or stays an orphan. */
  lemma OldMember(view: View, view': View, t: Tree, t': Tree, chain: seq<Tree>, pos: nat, q: nat, j: nat, m: seq<Tree>,
                  limit: nat)
    requires Threaded(chain) && q < |chain| && j < |chain| && j != q && 0 < chain[j].id < limit
    requires chain[j] in Leaves(t) || Orphan(view, chain[j], t)
    requires pos < |Leaves(t)| && chain[q] == Leaves(t)[pos] && Leaves(t') == Splice(Leaves(t), pos, m)
    requires forall id :: id in Ids(t') ==> id in Ids(t) || limit <= id
    requires forall id: PageId :: id !in Ids(t) && 0 < id < limit ==>
             id in view' && (id in view ==> view'[id] == view[id])
    ensures chain[j] in Leaves(t') || Orphan(view', chain[j], t')
  {
    hide Leaves, Ids, LeafPage, Splice;
    if chain[j] in Leaves(t) {
      assert chain[j].id != chain[q].id;
      SpliceMembers(Leaves(t), pos, m, chain[j]);
    }
  }

  /** Both leaves a split leaves behind hold entries, and so does an upserted leaf. */
  lemma PutLeafShape(view: View, l: Tree, key: Key, value: Value, newId: PageId, limit: nat)
    requires TreeOk(view, l, [], None, 1, limit) && l.Leaf? && |key| + |value| <= MAX_ENTRY
    ensures var m := PutLeaf(l, key, value, newId);
            && 1 <= |m| <= 2 && (|m| == 2 <==> LeafSize(PutEntry(l.entries, key, value)) > LEAF_CAPACITY)
            && forall i :: 0 <= i < |m| ==> m[i].Leaf? && m[i].entries != []
  {
    hide LeafSize, PutEntry, Less, LeafPage, SortedEntries, EntriesInRange, SmallEntries;
    assert InRange(key, [], None) by { OrderLaws(); }
    PutShape(l.entries, key, value, [], None);
    PutSize(l.entries, key, value);
    var es := PutEntry(l.entries, key, value);
    if LeafSize(es) > LEAF_CAPACITY {
      LeafSplitFits(es);
    }
  }

  lemma NoEmptyAfterPut(leaves: seq<Tree>, pos: nat, m: seq<Tree>)
    requires NoEmptyLeaf(leaves) && pos < |leaves| && m != []
    requires forall i :: 0 <= i < |m| ==> m[i].Leaf? && m[i].entries != []
    ensures NoEmptyLeaf(Splice(leaves, pos, m))
  {
    var s := Splice(leaves, pos, m);
    forall i | 0 <= i < |s| && |leaves| > 1 ensures s[i].Leaf? && s[i].entries != [] {
      if i < pos {
        assert s[i] == leaves[i];
      } else if i >= pos + |m| {
        assert s[i] == leaves[i - |m| + 1];
      }
    }
  }

  /** The whole-tree step of an insert: from what the descent left to the next image. */
  lemma InsertStep(view: View, view': View, t: Tree, t': Tree, h: nat, h': nat, chain: seq<Tree>, pos: nat,
                   key: Key, value: Value, limit: nat, limit': nat) returns (chain': seq<Tree>)
    requires Image(view, t, h, chain, limit) && Total(view') && limit <= limit' <= MAX_PAGE_IDS
    requires Located(Leaves(t), pos, key) && |key| + |value| <= MAX_ENTRY
    requires TreeOk(view', t', [], None, h', limit') && MetaOk(view', t'.id)
    requires Leaves(t') == Splice(Leaves(t), pos, PutLeaf(Leaves(t)[pos], key, value, limit))
    requires forall id :: id in Ids(t') ==> id in Ids(t) || limit <= id
    requires forall id: PageId :: id !in Ids(t) && 0 < id < limit ==> view'[id] == view[id]
    ensures Image(view', t', h', chain', limit')
    ensures ToMap(Flat(Leaves(t'))) == ToMap(Flat(Leaves(t)))[key := value]
  {
    hide TreeOk, Ids, Leaves, Less, PutLeaf, Sub, Orphan, SortedEntries, Flat, ToMap, Threaded, MetaOk;
    TreeSorted(view, t, [], None, h, limit);
    TreeSorted(view', t', [], None, h', limit');
    var l := Leaves(t)[pos];
    LeafSortedOf(view, l, limit);
    var m := PutLeaf(l, key, value, limit);
    PutSplice(Leaves(t), pos, key, value, limit);
    PutLeafShape(view, l, key, value, limit, limit);
    NoEmptyAfterPut(Leaves(t), pos, m);
    var q := SubAt(Leaves(t), chain, pos);
    chain' := chain[..q] + m + chain[q + 1..];
    ThreadPut(chain, q, key, value, limit);
    SubRefl(m);
    forall i | 0 <= i < |m| ensures 0 < m[i].id < limit' {
      assert m[i] == Leaves(t')[pos + i];
      LeafSortedOf(view', Leaves(t')[pos + i], limit');
    }
    ChainMoves(view, view', t, t', chain, chain', pos, q, m, m, limit, limit');
  }

  lemma LeafSortedOf(view: View, l: Tree, limit: nat)
    requires TreeOk(view, l, [], None, 1, limit)
    ensures 0 < l.id < limit && l.Leaf? && SortedEntries(l.entries)
  {
  }

  lemma NoEmptyAfterCut(leaves: seq<Tree>, pos: nat, m: seq<Tree>)
    requires NoEmptyLeaf(leaves) && pos < |leaves|
    requires m == [] || (|m| == 1 && m[0].Leaf? && (m[0].entries != [] || |leaves| == 1))
    ensures NoEmptyLeaf(Splice(leaves, pos, m))
  {
    var s := Splice(leaves, pos, m);
    forall i | 0 <= i < |s| && |leaves| > 1 ensures s[i].Leaf? && s[i].entries != [] {
      if i < pos {
        assert s[i] == leaves[i];
      } else if i >= pos + |m| {
        assert s[i] == leaves[i - |m| + 1];
      }
    }
  }

  /** A leaf with entries makes the whole row denote something. */
  lemma FlatHolds(leaves: seq<Tree>, i: nat)
    requires i < |leaves| && leaves[i].Leaf? && leaves[i].entries != []
    ensures ToMap(Flat(leaves)) != map[]
  {
    hide Flat, ToMap;
    var a, l, b := leaves[..i], leaves[i], leaves[i + 1..];
    assert leaves == a + [l] + b;
    FlatAround(a, [l], b);
    FlatOne(l);
    var es := Flat(leaves);
    assert es[|Flat(a)|] == l.entries[0];
    ToMapKeys(es, l.entries[0].key);
  }

  /** The descent reports an emptied tree exactly if nothing is left in it. */
  lemma EmptiedIff(leaves: seq<Tree>, pos: nat, key: Key, emptied: bool)
    requires pos < |leaves| && leaves[pos].Leaf? && NoEmptyLeaf(leaves)
    requires emptied <==> CutLeaf(leaves[pos], key).entries == [] && |leaves| == 1
    ensures emptied <==> ToMap(Flat(Splice(leaves, pos, Remains(leaves[pos], key, emptied)))) == map[]
  {
    hide Flat, ToMap, RemoveEntry;
    var cut := CutLeaf(leaves[pos], key);
    var rest := Splice(leaves, pos, Remains(leaves[pos], key, emptied));
    if emptied {
      assert rest == [cut];
      FlatOne(cut);
      ToMapEmpty();
    } else if cut.entries != [] {
      assert rest[pos] == cut;
      FlatHolds(rest, pos);
    } else {
      var other := if pos == 0 then 1 else 0;
      assert rest[0] == leaves[other];
      FlatHolds(rest, 0);
    }
  }

  /** The whole-tree step of a delete that found its key. */
  lemma DeleteStep(view: View, view': View, t: Tree, t': Tree, h: nat, h': nat, chain: seq<Tree>, pos: nat,
                   key: Key, emptied: bool, limit: nat) returns (chain': seq<Tree>)
    requires Image(view, t, h, chain, limit) && Total(view')
    requires Located(Leaves(t), pos, key)
    requires TreeOk(view', t', [], None, h', limit) && MetaOk(view', t'.id)
    requires Leaves(t') == Splice(Leaves(t), pos, Remains(Leaves(t)[pos], key, emptied))
    requires emptied <==> CutLeaf(Leaves(t)[pos], key).entries == [] && |Leaves(t)| == 1
    requires CutLeaf(Leaves(t)[pos], key).entries == [] && !emptied ==> Leaves(t)[pos].id !in Ids(t')
    requires view'[Leaves(t)[pos].id] == LeafPage(CutLeaf(Leaves(t)[pos], key).entries, Leaves(t)[pos].next)
    requires forall id :: id in Ids(t') ==> id in Ids(t) || limit <= id
    requires forall id: PageId :: id !in Ids(t) && 0 < id < limit ==> view'[id] == view[id]
    ensures Image(view', t', h', chain', limit)
    ensures ToMap(Flat(Leaves(t'))) == ToMap(Flat(Leaves(t))) - {key}
  {
    hide TreeOk, Ids, Leaves, Less, Sub, SortedEntries, Flat, ToMap, Threaded, MetaOk, RemoveEntry, LeafPage;
    TreeSorted(view, t, [], None, h, limit);
    var l := Leaves(t)[pos];
    LeafSortedOf(view, l, limit);
    var cut, m := CutLeaf(l, key), Remains(l, key, emptied);
    CutSplice(Leaves(t), pos, key, m);
    NoEmptyAfterCut(Leaves(t), pos, m);
    var q := SubAt(Leaves(t), chain, pos);
    ThreadReplace(chain, q, cut);
    chain' := chain[..q] + [cut] + chain[q + 1..];
    assert chain' == chain[q := cut];
    SubOfOne(m, cut);
    ChainMoves(view, view', t, t', chain, chain', pos, q, m, [cut], limit, limit);
  }

  lemma SubOfOne(m: seq<Tree>, l: Tree)
    requires l.Leaf? && (m == [l] || (m == [] && l.entries == []))
    ensures Sub(m, [l])
  {
    assert [l][1..] == [] && Sub([], []);
    assert m != [] ==> m[1..] == [];
  }

  /** Every page of the chain is a leaf page that points to the next one; a page off the tree is empty. */
  lemma ChainOnPages(view: View, t: Tree, h: nat, chain: seq<Tree>, limit: nat, q: nat)
    requires Image(view, t, h, chain, limit) && q < |chain|
    ensures chain[q].Leaf? && chain[q].id in view && chain[q].id < limit && NextOf(chain, q) < limit
    ensures IsLeafPage(view[chain[q].id]) && ReadLeafEntries(view[chain[q].id]) == chain[q].entries
    ensures ReadLeafSibling(view[chain[q].id]) == NextOf(chain, q)
  {
    hide Ids, Leaves, Less, Sub, IsLeafPage, ReadLeafEntries, ReadLeafSibling, LeafPage;
    var c := chain[q];
    LeafAt(chain, q);
    if c in Leaves(t) {
      TreeSorted(view, t, [], None, h, limit);
      LeafReads(view, c, [], None, 1, limit);
    } else {
      LeafPageReads([], c.next);
    }
  }

  /** From the leaf at `pos`, sibling pointers lead through exactly the later reachable leaves, in
      order, with nothing but empty leaves in between, to the end of the chain. */
  lemma SiblingsReachTheRest(view: View, t: Tree, h: nat, chain: seq<Tree>, limit: nat, pos: nat) returns (q: nat)
    requires Image(view, t, h, chain, limit) && pos < |Leaves(t)|
    ensures q < |chain| && chain[q] == Leaves(t)[pos]
    ensures Sub(Leaves(t)[pos + 1..], chain[q + 1..])
    ensures Flat(chain[..q]) == Flat(Leaves(t)[..pos]) && Flat(chain[q..]) == Flat(Leaves(t)[pos..])
    ensures forall i :: q <= i < |chain| ==> chain[i].id in view && IsLeafPage(view[chain[i].id])
    ensures forall i :: q <= i < |chain| ==> ReadLeafSibling(view[chain[i].id]) == NextOf(chain, i)
  {
    hide Leaves, Less, Sub, IsLeafPage, ReadLeafEntries, ReadLeafSibling, TreeOk, Flat, Threaded, Orphan, NoEmptyLeaf,
      MetaOk, NextOf;
    q := SubAt(Leaves(t), chain, pos);
    SubFlat(Leaves(t)[..pos], chain[..q]);
    SubFlat(Leaves(t)[pos + 1..], chain[q + 1..]);
    var l := chain[q];
    assert chain[q..] == [l] + chain[q + 1..] && Leaves(t)[pos..] == [l] + Leaves(t)[pos + 1..];
    FlatAppend([l], chain[q + 1..]);
    FlatAppend([l], Leaves(t)[pos + 1..]);
    forall i | q <= i < |chain|
      ensures chain[i].id in view && IsLeafPage(view[chain[i].id])
      ensures ReadLeafSibling(view[chain[i].id]) == NextOf(chain, i)
    {
      ChainOnPages(view, t, h, chain, limit, i);
    }
  }

  // ---------------------------------------------------------------------------
  // The tree

  ghost function StoreView(store: Store): View {
    imap id: PageId :: Stored(store, id)
  }

  predicate HasLiveSlot(p: Page) {
    exists i :: 0 <= i < |p.slots| && p.slots[i].Live?
  }

  lemma ImageMeta(view: View, t: Tree, h: nat, chain: seq<Tree>, limit: nat)
    requires Image(view, t, h, chain, limit)
    ensures HasLiveSlot(view[META_PAGE_ID])
  {
    assert view[META_PAGE_ID].slots[0].Live?;
  }

  /** A single empty leaf is a tree. */
  lemma EmptyImage(view: View, view': View, root: PageId)
    requires Total(view) && Total(view') && 0 < root && root + 1 <= MAX_PAGE_IDS
    requires view'[root] == LeafPage([], NO_SIBLING) && MetaOk(view', root)
    ensures var t := Leaf(root, NO_SIBLING, []);
            Image(view', t, 1, [t], root + 1) && Flat(Leaves(t)) == [] && ToMap(Flat(Leaves(t))) == map[]
  {
    hide LeafPage;
    var t := Leaf(root, NO_SIBLING, []);
    assert LeafSize([]) == 0;
    SubOfOne([t], t);
    FlatOne(t);
    ToMapEmpty();
  }

  /** A split of the root: the two halves hang below a new root on a new page. */
  lemma RootGrows(view: View, view': View, view'': View, t: Tree, g: seq<Ent>, h: nat, limit: nat, limit': nat)
    requires Grown(view, view', t, g, [], None, h, limit, limit') && |g| == 2 && h >= 1 && 0 < limit
    requires limit' < MAX_PAGE_IDS
    requires view'' == view'[limit' := InternalPage(Refs(g))][META_PAGE_ID := MetaPage(limit')]
    ensures TreeOk(view'', Node(limit', g), [], None, h + 1, limit' + 1) && MetaOk(view'', limit') && Total(view'')
    ensures Refs(g) == [InternalEntry(None, t.id), InternalEntry(g[1].key, g[1].kid.id)]
    ensures InternalSize(Refs(g)) <= PAGE_CAPACITY && Leaves(Node(limit', g)) == LeavesOf(g)
    ensures forall id :: id in Ids(Node(limit', g)) ==> id in Ids(t) || limit <= id
    ensures forall id: PageId :: id !in Ids(t) && 0 < id < limit ==> id in view && view''[id] == view[id]
  {
    hide KidsOk, IdsOf, InternalSize, InternalPage;
    KeyedKids(view', g, [], None, h, limit');
    KidIdsBelow(view', g, [], None, h, limit');
    assert InternalSize(Refs(g)) <= PAGE_CAPACITY by {
      RefsSmall(view', g, [], None, h, limit');
      InternalSizeBounds(Refs(g));
    }
    RebuildOk(view', view'', limit', g, [], None, h, limit', limit' + 1);
  }

  lemma RootStays(view: View, view': View, t: Tree, g: seq<Ent>, h: nat, limit: nat, limit': nat)
    requires Grown(view, view', t, g, [], None, h, limit, limit') && |g| == 1 && 0 < limit
    requires MetaOk(view, t.id) && META_PAGE_ID !in Ids(t)
    ensures TreeOk(view', g[0].kid, [], None, h, limit') && MetaOk(view', g[0].kid.id) && Total(view')
    ensures Leaves(g[0].kid) == LeavesOf(g) && Ids(g[0].kid) == IdsOf(g)
    ensures forall id :: id in Ids(g[0].kid) ==> id in Ids(t) || limit <= id
    ensures forall id: PageId :: id !in Ids(t) && 0 < id < limit ==> id in view && view'[id] == view[id]
  {
    hide KidsOk, IdsOf, LeavesOf, TreeOk;
    KeyedKids(view', g, [], None, h, limit');
    assert g == [Ent(None, g[0].kid)];
    OneOk(view', g[0].kid, [], None, h, limit');
  }

  lemma ShrunkFacts(view: View, view': View, t: Tree, g: seq<Ent>, pos: nat, key: Key, emptied: bool, h: nat,
                    limit: nat)
    requires Shrunk(view, view', t, g, pos, key, emptied, [], None, h, limit)
    ensures |g| == 1 && Grown(view, view', t, g, [], None, h, limit, limit) && g[0].kid.id == t.id
    ensures pos < |Leaves(t)| && Leaves(t)[pos].Leaf?
    ensures LeavesOf(g) == Splice(Leaves(t), pos, Remains(Leaves(t)[pos], key, emptied))
    ensures emptied <==> CutLeaf(Leaves(t)[pos], key).entries == [] && |Leaves(t)| == 1
    ensures CutLeaf(Leaves(t)[pos], key).entries == [] && !emptied ==> Leaves(t)[pos].id !in IdsOf(g)
    ensures Leaves(t)[pos].id in view'
    ensures view'[Leaves(t)[pos].id] == LeafPage(CutLeaf(Leaves(t)[pos], key).entries, Leaves(t)[pos].next)
    ensures emptied ==> |LeavesOf(g)| == 1
  {
  }

  method SetRootId(pool: BufferPool, newRoot: PageId)
    requires Quiet(pool) && 0 < pool.nextId
    modifies pool
    ensures Quiet(pool) && pool.nextId == old(pool.nextId)
    ensures pool.view == old(pool.view)[META_PAGE_ID := MetaPage(newRoot)]
  {
    var meta := Pin(pool, META_PAGE_ID);
    WriteBack(pool, META_PAGE_ID, MetaPage(newRoot));
  }

  /** Shrinks an emptied tree by one level: the only child of an internal root becomes the root. */
  method CollapseRoot(pool: BufferPool, root: PageId, ghost t: Tree, ghost h: nat)
    returns (ghost t': Tree, ghost h': nat)
    requires Quiet(pool) && pool.nextId <= MAX_PAGE_IDS && t.id == root && MetaOk(pool.view, root)
    requires TreeOk(pool.view, t, [], None, h, pool.nextId) && (t.Node? ==> |Leaves(t)| == 1)
    modifies pool
    ensures Quiet(pool) && pool.nextId == old(pool.nextId) && Total(pool.view)
    ensures TreeOk(pool.view, t', [], None, h', pool.nextId) && MetaOk(pool.view, t'.id)
    ensures Leaves(t') == Leaves(t) && Ids(t') <= Ids(t) && h' == if t.Node? then h - 1 else h
    ensures forall id: PageId :: id != META_PAGE_ID ==> pool.view[id] == old(pool.view)[id]
    ensures t.Leaf? ==> t' == t && h' == h && pool.view == old(pool.view)
  {
    hide PoolInv, KidsOk, IdsOf, LeavesOf, IsInternalPage, ReadInternalEntries, IsLeafPage, InternalPage, LeafPage,
      InternalSize,
      Refs, SmallInternals;
    pool.ViewIsTotal();
    IdsBelow(pool.view, t, [], None, h, pool.nextId);
    var page := Peek(pool, root);
    t', h' := t, h;
    if t.Leaf? {
      LeafReads(pool.view, t, [], None, h, pool.nextId);
    } else {
      NodeReads(pool.view, t, [], None, h, pool.nextId);
    }
    if page.ptype == BTreeInternal {
      var entries := ReadInternalEntries(page);
      SingleLeaf(pool.view, t.ents, [], None, h - 1, pool.nextId);
      RefsLen(t.ents);
      t', h' := t.ents[0].kid, h - 1;
      ghost var view0 := pool.view;
      SetRootId(pool, entries[0].child);
      TreeFrame(view0, pool.view, t', [], None, h', pool.nextId, pool.nextId);
    }
  }

  /** Allocates a page and fills it. */
  method Allocate(pool: BufferPool, page: Page) returns (id: PageId)
    requires Quiet(pool)
    modifies pool
    ensures Quiet(pool) && id == old(pool.nextId) && pool.nextId == id + 1
    ensures pool.view == old(pool.view)[id := page]
  {
    hide PoolInv;
    pool.NotExhausted();
    var opt := pool.NewPinned(page.ptype);
    id := opt.value;
    pool.PageMut(id, page);
    var ok := pool.Unpin(id, true);
  }

  /** Gives a blank meta page an empty leaf as root; leaves any other meta page alone. */
  method OpenRoot(pool: BufferPool) returns (root: Option<PageId>)
    requires Quiet(pool) && 0 < pool.nextId
    requires META_PAGE_ID in pool.view && (pool.view[META_PAGE_ID].slots == [] ==> pool.capacity >= 2)
    requires pool.view[META_PAGE_ID].slots == [] || HasLiveSlot(pool.view[META_PAGE_ID])
    modifies pool
    ensures Quiet(pool) && (root.Some? <==> old(pool.view[META_PAGE_ID].slots) == [])
    ensures root.None? ==> pool.view == old(pool.view) && pool.nextId == old(pool.nextId)
    ensures root.Some? ==> root.value == old(pool.nextId) && pool.nextId == root.value + 1 && Total(pool.view)
    ensures root.Some? ==> pool.view[root.value] == LeafPage([], NO_SIBLING) && MetaOk(pool.view, root.value)
  {
    hide PoolInv, LeafPage, ToLE, LeafSize;
    LeafSizeBounds([]);
    pool.ViewIsTotal();
    var meta := Pin(pool, META_PAGE_ID);
    if HasLiveSlot(meta) {
      var ok := pool.Unpin(META_PAGE_ID, true);
      return None;
    }
    var leaf := BuildLeaf([], NO_SIBLING);
    var newMeta := Insert(meta, ToLE(pool.nextId, 8));
    var id := WriteSplit(pool, META_PAGE_ID, newMeta.value, leaf.value);
    return Some(id);
  }

  /** The tree a pool holds once its meta page has a root. */
  method OpenTree(pool: BufferPool, ghost t: Tree, ghost h: nat, ghost leaves: seq<Tree>)
    returns (ghost t': Tree, ghost h': nat, ghost leaves': seq<Tree>)
    requires Quiet(pool) && 0 < pool.nextId < MAX_PAGE_IDS && Total(pool.view)
    requires pool.view[META_PAGE_ID].slots == [] ==> pool.capacity >= 2
    requires pool.view[META_PAGE_ID].slots == [] || Image(pool.view, t, h, leaves, pool.nextId)
    modifies pool
    ensures Quiet(pool) && Image(pool.view, t', h', leaves', pool.nextId)
    ensures old(pool.nextId) <= pool.nextId <= old(pool.nextId) + 1
    ensures old(pool.view)[META_PAGE_ID].slots == [] ==>
            Flat(Leaves(t')) == [] && ToMap(Flat(Leaves(t'))) == map[] && h' == 1
    ensures old(pool.view)[META_PAGE_ID].slots != [] ==>
            t' == t && h' == h && leaves' == leaves && pool.nextId == old(pool.nextId)
  {
    hide PoolInv, Image, LeafPage, MetaOk, Flat, Leaves, ToMap, BufferPool.Bounds, HasLiveSlot;
    t', h', leaves' := t, h, leaves;
    ghost var view := pool.view;
    if view[META_PAGE_ID].slots != [] {
      ImageMeta(view, t, h, leaves, pool.nextId);
    }
    var root := OpenRoot(pool);
    if root.Some? {
      t', h' := Leaf(root.value, NO_SIBLING, []), 1;
      leaves' := [t'];
      EmptyImage(view, pool.view, root.value);
    }
  }

  /** Collects the entries of one leaf with start <= key < end, stopping at the first key past `end`. */
  method ScanLeaf(entries: seq<Entry>, start: Key, end: Key, out: seq<Entry>)
    returns (out': seq<Entry>, reachedEnd: bool, ghost stop: nat)
    ensures stop <= |entries| && out' == out + Window(entries[..stop], start, end)
    ensures reachedEnd <==> stop < |entries|
    ensures reachedEnd ==> !Less(entries[stop].key, end)
  {
    hide Less;
    out' := out;
    for i := 0 to |entries|
      invariant out' == out + Window(entries[..i], start, end)
    {
      if !Less(entries[i].key, end) {
        return out', true, i;
      }
      assert entries[..i + 1][..i] == entries[..i];
      if !Less(entries[i].key, start) {
        out' := out' + [entries[i]];
      }
    }
    return out', false, |entries|;
  }

  /** Entries of the chain before the starting leaf are out of the window, so scanning may start there. */
  lemma ScanStarts(view: View, t: Tree, h: nat, chain: seq<Tree>, limit: nat, pos: nat, start: Key, end: Key)
    returns (q: nat)
    requires Image(view, t, h, chain, limit) && Located(Leaves(t), pos, start)
    ensures q < |chain| && chain[q] == Leaves(t)[pos] && Window(Flat(chain[..q]), start, end) == []
    ensures Flat(chain) == Flat(Leaves(t)) && SortedEntries(Flat(chain))
  {
    hide Leaves, Sub, IsLeafPage, ReadLeafSibling, TreeOk, Flat, NoEmptyLeaf, Less, Threaded, Orphan;
    q := SiblingsReachTheRest(view, t, h, chain, limit, pos);
    WindowEmpty(Flat(chain[..q]), start, end);
    SubFlat(Leaves(t), chain);
    TreeSorted(view, t, [], None, h, limit);
  }

  lemma FlatSnoc(chain: seq<Tree>, i: nat)
    requires i < |chain| && chain[i].Leaf?
    ensures Flat(chain[..i + 1]) == Flat(chain[..i]) + chain[i].entries
    ensures Flat(chain[..i]) + chain[i].entries <= Flat(chain)
  {
    hide Flat;
    FlatOne(chain[i]);
    FlatAppend(chain[..i], [chain[i]]);
    FlatAppend(chain[..i + 1], chain[i + 1..]);
    assert chain[..i + 1] == chain[..i] + [chain[i]];
    assert chain == chain[..i + 1] + chain[i + 1..];
  }

  /** Stopping inside the i-th leaf at a key past the end loses nothing. */
  lemma ScanStops(all: seq<Entry>, done: seq<Entry>, entries: seq<Entry>, stop: nat, start: Key, end: Key)
    requires SortedEntries(all) && done + entries <= all && stop < |entries| && !Less(entries[stop].key, end)
    ensures Window(all, start, end) == Window(done, start, end) + Window(entries[..stop], start, end)
  {
    hide Less, Window;
    var n := |done| + stop;
    assert all[n] == (done + entries)[n] == entries[stop];
    WindowCut(all, n, start, end);
    assert all[..n] == done + entries[..stop];
    WindowAppend(done, entries[..stop], start, end);
  }

  class BTree {
    const pool: BufferPool
    ghost var tree: Tree
    ghost var height: nat
    /** Every leaf ever created, left to right. */
    ghost var chain: seq<Tree>

    ghost predicate Valid()
      reads this, pool
    {
      Quiet(pool) && Image(pool.view, tree, height, chain, pool.nextId)
    }

    /** The reachable entries in key order. */
    ghost function Listing(): seq<Entry>
      reads this
    {
      Flat(Leaves(tree))
    }

    ghost function Contents(): map<Key, Value>
      reads this
    {
      ToMap(Listing())
    }

    /** Opens a tree over a page store: an empty leaf as root when the meta page is blank, otherwise
        the tree whose image the store holds. */
    constructor Open(store: Store, nextId: PageId, capacity: nat, ghost t: Tree, ghost h: nat, ghost leaves: seq<Tree>)
      requires capacity >= 1 && (Stored(store, META_PAGE_ID).slots == [] ==> capacity >= 2)
      requires 0 < nextId < MAX_PAGE_IDS && forall id :: id in store ==> id < nextId
      requires Stored(store, META_PAGE_ID).slots == [] || Image(StoreView(store), t, h, leaves, nextId)
      ensures Valid() && fresh(pool) && pool.capacity == capacity && nextId <= pool.nextId <= nextId + 1
      ensures Stored(store, META_PAGE_ID).slots == [] ==> Listing() == [] && Contents() == map[] && height == 1
      ensures Stored(store, META_PAGE_ID).slots != [] ==>
                tree == t && height == h && chain == leaves && pool.nextId == nextId
    {
      hide PoolInv, Image, Flat, Leaves, ToMap;
      pool := new BufferPool(store, nextId, capacity);
      tree, height, chain := t, h, leaves;
      new;
      assert pool.view == StoreView(store);
      tree, height, chain := OpenTree(pool, t, h, leaves);
    }

    /** The listing that `Contents` presents as a map is strictly sorted. */
    lemma ListingSorted()
      requires Valid()
      ensures SortedEntries(Listing())
    {
      TreeSorted(pool.view, tree, [], None, height, pool.nextId);
    }

    /** The listing holds exactly the pairs of the map. */
    lemma ListsContents()
      requires Valid()
      ensures forall e :: e in Listing() <==> e.key in Contents() && Contents()[e.key] == e.value
    {
      hide ToMap, SortedEntries, Flat, Leaves;
      ListingSorted();
      forall e ensures e in Listing() <==> e.key in Contents() && Contents()[e.key] == e.value {
        MapMember(Listing(), e);
      }
    }

    lemma WindowContents(start: Key, end: Key)
      requires Valid()
      ensures SortedEntries(Window(Listing(), start, end))
      ensures forall e :: e in Window(Listing(), start, end) <==>
                && e.key in Contents() && Contents()[e.key] == e.value
                && !Less(e.key, start) && Less(e.key, end)
    {
      hide ToMap, SortedEntries, Flat, Leaves, Window, Less;
      ListingSorted();
      ListsContents();
      WindowSorted(Listing(), start, end);
      forall e
        ensures e in Window(Listing(), start, end) <==> e in Listing() && !Less(e.key, start) && Less(e.key, end)
      {
        WindowMembers(Listing(), start, end, e);
      }
    }

    method RootId() returns (id: PageId)
      requires Valid()
      modifies pool
      ensures Valid() && id == tree.id && pool.view == old(pool.view) && pool.nextId == old(pool.nextId)
    {
      hide PoolInv, TreeOk, ChainOk, NoEmptyLeaf, ToLE, FromLE;
      RootBounds(pool.view, tree, height, pool.nextId);
      var meta := Peek(pool, META_PAGE_ID);
      var bytes := Pages.Get(meta, 0);
      PowWidths();
      FromToLE(tree.id, 8);
      id := FromLE(bytes.value);
    }

    method Get(key: Key) returns (result: Option<Value>)
      requires Valid()
      modifies pool
      ensures Valid() && pool.view == old(pool.view) && pool.nextId == old(pool.nextId)
      ensures result == if key in Contents() then Some(Contents()[key]) else None
    {
      hide PoolInv, TreeOk, ChainOk, NoEmptyLeaf, Less, Flat, ToMap, Leaves, FindEntry, SortedEntries, AllBefore,
        AllAfter;
      var root := RootId();
      AnyKeyInRange(key);
      ghost var pos;
      result, pos := GetRecursive(pool, root, key, tree, [], None, height);
      TreeSorted(pool.view, tree, [], None, height, pool.nextId);
      LookupSplice(Leaves(tree), pos, key);
      LeafSortedOf(pool.view, Leaves(tree)[pos], pool.nextId);
      FindIsLookup(Leaves(tree)[pos].entries, key);
    }

    /** Upserts. Entries small enough that every by-count split fits never fail. */
    method Insert(key: Key, value: Value)
      requires Valid() && pool.capacity >= 2 && pool.nextId + height < MAX_PAGE_IDS
      requires |key| + |value| <= MAX_ENTRY
      modifies this, pool
      ensures Valid() && Contents() == old(Contents())[key := value]
      ensures pool.nextId <= old(pool.nextId + height) + 1 && height <= old(height) + 1
    {
      hide PoolInv, TreeOk, ChainOk, NoEmptyLeaf, Less, Flat, ToMap, Leaves, LeavesOf, Ids, IdsOf, KidsOk, PutLeaf,
        Grown,
        InternalPage, InternalSize, Refs, Located, MetaOk;
      ghost var view0, limit0, t0 := pool.view, pool.nextId, tree;
      RootBounds(view0, t0, height, limit0);
      IdsBelow(view0, t0, [], None, height, limit0);
      AnyKeyInRange(key);
      var root := RootId();
      var split, g, pos := InsertRecursive(pool, root, key, value, t0, [], None, height);
      ghost var view1, limit1 := pool.view, pool.nextId;
      GrownFacts(view0, view1, t0, g, [], None, height, limit0, limit1);
      if split.Some? {
        var (sep, newChild) := split.value;
        ghost var view2: View := view1[limit1 := InternalPage(Refs(g))][META_PAGE_ID := MetaPage(limit1)];
        RootGrows(view0, view1, view2, t0, g, height, limit0, limit1);
        var built := BuildInternal([InternalEntry(None, root), InternalEntry(Some(sep), newChild)]);
        var newRoot := Allocate(pool, built.value);
        SetRootId(pool, newRoot);
        tree, height := Node(newRoot, g), height + 1;
      } else {
        RootStays(view0, view1, t0, g, height, limit0, limit1);
        tree := g[0].kid;
      }
      chain := InsertStep(view0, pool.view, t0, tree, old(height), height, chain, pos, key, value, limit0, pool.nextId);
    }

    /** Removes a key if present and says whether it was. Removing the last one takes one level off a tree
        that has more than one. */
    method Delete(key: Key) returns (found: bool)
      requires Valid()
      modifies this, pool
      ensures Valid() && found == (key in old(Contents())) && Contents() == old(Contents()) - {key}
      ensures pool.nextId == old(pool.nextId)
      ensures height == if found && Contents() == map[] && old(height) > 1 then old(height) - 1 else old(height)
    {
      hide PoolInv, TreeOk, ChainOk, NoEmptyLeaf, Less, Flat, ToMap, Leaves, LeavesOf, Ids, IdsOf, KidsOk, CutLeaf,
        Grown, Shrunk, IsInternalPage, ReadInternalEntries, Refs, Holds, SortedEntries, Remains, LeafPage, IsLeafPage;
      ghost var view0, limit, t0 := pool.view, pool.nextId, tree;
      RootBounds(view0, t0, height, limit);
      IdsBelow(view0, t0, [], None, height, limit);
      AnyKeyInRange(key);
      TreeSorted(view0, t0, [], None, height, limit);
      var root := RootId();
      ghost var g, pos;
      var emptied;
      found, emptied, g, pos := DeleteRecursive(pool, root, key, t0, [], None, height);
      ghost var l := Leaves(t0)[pos];
      LeafSortedOf(view0, l, limit);
      HoldsIsMember(l.entries, key);
      LookupSplice(Leaves(t0), pos, key);
      ghost var t1, h1 := t0, height;
      if found {
        ShrunkFacts(view0, pool.view, t0, g, pos, key, emptied, height, limit);
        RootStays(view0, pool.view, t0, g, height, limit, limit);
        t1 := g[0].kid;
        LevelsOf(pool.view, t1, height, limit);
        RowNotEmpty(view0, t0, height, chain, limit);
        EmptiedIff(Leaves(t0), pos, key, emptied);
      }
      if emptied {
        t1, h1 := CollapseRoot(pool, root, t1, height);
      }
      if found {
        chain := DeleteStep(view0, pool.view, t0, t1, height, h1, chain, pos, key, emptied, limit);
        tree, height := t1, h1;
      } else {
        assert Contents() - {key} == Contents();
      }
    }

    /** Full in-order traversal. */
    method ScanAll() returns (out: seq<Entry>)
      requires Valid()
      modifies pool
      ensures Valid() && pool.view == old(pool.view) && pool.nextId == old(pool.nextId)
      ensures out == Listing() && SortedEntries(out)
      ensures forall e :: e in out <==> e.key in Contents() && Contents()[e.key] == e.value
    {
      hide PoolInv, TreeOk, ChainOk, NoEmptyLeaf, Flat, Leaves, MetaOk, SortedEntries, ToMap;
      var root := RootId();
      out := ScanRecursive(pool, root, [], tree, [], None, height);
      ListingSorted();
      ListsContents();
    }

    /** Bounded scan: one descent, then along the sibling chain. Terminates, and returns exactly the
        full listing filtered to start <= key < end. */
    method ScanRange(start: Key, end: Key) returns (out: seq<Entry>)
      requires Valid()
      modifies pool
      ensures Valid() && pool.view == old(pool.view) && pool.nextId == old(pool.nextId)
      ensures out == Window(Listing(), start, end) && SortedEntries(out)
      ensures forall e :: e in out <==>
                && e.key in Contents() && Contents()[e.key] == e.value
                && !Less(e.key, start) && Less(e.key, end)
    {
      hide PoolInv, TreeOk, ChainOk, NoEmptyLeaf, Flat, Leaves, MetaOk, Less, Window, SortedEntries, AllBefore,
        AllAfter, ToMap, IsLeafPage, ReadLeafEntries, ReadLeafSibling;
      ghost var view, limit := pool.view, pool.nextId;
      var root := RootId();
      WindowContents(start, end);
      AnyKeyInRange(start);
      var leafId, pos := FindLeafForKey(pool, root, start, tree, [], None, height);
      ghost var i := ScanStarts(view, tree, height, chain, limit, pos, start, end);
      out := [];
      while true
        invariant Valid() && pool.view == view && pool.nextId == limit
        invariant i < |chain| && leafId == chain[i].id
        invariant out == Window(Flat(chain[..i]), start, end)
        decreases |chain| - i
      {
        ChainOnPages(view, tree, height, chain, limit, i);
        FlatSnoc(chain, i);
        var page := Peek(pool, leafId);
        var entries, next := ReadLeafEntries(page), ReadLeafSibling(page);
        ghost var done, stop := Flat(chain[..i]), 0;
        var reachedEnd;
        out, reachedEnd, stop := ScanLeaf(entries, start, end, out);
        if reachedEnd {
          ScanStops(Flat(chain), done, entries, stop, start, end);
          break;
        }
        assert entries[..stop] == entries;
        WindowAppend(done, entries, start, end);
        if next == NO_SIBLING {
          LastOfChain(view, tree, height, chain, limit, i);
          assert chain[..i + 1] == chain;
          break;
        }
        i := i + 1;
        leafId := next;
      }
    }

    /** The height, found along the leftmost path: every leaf is at that depth. */
    method Depth() returns (depth: nat)
      requires Valid()
      modifies pool
      ensures Valid() && pool.view == old(pool.view) && pool.nextId == old(pool.nextId)
      ensures depth == height
    {
      hide PoolInv, TreeOk, ChainOk, NoEmptyLeaf, Leaves, MetaOk, Less, KidsOk, IdsOf, LeavesOf, Refs,
        IsInternalPage, ReadInternalEntries, IsLeafPage, SmallInternals;
      ghost var view, limit := pool.view, pool.nextId;
      var id := RootId();
      depth := 1;
      ghost var t, hi, h := tree, None, height;
      while true
        invariant Valid() && pool.view == view && pool.nextId == limit
        invariant TreeOk(view, t, [], hi, h, limit) && t.id == id && depth + h == height + 1
        decreases h
      {
        LeftmostKid(view, t, hi, h, limit);
        var page := Peek(pool, id);
        if page.ptype != BTreeInternal {
          break;
        }
        id := ReadInternalEntries(page)[0].child;
        depth := depth + 1;
        hi := KidHi(t.ents, 0, hi);
        t, h := t.ents[0].kid, h - 1;
      }
    }

    /** After a flush the page store alone holds the tree, ready to be opened again. */
    method Flush()
      requires Valid()
      modifies pool
      ensures Valid() && pool.view == old(pool.view) && pool.nextId == old(pool.nextId)
      ensures StoreView(pool.store) == pool.view && Image(StoreView(pool.store), tree, height, chain, pool.nextId)
      ensures forall id :: id in pool.store ==> id < pool.nextId
    {
      hide PoolInv, TreeOk, ChainOk, NoEmptyLeaf, MetaOk;
      pool.FlushAll();
      assert StoreView(pool.store) == pool.view;
    }
  }

  lemma LastOfChain(view: View, t: Tree, h: nat, chain: seq<Tree>, limit: nat, i: nat)
    requires Image(view, t, h, chain, limit) && i < |chain|
    ensures NextOf(chain, i) == NO_SIBLING <==> i + 1 == |chain|
    ensures i + 1 < |chain| ==> NextOf(chain, i) == chain[i + 1].id
  {
    hide TreeOk, Sub, Leaves, Orphan;
  }

  lemma LeftmostKid(view: View, t: Tree, hi: Option<Key>, h: nat, limit: nat)
    requires TreeOk(view, t, [], hi, h, limit) && limit <= MAX_PAGE_IDS
    ensures 0 < t.id < limit && h >= 1 && t.id in view
    ensures t.Leaf? ==> h == 1 && view[t.id].ptype == BTreeLeaf
    ensures t.Node? ==> h > 1 && view[t.id].ptype == BTreeInternal && IsInternalPage(view[t.id]) && t.ents != []
    ensures t.Node? ==>
              var es := ReadInternalEntries(view[t.id]); es != [] && es[0].child == t.ents[0].kid.id
    ensures t.Node? ==> TreeOk(view, t.ents[0].kid, [], KidHi(t.ents, 0, hi), h - 1, limit)
  {
    hide KidsOk, IdsOf, LeavesOf, IsInternalPage, ReadInternalEntries, InternalPage, InternalSize, SmallInternals;
    if t.Node? {
      NodeReads(view, t, [], hi, h, limit);
      RefsLen(t.ents);
      KidAt(view, t.ents, 0, [], hi, h - 1, limit);
    }
  }

  lemma RowNotEmpty(view: View, t: Tree, h: nat, chain: seq<Tree>, limit: nat)
    requires Image(view, t, h, chain, limit)
    ensures NoEmptyLeaf(Leaves(t))
  {
  }

  lemma LevelsOf(view: View, t: Tree, h: nat, limit: nat)
    requires TreeOk(view, t, [], None, h, limit)
    ensures t.Node? <==> h > 1
  {
  }

  lemma RootBounds(view: View, t: Tree, h: nat, limit: nat)
    requires TreeOk(view, t, [], None, h, limit)
    ensures 0 < t.id < limit && h >= 1
  {
  }

  lemma AnyKeyInRange(key: Key)
    ensures InRange(key, [], None)
  {
    OrderLaws();
  }
}
