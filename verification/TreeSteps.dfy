/** How one level of a recursive insert or delete turns a subtree into its successor. */
module TreeSteps {
  import opened Bytes
  import opened Pages
  import opened Nodes
  import opened Trees
  import opened Entries
  import opened Chains

  ghost predicate Total(view: View) {
    forall id: PageId :: id in view
  }

  function Splice(s: seq<Tree>, pos: nat, m: seq<Tree>): seq<Tree>
    requires pos < |s|
  {
    s[..pos] + m + s[pos + 1..]
  }

  lemma SpliceInside(a: seq<Tree>, k: seq<Tree>, c: seq<Tree>, pos: nat, m: seq<Tree>)
    requires pos < |k|
    ensures Splice(a + k + c, |a| + pos, m) == a + Splice(k, pos, m) + c
    ensures (a + k + c)[|a| + pos] == k[pos]
    ensures (a + k + c)[..|a| + pos] == a + k[..pos] && (a + k + c)[|a| + pos + 1..] == k[pos + 1..] + c
  {
  }

  /** Only pages of `t` and pages at or past `limit` may differ between the views. */
  ghost predicate Confined(view: View, view': View, ids: set<PageId>, limit: nat) {
    && Total(view')
    && forall id: PageId :: id !in ids && id < limit ==> id in view && view'[id] == view[id]
  }

  // ---------------------------------------------------------------------------
  // Reading a node and routing through it

  lemma {:induction false} RefsSmall(view: View, ents: seq<Ent>, lo: Key, hi: Option<Key>, h: nat, limit: nat)
    requires KidsOk(view, ents, lo, hi, h, limit) && limit <= MAX_PAGE_IDS
    ensures SmallInternals(Refs(ents)) && Keyed(Refs(ents))
  {
    KeyedKids(view, ents, lo, hi, h, limit);
    forall i | 0 <= i < |ents| ensures SmallInternal(Refs(ents)[i]) {
      KidAt(view, ents, i, lo, hi, h, limit);
    }
  }

  lemma NodeReads(view: View, t: Tree, lo: Key, hi: Option<Key>, h: nat, limit: nat)
    requires TreeOk(view, t, lo, hi, h, limit) && t.Node? && limit <= MAX_PAGE_IDS
    ensures IsInternalPage(view[t.id]) && ReadInternalEntries(view[t.id]) == Refs(t.ents)
    ensures Keyed(Refs(t.ents)) && SmallInternals(Refs(t.ents)) && view[t.id].ptype == BTreeInternal
  {
    hide IsInternalPage, ReadInternalEntries, InternalSize;
    RefsSmall(view, t.ents, lo, hi, h - 1, limit);
    InternalPageReads(Refs(t.ents));
  }

  lemma LeafReads(view: View, t: Tree, lo: Key, hi: Option<Key>, h: nat, limit: nat)
    requires TreeOk(view, t, lo, hi, h, limit) && t.Leaf? && limit <= MAX_PAGE_IDS
    ensures IsLeafPage(view[t.id]) && view[t.id].ptype == BTreeLeaf
    ensures ReadLeafEntries(view[t.id]) == t.entries && ReadLeafSibling(view[t.id]) == t.next
  {
    hide IsLeafPage, ReadLeafEntries, ReadLeafSibling;
    LeafPageReads(t.entries, t.next);
  }

  /** Routing picks the child whose bounds hold the key, with smaller leaves to its left and
      larger ones to its right. */
  lemma RouteOk(view: View, ents: seq<Ent>, key: Key, i: nat, lo: Key, hi: Option<Key>, h: nat, limit: nat)
    requires KidsOk(view, ents, lo, hi, h, limit) && InRange(key, lo, hi)
    requires Keyed(Refs(ents)) && Routes(Refs(ents), key, i)
    ensures InRange(key, KidLo(ents, i, lo), KidHi(ents, i, hi))
    ensures AllBefore(Flat(LeavesOf(ents[..i])), key) && AllAfter(Flat(LeavesOf(ents[i + 1..])), key)
  {
    hide KidsOk, LeavesOf, Less, Flat, AllBefore, AllAfter;
    KeyedKids(view, ents, lo, hi, h, limit);
    assert Refs(ents)[i].key == ents[i].key;
    assert i + 1 < |ents| ==> Refs(ents)[i + 1].key == ents[i + 1].key;
    LeftOfRoute(view, ents, key, i, lo, hi, h, limit);
    RightOfRoute(view, ents, key, i, lo, hi, h, limit);
  }

  lemma LeftOfRoute(view: View, ents: seq<Ent>, key: Key, i: nat, lo: Key, hi: Option<Key>, h: nat, limit: nat)
    requires KidsOk(view, ents, lo, hi, h, limit) && i < |ents| && !Less(key, lo)
    requires i > 0 ==> ents[i].key.Some? && !Less(key, ents[i].key.value)
    ensures !Less(key, KidLo(ents, i, lo)) && AllBefore(Flat(LeavesOf(ents[..i])), key)
  {
    hide KidsOk, IdsOf, LeavesOf, Less, Flat, SortedEntries, TreeOk;
    if i > 0 {
      SuffixOk(view, ents, i, lo, hi, h, limit);
      KidsSorted(view, ents[..i], lo, ents[i].key, h, limit);
      OrderLaws();
    } else {
      assert ents[..i] == [];
      EmptyParts();
    }
  }

  lemma RightOfRoute(view: View, ents: seq<Ent>, key: Key, i: nat, lo: Key, hi: Option<Key>, h: nat, limit: nat)
    requires KidsOk(view, ents, lo, hi, h, limit) && i < |ents| && Below(key, hi)
    requires i + 1 < |ents| ==> ents[i + 1].key.Some? && Less(key, ents[i + 1].key.value)
    ensures Below(key, KidHi(ents, i, hi)) && AllAfter(Flat(LeavesOf(ents[i + 1..])), key)
  {
    hide KidsOk, IdsOf, LeavesOf, Less, Flat, SortedEntries, TreeOk;
    if i + 1 < |ents| {
      SuffixOk(view, ents, i + 1, lo, hi, h, limit);
      KidsSorted(view, Unkeyed(ents[i + 1..]), ents[i + 1].key.value, hi, h, limit);
      UnkeyedParts(ents[i + 1..]);
      OrderLaws();
    } else {
      assert ents[i + 1..] == [];
      EmptyParts();
    }
  }

  lemma EmptyParts()
    ensures LeavesOf([]) == [] && Flat([]) == [] && IdsOf([]) == {}
  {
  }

  lemma LocatedInside(a: seq<Tree>, k: seq<Tree>, c: seq<Tree>, pos: nat, key: Key)
    requires Located(k, pos, key) && AllBefore(Flat(a), key) && AllAfter(Flat(c), key)
    ensures Located(a + k + c, |a| + pos, key)
  {
    hide Flat, AllBefore, AllAfter;
    SpliceInside(a, k, c, pos, []);
    FlatAppend(a, k[..pos]);
    FlatAppend(k[pos + 1..], c);
    BothBefore(Flat(a), Flat(k[..pos]), key);
    BothAfter(Flat(k[pos + 1..]), Flat(c), key);
  }

  lemma BothBefore(a: seq<Entry>, b: seq<Entry>, key: Key)
    requires AllBefore(a, key) && AllBefore(b, key)
    ensures AllBefore(a + b, key)
  {
    hide Less;
  }

  lemma BothAfter(a: seq<Entry>, b: seq<Entry>, key: Key)
    requires AllAfter(a, key) && AllAfter(b, key)
    ensures AllAfter(a + b, key)
  {
    hide Less;
  }

  // ---------------------------------------------------------------------------
  // Inserting

  /** What inserting below `t` leaves: one subtree in its place, or two with a separator. */
  ghost predicate Grown(view: View, view': View, t: Tree, g: seq<Ent>, lo: Key, hi: Option<Key>, h: nat, limit: nat,
                        limit': nat) {
    && limit <= limit' && 1 <= |g| <= 2 && g[0].kid.id == t.id
    && KidsOk(view', g, lo, hi, h, limit')
    && (forall id :: id in IdsOf(g) ==> id in Ids(t) || limit <= id)
    && Confined(view, view', Ids(t), limit)
  }

  /** Everything but the i-th child is untouched by what happened below it. */
  lemma SiblingsKept(view: View, view': View, t: Tree, i: nat, g: seq<Ent>,
                     lo: Key, hi: Option<Key>, h: nat, limit: nat, limit': nat)
    requires TreeOk(view, t, lo, hi, h, limit) && t.Node? && i < |t.ents|
    requires Grown(view, view', t.ents[i].kid, g, KidLo(t.ents, i, lo), KidHi(t.ents, i, hi), h - 1, limit, limit')
    ensures var e := Plug(t.ents, i, g);
            && KidsOk(view', e, lo, hi, h - 1, limit')
            && IdsOf(e) == IdsOf(t.ents[..i]) + IdsOf(g) + IdsOf(t.ents[i + 1..])
            && LeavesOf(e) == LeavesOf(t.ents[..i]) + LeavesOf(g) + LeavesOf(t.ents[i + 1..])
            && t.id !in IdsOf(e) && t.id !in Ids(t.ents[i].kid) && t.id < limit
            && (forall id :: id in IdsOf(e) ==> id in Ids(t) || limit <= id)
            && Ids(t.ents[i].kid) <= Ids(t)
            && view'[t.id] == view[t.id] == InternalPage(Refs(t.ents)) && InternalSize(Refs(t.ents)) <= PAGE_CAPACITY
  {
    hide KidsOk, IdsOf, LeavesOf, InternalPage, InternalSize, Refs, Plug;
    var ents := t.ents;
    KidAt(view, ents, i, lo, hi, h - 1, limit);
    KidIdsBelow(view, ents, lo, hi, h - 1, limit);
    PlugOk(view, view', ents, i, g, lo, hi, h - 1, limit, limit');
    PlugParts(ents, i, g);
  }

  /** A rebuilt page over children that are in place makes a node. */
  lemma RebuildOk(view: View, view': View, id: PageId, ents: seq<Ent>, lo: Key, hi: Option<Key>, h: nat, limit: nat,
                  limit': nat)
    requires KidsOk(view, ents, lo, hi, h, limit) && limit <= limit' && 0 < id < limit' && id !in IdsOf(ents)
    requires Agree(view, view', IdsOf(ents)) && Total(view') && h >= 1
    requires InternalSize(Refs(ents)) <= PAGE_CAPACITY && view'[id] == InternalPage(Refs(ents))
    ensures TreeOk(view', Node(id, ents), lo, hi, h + 1, limit')
  {
    hide KidsOk, IdsOf;
    KidsFrame(view, view', ents, lo, hi, h, limit, limit');
  }

  lemma OneOk(view: View, t: Tree, lo: Key, hi: Option<Key>, h: nat, limit: nat)
    ensures KidsOk(view, [Ent(None, t)], lo, hi, h, limit) <==> TreeOk(view, t, lo, hi, h, limit)
    ensures IdsOf([Ent(None, t)]) == Ids(t) && LeavesOf([Ent(None, t)]) == Leaves(t)
  {
    assert [Ent(None, t)][..0] == [];
  }

  lemma TwoOk(view: View, l: Tree, k: Key, r: Tree, lo: Key, hi: Option<Key>, h: nat, limit: nat)
    requires TreeOk(view, l, lo, Some(k), h, limit) && TreeOk(view, r, k, hi, h, limit)
    requires Separator(Some(k), lo, hi) && Ids(l) !! Ids(r)
    ensures KidsOk(view, [Ent(None, l), Ent(Some(k), r)], lo, hi, h, limit)
    ensures IdsOf([Ent(None, l), Ent(Some(k), r)]) == Ids(l) + Ids(r)
    ensures LeavesOf([Ent(None, l), Ent(Some(k), r)]) == Leaves(l) + Leaves(r)
  {
    OneOk(view, l, lo, Some(k), h, limit);
    assert [Ent(None, l), Ent(Some(k), r)][..1] == [Ent(None, l)];
  }

  lemma PlugRefs(ents: seq<Ent>, i: nat, g: seq<Ent>)
    requires i < |ents| && 1 <= |g| <= 2 && g[0].kid.id == ents[i].kid.id
    ensures |g| == 1 ==> Refs(Plug(ents, i, g)) == Refs(ents)
    ensures |g| == 2 ==>
              Refs(Plug(ents, i, g)) == Refs(ents)[..i + 1] + [InternalEntry(g[1].key, g[1].kid.id)] +
                Refs(ents)[i + 1..]
  {
  }

  lemma SplitRefs(ents: seq<Ent>, mid: nat)
    requires mid < |ents|
    ensures |Refs(ents)| == |ents| && Refs(ents)[mid].key == ents[mid].key
    ensures Refs(ents[..mid]) == Refs(ents)[..mid]
    ensures Refs(Unkeyed(ents[mid..])) == [InternalEntry(None, Refs(ents)[mid].child)] + Refs(ents)[mid + 1..]
  {
  }

  /** The child did not split: the node's page stands. */
  lemma GrowInPlace(view: View, view': View, t: Tree, i: nat, g: seq<Ent>,
                    lo: Key, hi: Option<Key>, h: nat, limit: nat, limit': nat) returns (g': seq<Ent>)
    requires TreeOk(view, t, lo, hi, h, limit) && t.Node? && i < |t.ents| && |g| == 1
    requires Grown(view, view', t.ents[i].kid, g, KidLo(t.ents, i, lo), KidHi(t.ents, i, hi), h - 1, limit, limit')
    ensures |g'| == 1 && Grown(view, view', t, g', lo, hi, h, limit, limit')
    ensures IdsOf(g') == {t.id} + IdsOf(t.ents[..i]) + IdsOf(g) + IdsOf(t.ents[i + 1..])
    ensures LeavesOf(g') == LeavesOf(t.ents[..i]) + LeavesOf(g) + LeavesOf(t.ents[i + 1..])
  {
    hide KidsOk, IdsOf, LeavesOf, InternalPage, InternalSize, Refs, Plug;
    SiblingsKept(view, view', t, i, g, lo, hi, h, limit, limit');
    PlugRefs(t.ents, i, g);
    var t' := Node(t.id, Plug(t.ents, i, g));
    RebuildOk(view', view', t.id, t'.ents, lo, hi, h - 1, limit', limit');
    OneOk(view', t', lo, hi, h, limit');
    g' := [Ent(None, t')];
  }

  /** The child split and the node has room for the new separator. */
  lemma GrowFits(view: View, view': View, view'': View, t: Tree, i: nat, g: seq<Ent>,
                 lo: Key, hi: Option<Key>, h: nat, limit: nat, limit': nat) returns (g': seq<Ent>)
    requires TreeOk(view, t, lo, hi, h, limit) && t.Node? && i < |t.ents| && |g| == 2
    requires Grown(view, view', t.ents[i].kid, g, KidLo(t.ents, i, lo), KidHi(t.ents, i, hi), h - 1, limit, limit')
    requires InternalSize(Refs(Plug(t.ents, i, g))) <= PAGE_CAPACITY
    requires view'' == view'[t.id := InternalPage(Refs(Plug(t.ents, i, g)))]
    ensures |g'| == 1 && Grown(view, view'', t, g', lo, hi, h, limit, limit')
    ensures LeavesOf(g') == LeavesOf(t.ents[..i]) + LeavesOf(g) + LeavesOf(t.ents[i + 1..])
  {
    hide KidsOk, IdsOf, LeavesOf, InternalPage, InternalSize, Refs, Plug;
    SiblingsKept(view, view', t, i, g, lo, hi, h, limit, limit');
    var t' := Node(t.id, Plug(t.ents, i, g));
    RebuildOk(view', view'', t.id, t'.ents, lo, hi, h - 1, limit', limit');
    OneOk(view'', t', lo, hi, h, limit');
    g' := [Ent(None, t')];
  }

  lemma NodeBounds(view: View, t: Tree, lo: Key, hi: Option<Key>, h: nat, limit: nat)
    requires TreeOk(view, t, lo, hi, h, limit) && t.Node?
    ensures h > 1 && 0 < t.id < limit
  {
  }

  /** The child split and so does the node: the middle separator moves up. */
  lemma GrowSplits(view: View, view': View, view'': View, t: Tree, i: nat, g: seq<Ent>, mid: nat,
                   lo: Key, hi: Option<Key>, h: nat, limit: nat, limit': nat) returns (g': seq<Ent>)
    requires TreeOk(view, t, lo, hi, h, limit) && t.Node? && i < |t.ents| && |g| == 2
    requires Grown(view, view', t.ents[i].kid, g, KidLo(t.ents, i, lo), KidHi(t.ents, i, hi), h - 1, limit, limit')
    requires 1 <= mid < |Plug(t.ents, i, g)|
    requires var e := Plug(t.ents, i, g);
             && InternalSize(Refs(e[..mid])) <= PAGE_CAPACITY && InternalSize(Refs(Unkeyed(e[mid..]))) <= PAGE_CAPACITY
             && view'' == view'[t.id := InternalPage(Refs(e[..mid]))][limit' := InternalPage(Refs(Unkeyed(e[mid..])))]
    ensures |g'| == 2 && Grown(view, view'', t, g', lo, hi, h, limit, limit' + 1)
    ensures g'[1].key == Plug(t.ents, i, g)[mid].key && g'[1].kid.id == limit'
    ensures LeavesOf(g') == LeavesOf(t.ents[..i]) + LeavesOf(g) + LeavesOf(t.ents[i + 1..])
  {
    hide KidsOk, IdsOf, LeavesOf, InternalPage, InternalSize, Refs, Plug, Less, TreeOk, Unkeyed;
    NodeBounds(view, t, lo, hi, h, limit);
    SiblingsKept(view, view', t, i, g, lo, hi, h, limit, limit');
    var e := Plug(t.ents, i, g);
    KidIdsBelow(view', e, lo, hi, h - 1, limit');
    SuffixOk(view', e, mid, lo, hi, h - 1, limit');
    var k, a, b := e[mid].key.value, e[..mid], Unkeyed(e[mid..]);
    UnkeyedParts(e[mid..]);
    ConcatParts(a, e[mid..]);
    assert e == a + e[mid..];
    var l, r := Node(t.id, a), Node(limit', b);
    RebuildOk(view', view'', t.id, a, lo, Some(k), h - 1, limit', limit' + 1);
    RebuildOk(view', view'', limit', b, k, hi, h - 1, limit', limit' + 1);
    TwoOk(view'', l, k, r, lo, hi, h, limit' + 1);
    g' := [Ent(None, l), Ent(Some(k), r)];
  }

  /** Replacing a leaf's page by one with entries that fit. */
  lemma LeafRewritten(view: View, t: Tree, es: seq<Entry>, lo: Key, hi: Option<Key>, h: nat, limit: nat)
    returns (g: seq<Ent>)
    requires TreeOk(view, t, lo, hi, h, limit) && t.Leaf? && Total(view)
    requires SortedEntries(es) && EntriesInRange(es, lo, hi) && SmallEntries(es) && LeafSize(es) <= LEAF_CAPACITY
    ensures g == [Ent(None, Leaf(t.id, t.next, es))] && LeavesOf(g) == [Leaf(t.id, t.next, es)]
    ensures Grown(view, view[t.id := LeafPage(es, t.next)], t, g, lo, hi, h, limit, limit)
  {
    hide SortedEntries, EntriesInRange, SmallEntries, LeafSize, LeafPage;
    var t' := Leaf(t.id, t.next, es);
    var view' := view[t.id := LeafPage(es, t.next)];
    OneOk(view', t', lo, hi, h, limit);
    g := [Ent(None, t')];
  }

  /** Splitting a leaf: the right half goes to the new page `limit` and inherits the old sibling. */
  lemma LeafSplit(view: View, t: Tree, es: seq<Entry>, mid: nat, lo: Key, hi: Option<Key>, h: nat, limit: nat)
    returns (g: seq<Ent>)
    requires TreeOk(view, t, lo, hi, h, limit) && t.Leaf? && Total(view) && 1 <= mid < |es|
    requires SortedEntries(es) && EntriesInRange(es, lo, hi) && SmallEntries(es)
    requires LeafSize(es[..mid]) <= LEAF_CAPACITY && LeafSize(es[mid..]) <= LEAF_CAPACITY
    ensures g == [Ent(None, Leaf(t.id, limit, es[..mid])), Ent(Some(es[mid].key), Leaf(limit, t.next, es[mid..]))]
    ensures LeavesOf(g) == [Leaf(t.id, limit, es[..mid]), Leaf(limit, t.next, es[mid..])]
    ensures Grown(view, view[t.id := LeafPage(es[..mid], limit)][limit := LeafPage(es[mid..], t.next)],
                  t, g, lo, hi, h, limit, limit + 1)
  {
    hide LeafSize, LeafPage;
    var l, r, k := Leaf(t.id, limit, es[..mid]), Leaf(limit, t.next, es[mid..]), es[mid].key;
    var view' := view[t.id := LeafPage(es[..mid], limit)][limit := LeafPage(es[mid..], t.next)];
    HalvesOk(es, mid, lo, hi);
    TwoOk(view', l, k, r, lo, hi, h, limit + 1);
    g := [Ent(None, l), Ent(Some(k), r)];
    assert [l] + [r] == [l, r];
  }

  lemma HalvesOk(es: seq<Entry>, mid: nat, lo: Key, hi: Option<Key>)
    requires SortedEntries(es) && EntriesInRange(es, lo, hi) && SmallEntries(es) && 1 <= mid < |es|
    ensures var k := es[mid].key;
            && Separator(Some(k), lo, hi)
            && SortedEntries(es[..mid]) && EntriesInRange(es[..mid], lo, Some(k)) && SmallEntries(es[..mid])
            && SortedEntries(es[mid..]) && EntriesInRange(es[mid..], k, hi) && SmallEntries(es[mid..])
  {
    OrderLaws();
    assert SmallEntry(es[mid]);
    assert InRange(es[0].key, lo, hi) && Less(es[0].key, es[mid].key);
  }

  // ---------------------------------------------------------------------------
  // Deleting

  lemma DropRefs(ents: seq<Ent>, i: nat)
    requires i < |ents| && |ents| > 1
    ensures i == 0 ==> Refs(Drop(ents, i)) == [InternalEntry(None, Refs(ents)[1].child)] + Refs(ents)[2..]
    ensures i > 0 ==> Refs(Drop(ents, i)) == Refs(ents)[..i] + Refs(ents)[i + 1..]
    ensures InternalSize(Refs(Drop(ents, i))) <= InternalSize(Refs(ents))
  {
    hide InternalSize;
    var r := Refs(ents);
    if i == 0 {
      InternalSplitSizes(r, 0);
      InternalSplitSizes(r[1..], 0);
      assert r[1..][1..] == r[2..];
      InternalSizeAppend([r[0]], r[1..]);
      assert Refs(Drop(ents, i)) == [InternalEntry(None, r[1].child)] + r[2..];
    } else {
      InternalSplitSizes(r, i);
      InternalSizeAppend(r[..i], r[i + 1..]);
      assert Refs(Drop(ents, i)) == r[..i] + r[i + 1..];
    }
  }

  /** The i-th child became empty and the node has others: it is dropped from the page. */
  lemma NodeDrops(view: View, view': View, view'': View, t: Tree, i: nat, g: seq<Ent>,
                  lo: Key, hi: Option<Key>, h: nat, limit: nat) returns (g': seq<Ent>)
    requires TreeOk(view, t, lo, hi, h, limit) && t.Node? && i < |t.ents| && |t.ents| > 1 && |g| == 1
    requires Grown(view, view', t.ents[i].kid, g, KidLo(t.ents, i, lo), KidHi(t.ents, i, hi), h - 1, limit, limit)
    requires view'' == view'[t.id := InternalPage(Refs(Drop(t.ents, i)))]
    ensures |g'| == 1 && Grown(view, view'', t, g', lo, hi, h, limit, limit)
    ensures LeavesOf(g') == LeavesOf(t.ents[..i]) + LeavesOf(t.ents[i + 1..]) != []
    ensures IdsOf(g') !! Ids(t.ents[i].kid)
  {
    hide KidsOk, IdsOf, LeavesOf, InternalPage, InternalSize, Refs, Drop;
    var ents := t.ents;
    SiblingsKept(view, view', t, i, g, lo, hi, h, limit, limit);
    KidAt(view, ents, i, lo, hi, h - 1, limit);
    KidIdsBelow(view, ents, lo, hi, h - 1, limit);
    DropOk(view, view', ents, i, lo, hi, h - 1, limit);
    DropParts(ents, i);
    DropRefs(ents, i);
    var t' := Node(t.id, Drop(ents, i));
    RebuildOk(view', view'', t.id, t'.ents, lo, hi, h - 1, limit, limit);
    OneOk(view'', t', lo, hi, h, limit);
    KidsSorted(view', t'.ents, lo, hi, h - 1, limit);
    g' := [Ent(None, t')];
  }

  /** A node with a single leaf below it has a single child. */
  lemma SingleLeaf(view: View, ents: seq<Ent>, lo: Key, hi: Option<Key>, h: nat, limit: nat)
    requires KidsOk(view, ents, lo, hi, h, limit) && |LeavesOf(ents)| == 1
    ensures |ents| == 1 && ents[0].key.None? && Leaves(ents[0].kid) == LeavesOf(ents)
    ensures TreeOk(view, ents[0].kid, lo, hi, h, limit) && Ids(ents[0].kid) == IdsOf(ents)
  {
    var front, e := ents[..|ents| - 1], ents[|ents| - 1];
    if front != [] {
      KidsSorted(view, front, lo, e.key, h, limit);
      TreeSorted(view, e.kid, e.key.value, hi, h, limit);
    } else {
      assert ents == [Ent(None, e.kid)];
      OneOk(view, e.kid, lo, hi, h, limit);
    }
  }
}
