/** B+trees as values: the shape invariant, its framing, and the edits that splits and deletes make. */
module Trees {
  import opened Bytes
  import opened Pages
  import opened Nodes

  /** A subtree together with the pages it occupies. `Ent` mirrors one internal-page entry. */
  datatype Tree =
    | Leaf(id: PageId, next: PageId, entries: seq<Entry>)
    | Node(id: PageId, ents: seq<Ent>)
  datatype Ent = Ent(key: Option<Key>, kid: Tree)

  /** The page entries that refer to the children of `ents`. */
  function Refs(ents: seq<Ent>): seq<InternalEntry> {
    seq(|ents|, i requires 0 <= i < |ents| => InternalEntry(ents[i].key, ents[i].kid.id))
  }

  ghost function Ids(t: Tree): set<PageId> {
    match t
    case Leaf(id, _, _) => {id}
    case Node(id, ents) => {id} + IdsOf(ents)
  }

  ghost function IdsOf(ents: seq<Ent>): set<PageId> {
    if ents == [] then {}
    else var e := ents[|ents| - 1]; assert e.kid < e; IdsOf(ents[..|ents| - 1]) + Ids(e.kid)
  }

  /** The reachable leaves, left to right. */
  ghost function Leaves(t: Tree): seq<Tree> {
    match t
    case Leaf(_, _, _) => [t]
    case Node(_, ents) => LeavesOf(ents)
  }

  ghost function LeavesOf(ents: seq<Ent>): seq<Tree> {
    if ents == [] then []
    else var e := ents[|ents| - 1]; assert e.kid < e; LeavesOf(ents[..|ents| - 1]) + Leaves(e.kid)
  }

  // ---------------------------------------------------------------------------
  // The shape invariant

  predicate Below(k: Key, hi: Option<Key>) {
    hi.Some? ==> Less(k, hi.value)
  }

  predicate InRange(k: Key, lo: Key, hi: Option<Key>) {
    !Less(k, lo) && Below(k, hi)
  }

  predicate EntriesInRange(es: seq<Entry>, lo: Key, hi: Option<Key>) {
    forall i :: 0 <= i < |es| ==> InRange(es[i].key, lo, hi)
  }

  /** `t` lies in `view` on pages of its own below `limit`, holds keys in [lo, hi), and has every
      leaf at depth `h`. */
  ghost predicate TreeOk(view: View, t: Tree, lo: Key, hi: Option<Key>, h: nat, limit: nat)
    decreases h, 0
  {
    && 0 < t.id < limit && t.id in view
    && match t
       case Leaf(id, next, entries) =>
         && h == 1 && next < limit
         && SortedEntries(entries) && EntriesInRange(entries, lo, hi) && SmallEntries(entries)
         && LeafSize(entries) <= LEAF_CAPACITY && view[id] == LeafPage(entries, next)
       case Node(id, ents) =>
         && h > 1 && id !in IdsOf(ents) && KidsOk(view, ents, lo, hi, h - 1, limit)
         && InternalSize(Refs(ents)) <= PAGE_CAPACITY && view[id] == InternalPage(Refs(ents))
  }

  predicate Separator(k: Option<Key>, lo: Key, hi: Option<Key>) {
    k.Some? && |k.value| <= MAX_ENTRY && Less(lo, k.value) && Below(k.value, hi)
  }

  /** Children in order: the first without a separator, each later one starting at its separator,
      which lies strictly inside the bounds; no two children share a page. */
  ghost predicate KidsOk(view: View, ents: seq<Ent>, lo: Key, hi: Option<Key>, h: nat, limit: nat)
    decreases h, |ents|
  {
    ents != [] &&
    var front, e := ents[..|ents| - 1], ents[|ents| - 1];
    if front == [] then e.key.None? && TreeOk(view, e.kid, lo, hi, h, limit)
    else
      && Separator(e.key, lo, hi)
      && KidsOk(view, front, lo, e.key, h, limit) && TreeOk(view, e.kid, e.key.value, hi, h, limit)
      && IdsOf(front) !! Ids(e.kid)
  }

  // ---------------------------------------------------------------------------
  // Framing and bounds

  /** The pages `ids` read the same in both views. */
  ghost predicate Agree(view: View, view': View, ids: set<PageId>) {
    forall id :: id in ids && id in view ==> id in view' && view'[id] == view[id]
  }

  /** Writing other pages, and allocating more of them, leaves a subtree intact. */
  lemma {:induction false} TreeFrame(view: View, view': View, t: Tree, lo: Key, hi: Option<Key>, h: nat, limit: nat,
                                     limit': nat)
    requires TreeOk(view, t, lo, hi, h, limit) && limit <= limit' && Agree(view, view', Ids(t))
    ensures TreeOk(view', t, lo, hi, h, limit')
    decreases h, 0
  {
    if t.Node? {
      KidsFrame(view, view', t.ents, lo, hi, h - 1, limit, limit');
    }
  }

  lemma {:induction false} KidsFrame(view: View, view': View, ents: seq<Ent>, lo: Key, hi: Option<Key>, h: nat,
                                     limit: nat, limit': nat)
    requires KidsOk(view, ents, lo, hi, h, limit) && limit <= limit' && Agree(view, view', IdsOf(ents))
    ensures KidsOk(view', ents, lo, hi, h, limit')
    decreases h, |ents|
  {
    var front, e := ents[..|ents| - 1], ents[|ents| - 1];
    if front == [] {
      TreeFrame(view, view', e.kid, lo, hi, h, limit, limit');
    } else {
      KidsFrame(view, view', front, lo, e.key, h, limit, limit');
      TreeFrame(view, view', e.kid, e.key.value, hi, h, limit, limit');
    }
  }

  predicate Looser(lo: Key, hi: Option<Key>, lo': Key, hi': Option<Key>) {
    && (lo' == lo || Less(lo', lo))
    && (hi' == hi || hi'.None? || (hi.Some? && Less(hi.value, hi'.value)))
  }

  lemma {:induction false} TreeWiden(view: View, t: Tree, lo: Key, hi: Option<Key>, lo': Key, hi': Option<Key>, h: nat,
                                     limit: nat)
    requires TreeOk(view, t, lo, hi, h, limit) && Looser(lo, hi, lo', hi')
    ensures TreeOk(view, t, lo', hi', h, limit)
    decreases h, 0
  {
    if t.Node? {
      KidsWiden(view, t.ents, lo, hi, lo', hi', h - 1, limit);
    } else {
      hide LeafSize, LeafPage;
      OrderLaws();
    }
  }

  lemma {:induction false} KidsWiden(view: View, ents: seq<Ent>, lo: Key, hi: Option<Key>, lo': Key, hi': Option<Key>,
                                     h: nat, limit: nat)
    requires KidsOk(view, ents, lo, hi, h, limit) && Looser(lo, hi, lo', hi')
    ensures KidsOk(view, ents, lo', hi', h, limit)
    decreases h, |ents|
  {
    var front, e := ents[..|ents| - 1], ents[|ents| - 1];
    if front == [] {
      TreeWiden(view, e.kid, lo, hi, lo', hi', h, limit);
    } else {
      assert Separator(e.key, lo', hi') by { OrderLaws(); }
      KidsWiden(view, front, lo, e.key, lo', e.key, h, limit);
      TreeWiden(view, e.kid, e.key.value, hi, e.key.value, hi', h, limit);
    }
  }

  // ---------------------------------------------------------------------------
  // Joining lists of children

  /** The children of `a` followed by those of `b`, separated by `k`. */
  function Join(a: seq<Ent>, k: Key, b: seq<Ent>): seq<Ent>
    requires b != []
  {
    a + [Ent(Some(k), b[0].kid)] + b[1..]
  }

  lemma JoinParts(a: seq<Ent>, k: Key, b: seq<Ent>)
    requires b != []
    ensures IdsOf(Join(a, k, b)) == IdsOf(a) + IdsOf(b)
    ensures LeavesOf(Join(a, k, b)) == LeavesOf(a) + LeavesOf(b)
  {
    hide IdsOf, LeavesOf, Ids, Leaves;
    var x, rest := Ent(Some(k), b[0].kid), b[1..];
    assert b == [b[0]] + rest && Join(a, k, b) == a + ([x] + rest);
    OneKid(x);
    OneKid(b[0]);
    ConcatParts([b[0]], rest);
    ConcatParts([x], rest);
    ConcatParts(a, [x] + rest);
  }

  lemma {:induction false} JoinOk(view: View, a: seq<Ent>, k: Key, b: seq<Ent>, lo: Key, hi: Option<Key>, h: nat,
                                  limit: nat)
    requires KidsOk(view, a, lo, Some(k), h, limit) && KidsOk(view, b, k, hi, h, limit)
    requires Separator(Some(k), lo, hi) && IdsOf(a) !! IdsOf(b)
    ensures KidsOk(view, Join(a, k, b), lo, hi, h, limit)
    decreases |b|
  {
    hide TreeOk, Less, Ids, LeavesOf;
    var j, last := Join(a, k, b), |b| - 1;
    if last == 0 {
      assert j[..|j| - 1] == a;
    } else {
      var e := b[last];
      assert j[..|j| - 1] == Join(a, k, b[..last]);
      assert Separator(e.key, lo, hi) && Below(k, e.key) by { OrderLaws(); }
      JoinOk(view, a, k, b[..last], lo, e.key, h, limit);
      JoinParts(a, k, b[..last]);
    }
  }

  /** Any separator splits a list of children into two lists with tighter bounds. */
  lemma {:induction false} SplitOk(view: View, a: seq<Ent>, k: Key, b: seq<Ent>, lo: Key, hi: Option<Key>, h: nat,
                                   limit: nat)
    requires a != [] && b != [] && b[0].key.None? && KidsOk(view, Join(a, k, b), lo, hi, h, limit)
    ensures KidsOk(view, a, lo, Some(k), h, limit) && KidsOk(view, b, k, hi, h, limit)
    ensures Separator(Some(k), lo, hi) && IdsOf(a) !! IdsOf(b)
    decreases |b|
  {
    var j, last := Join(a, k, b), |b| - 1;
    if last == 0 {
      assert j[..|j| - 1] == a;
      assert b[..0] == [];
    } else {
      var e := b[last];
      assert j[|j| - 1] == e;
      assert j[..|j| - 1] == Join(a, k, b[..last]);
      SplitOk(view, a, k, b[..last], lo, e.key, h, limit);
      JoinParts(a, k, b[..last]);
      assert Separator(Some(k), lo, hi) && Separator(e.key, k, hi) by { OrderLaws(); }
    }
  }

  lemma {:induction false} ConcatParts(a: seq<Ent>, b: seq<Ent>)
    ensures IdsOf(a + b) == IdsOf(a) + IdsOf(b)
    ensures LeavesOf(a + b) == LeavesOf(a) + LeavesOf(b)
  {
    if b == [] {
      assert a + b == a;
    } else {
      ConcatParts(a, b[..|b| - 1]);
      assert (a + b)[..|a + b| - 1] == a + b[..|b| - 1];
    }
  }

  /** The same children, the first one without its separator. */
  function Unkeyed(ents: seq<Ent>): seq<Ent> {
    if ents == [] then [] else [Ent(None, ents[0].kid)] + ents[1..]
  }

  lemma UnkeyedParts(ents: seq<Ent>)
    ensures IdsOf(Unkeyed(ents)) == IdsOf(ents) && LeavesOf(Unkeyed(ents)) == LeavesOf(ents)
  {
    if ents != [] {
      JoinParts([], [], ents);
      JoinParts([], [], Unkeyed(ents));
      assert Join([], [], ents) == Join([], [], Unkeyed(ents));
      assert LeavesOf([]) + LeavesOf(ents) == LeavesOf(ents);
      assert LeavesOf([]) + LeavesOf(Unkeyed(ents)) == LeavesOf(Unkeyed(ents));
    }
  }

  lemma {:induction false} IdsBelow(view: View, t: Tree, lo: Key, hi: Option<Key>, h: nat, limit: nat)
    requires TreeOk(view, t, lo, hi, h, limit)
    ensures forall id :: id in Ids(t) ==> 0 < id < limit && id in view
    decreases h, 0
  {
    if t.Node? {
      KidIdsBelow(view, t.ents, lo, hi, h - 1, limit);
    }
  }

  lemma {:induction false} KidIdsBelow(view: View, ents: seq<Ent>, lo: Key, hi: Option<Key>, h: nat, limit: nat)
    requires KidsOk(view, ents, lo, hi, h, limit)
    ensures forall id :: id in IdsOf(ents) ==> 0 < id < limit && id in view
    decreases h, |ents|
  {
    var front, e := ents[..|ents| - 1], ents[|ents| - 1];
    if front == [] {
      IdsBelow(view, e.kid, lo, hi, h, limit);
    } else {
      KidIdsBelow(view, front, lo, e.key, h, limit);
      IdsBelow(view, e.kid, e.key.value, hi, h, limit);
    }
  }

  // ---------------------------------------------------------------------------
  // One child in its context

  function KidLo(ents: seq<Ent>, i: nat, lo: Key): Key
    requires i < |ents|
  {
    if i > 0 && ents[i].key.Some? then ents[i].key.value else lo
  }

  function KidHi(ents: seq<Ent>, i: nat, hi: Option<Key>): Option<Key>
    requires i < |ents|
  {
    if i + 1 < |ents| then ents[i + 1].key else hi
  }

  /** The children from the i-th on stand as a list of their own. */
  lemma SuffixOk(view: View, ents: seq<Ent>, i: nat, lo: Key, hi: Option<Key>, h: nat, limit: nat)
    requires KidsOk(view, ents, lo, hi, h, limit) && i < |ents|
    ensures KidsOk(view, Unkeyed(ents[i..]), KidLo(ents, i, lo), hi, h, limit)
    ensures i == 0 ==> Unkeyed(ents) == ents
    ensures i > 0 ==> ents[i].key.Some? && ents == Join(ents[..i], ents[i].key.value, Unkeyed(ents[i..]))
    ensures i > 0 ==> KidsOk(view, ents[..i], lo, ents[i].key, h, limit) && Separator(ents[i].key, lo, hi)
    ensures IdsOf(ents[..i]) !! IdsOf(ents[i..])
  {
    KeyedKids(view, ents, lo, hi, h, limit);
    if i == 0 {
      assert ents[0..] == ents == Unkeyed(ents);
    } else {
      var a, k, b := ents[..i], ents[i].key.value, Unkeyed(ents[i..]);
      assert ents == Join(a, k, b);
      SplitOk(view, a, k, b, lo, hi, h, limit);
      UnkeyedParts(ents[i..]);
    }
  }

  lemma {:induction false} KeyedKids(view: View, ents: seq<Ent>, lo: Key, hi: Option<Key>, h: nat, limit: nat)
    requires KidsOk(view, ents, lo, hi, h, limit)
    ensures ents != [] && ents[0].key.None?
    ensures forall i :: 1 <= i < |ents| ==> Separator(ents[i].key, lo, hi)
    decreases |ents|
  {
    var front, e := ents[..|ents| - 1], ents[|ents| - 1];
    if front != [] {
      KeyedKids(view, front, lo, e.key, h, limit);
      OrderLaws();
    }
  }

  /** The first child of a list, and the rest. */
  lemma HeadOk(view: View, kid: Tree, c: seq<Ent>, lo: Key, hi: Option<Key>, h: nat, limit: nat)
    requires KidsOk(view, [Ent(None, kid)] + c, lo, hi, h, limit)
    ensures TreeOk(view, kid, lo, if c == [] then hi else c[0].key, h, limit)
    ensures c != [] ==> Separator(c[0].key, lo, hi) && KidsOk(view, Unkeyed(c), c[0].key.value, hi, h, limit)
    ensures Ids(kid) !! IdsOf(c)
  {
    var ents := [Ent(None, kid)] + c;
    assert IdsOf([Ent(None, kid)]) == Ids(kid) by {
      assert [Ent(None, kid)][..0] == [];
    }
    if c == [] {
      assert ents == [Ent(None, kid)];
    } else {
      SuffixOk(view, ents, 1, lo, hi, h, limit);
      assert ents[1..] == c && ents[..1] == [Ent(None, kid)];
      assert [Ent(None, kid)][..0] == [];
    }
  }

  /** The i-th child is a tree of its own between its neighbouring separators. */
  lemma KidAt(view: View, ents: seq<Ent>, i: nat, lo: Key, hi: Option<Key>, h: nat, limit: nat)
    requires KidsOk(view, ents, lo, hi, h, limit) && i < |ents|
    ensures TreeOk(view, ents[i].kid, KidLo(ents, i, lo), KidHi(ents, i, hi), h, limit)
    ensures IdsOf(ents) == IdsOf(ents[..i]) + Ids(ents[i].kid) + IdsOf(ents[i + 1..])
    ensures LeavesOf(ents) == LeavesOf(ents[..i]) + Leaves(ents[i].kid) + LeavesOf(ents[i + 1..])
    ensures Ids(ents[i].kid) !! IdsOf(ents[..i]) && Ids(ents[i].kid) !! IdsOf(ents[i + 1..])
  {
    hide KidsOk, TreeOk, IdsOf, LeavesOf, Ids, Leaves, Less;
    var kid, c := ents[i].kid, ents[i + 1..];
    SuffixOk(view, ents, i, lo, hi, h, limit);
    assert Unkeyed(ents[i..]) == [Ent(None, kid)] + c;
    HeadOk(view, kid, c, KidLo(ents, i, lo), hi, h, limit);
    PartsAt(ents, i);
  }

  /** A list of children around its i-th. */
  lemma PartsAt(ents: seq<Ent>, i: nat)
    requires i < |ents|
    ensures IdsOf(ents) == IdsOf(ents[..i]) + Ids(ents[i].kid) + IdsOf(ents[i + 1..])
    ensures LeavesOf(ents) == LeavesOf(ents[..i]) + Leaves(ents[i].kid) + LeavesOf(ents[i + 1..])
    ensures IdsOf(ents[i..]) == Ids(ents[i].kid) + IdsOf(ents[i + 1..])
  {
    hide IdsOf, LeavesOf, Ids, Leaves;
    Around(ents, i);
    PartsAround(ents[..i], ents[i], ents[i + 1..]);
  }

  lemma Around<T>(s: seq<T>, i: nat)
    requires i < |s|
    ensures s == s[..i] + ([s[i]] + s[i + 1..]) && s[i..] == [s[i]] + s[i + 1..]
  {
  }

  lemma PartsAround(a: seq<Ent>, e: Ent, c: seq<Ent>)
    ensures IdsOf(a + ([e] + c)) == IdsOf(a) + Ids(e.kid) + IdsOf(c) && IdsOf([e] + c) == Ids(e.kid) + IdsOf(c)
    ensures LeavesOf(a + ([e] + c)) == LeavesOf(a) + Leaves(e.kid) + LeavesOf(c)
  {
    hide IdsOf, LeavesOf, Ids, Leaves;
    OneKid(e);
    ConcatParts([e], c);
    ConcatParts(a, [e] + c);
  }

  lemma OneKid(e: Ent)
    ensures IdsOf([e]) == Ids(e.kid) && LeavesOf([e]) == Leaves(e.kid)
  {
    assert [e][..0] == [];
  }

  /** Replaces the i-th child by the list `m`, whose first child takes over its separator. */
  function Plug(ents: seq<Ent>, i: nat, m: seq<Ent>): seq<Ent>
    requires i < |ents| && m != []
  {
    ents[..i] + [Ent(ents[i].key, m[0].kid)] + m[1..] + ents[i + 1..]
  }

  lemma PlugParts(ents: seq<Ent>, i: nat, m: seq<Ent>)
    requires i < |ents| && m != []
    ensures IdsOf(Plug(ents, i, m)) == IdsOf(ents[..i]) + IdsOf(m) + IdsOf(ents[i + 1..])
    ensures LeavesOf(Plug(ents, i, m)) == LeavesOf(ents[..i]) + LeavesOf(m) + LeavesOf(ents[i + 1..])
  {
    var m' := [Ent(ents[i].key, m[0].kid)] + m[1..];
    assert Plug(ents, i, m) == ents[..i] + m' + ents[i + 1..];
    ConcatParts(ents[..i], m');
    ConcatParts(ents[..i] + m', ents[i + 1..]);
    UnkeyedParts(m);
    UnkeyedParts(m');
    assert Unkeyed(m') == Unkeyed(m);
  }

  /** Replacing the first child of a list. */
  lemma HeadPlugOk(view: View, m: seq<Ent>, c: seq<Ent>, lo: Key, hi: Option<Key>, h: nat, limit: nat)
    requires c == [] ==> KidsOk(view, m, lo, hi, h, limit)
    requires c != [] ==> Separator(c[0].key, lo, hi) && KidsOk(view, Unkeyed(c), c[0].key.value, hi, h, limit)
    requires c != [] ==> KidsOk(view, m, lo, c[0].key, h, limit) && IdsOf(m) !! IdsOf(c)
    ensures KidsOk(view, m + c, lo, hi, h, limit)
  {
    hide KidsOk, TreeOk, IdsOf, LeavesOf, Ids, Leaves, Less, Join, Unkeyed;
    if c == [] {
      assert m + c == m;
    } else {
      UnkeyedParts(c);
      RekeyedJoin(m, c);
      JoinOk(view, m, c[0].key.value, Unkeyed(c), lo, hi, h, limit);
    }
  }

  lemma RekeyedJoin(m: seq<Ent>, c: seq<Ent>)
    requires c != [] && c[0].key.Some?
    ensures Unkeyed(c) != [] && m + c == Join(m, c[0].key.value, Unkeyed(c))
  {
  }

  lemma PlugAsJoin(ents: seq<Ent>, i: nat, m: seq<Ent>)
    requires i < |ents| && m != [] && m[0].key.None?
    requires if i == 0 then ents[0].key.None? else ents[i].key.Some?
    ensures i == 0 ==> Plug(ents, i, m) == m + ents[i + 1..]
    ensures i > 0 ==> Plug(ents, i, m) == Join(ents[..i], ents[i].key.value, m + ents[i + 1..])
  {
  }

  /** Replacing the i-th child in the list of children from the i-th on. */
  lemma PlugSuffixOk(view: View, view': View, ents: seq<Ent>, i: nat, m: seq<Ent>,
                     lo: Key, hi: Option<Key>, h: nat, limit: nat, limit': nat)
    requires KidsOk(view, ents, lo, hi, h, limit) && i < |ents| && limit <= limit'
    requires KidsOk(view', m, KidLo(ents, i, lo), KidHi(ents, i, hi), h, limit')
    requires Agree(view, view', IdsOf(ents[i + 1..])) && IdsOf(m) !! IdsOf(ents[i + 1..])
    ensures KidsOk(view', m + ents[i + 1..], KidLo(ents, i, lo), hi, h, limit')
  {
    hide KidsOk, TreeOk, IdsOf, LeavesOf, Ids, Leaves, Less;
    var kid, c, klo := ents[i].kid, ents[i + 1..], KidLo(ents, i, lo);
    SuffixOk(view, ents, i, lo, hi, h, limit);
    assert Unkeyed(ents[i..]) == [Ent(None, kid)] + c;
    HeadOk(view, kid, c, klo, hi, h, limit);
    if c != [] {
      UnkeyedParts(c);
      KidsFrame(view, view', Unkeyed(c), c[0].key.value, hi, h, limit, limit');
    }
    HeadPlugOk(view', m, c, klo, hi, h, limit');
  }

  /** Replacing the i-th child, by one child or by two halves of a split, keeps the list in shape. */
  lemma PlugOk(view: View, view': View, ents: seq<Ent>, i: nat, m: seq<Ent>,
               lo: Key, hi: Option<Key>, h: nat, limit: nat, limit': nat)
    requires KidsOk(view, ents, lo, hi, h, limit) && i < |ents| && limit <= limit'
    requires KidsOk(view', m, KidLo(ents, i, lo), KidHi(ents, i, hi), h, limit')
    requires Agree(view, view', IdsOf(ents[..i]) + IdsOf(ents[i + 1..]))
    requires IdsOf(m) !! IdsOf(ents[..i]) + IdsOf(ents[i + 1..])
    ensures m != [] && KidsOk(view', Plug(ents, i, m), lo, hi, h, limit')
  {
    hide KidsOk, TreeOk, IdsOf, LeavesOf, Ids, Leaves, Less, Plug, Join, Unkeyed;
    var c := ents[i + 1..];
    PlugSuffixOk(view, view', ents, i, m, lo, hi, h, limit, limit');
    KeyedKids(view', m, KidLo(ents, i, lo), KidHi(ents, i, hi), h, limit');
    SuffixOk(view, ents, i, lo, hi, h, limit);
    KeyedKids(view, ents, lo, hi, h, limit);
    PlugAsJoin(ents, i, m);
    if i > 0 {
      ConcatParts(m, c);
      ConcatParts([ents[i]], c);
      assert ents[i..] == [ents[i]] + c;
      KidsFrame(view, view', ents[..i], lo, ents[i].key, h, limit, limit');
      JoinOk(view', ents[..i], ents[i].key.value, m + c, lo, hi, h, limit');
    }
  }

  /** Removes the i-th child; a successor promoted to the front loses its separator. */
  function Drop(ents: seq<Ent>, i: nat): seq<Ent>
    requires i < |ents|
  {
    if i == 0 then Unkeyed(ents[1..]) else ents[..i] + ents[i + 1..]
  }

  lemma DropParts(ents: seq<Ent>, i: nat)
    requires i < |ents|
    ensures IdsOf(Drop(ents, i)) == IdsOf(ents[..i]) + IdsOf(ents[i + 1..])
    ensures LeavesOf(Drop(ents, i)) == LeavesOf(ents[..i]) + LeavesOf(ents[i + 1..])
  {
    UnkeyedParts(ents[1..]);
    ConcatParts(ents[..i], ents[i + 1..]);
    assert i == 0 ==> ents[..i] + ents[i + 1..] == ents[1..];
  }

  /** Removing one of several children keeps the list in shape under the same bounds. */
  lemma DropOk(view: View, view': View, ents: seq<Ent>, i: nat, lo: Key, hi: Option<Key>, h: nat, limit: nat)
    requires KidsOk(view, ents, lo, hi, h, limit) && i < |ents| && |ents| > 1
    requires Agree(view, view', IdsOf(ents[..i]) + IdsOf(ents[i + 1..]))
    ensures KidsOk(view', Drop(ents, i), lo, hi, h, limit)
  {
    hide KidsOk, TreeOk, IdsOf, LeavesOf, Ids, Leaves, Less;
    var kid, c, klo := ents[i].kid, ents[i + 1..], KidLo(ents, i, lo);
    SuffixOk(view, ents, i, lo, hi, h, limit);
    assert Unkeyed(ents[i..]) == [Ent(None, kid)] + c;
    HeadOk(view, kid, c, klo, hi, h, limit);
    if c != [] {
      UnkeyedParts(c);
      KidsFrame(view, view', Unkeyed(c), c[0].key.value, hi, h, limit, limit);
    }
    if i == 0 {
      KidsWiden(view', Unkeyed(c), c[0].key.value, hi, lo, hi, h, limit);
    } else {
      var khi := if c == [] then hi else c[0].key;
      KidsFrame(view, view', ents[..i], lo, ents[i].key, h, limit, limit);
      KidsWiden(view', ents[..i], lo, ents[i].key, lo, khi, h, limit);
      assert c != [] ==> Separator(c[0].key, lo, hi) by { SeparatorsNest(lo, klo, c, hi); }
      ConcatParts([ents[i]], c);
      assert ents[i..] == [ents[i]] + c;
      HeadPlugOk(view', ents[..i], c, lo, hi, h, limit);
    }
  }

  lemma SeparatorsNest(lo: Key, klo: Key, c: seq<Ent>, hi: Option<Key>)
    requires Less(lo, klo) && (c != [] ==> Separator(c[0].key, klo, hi))
    ensures c != [] ==> Separator(c[0].key, lo, hi)
  {
    OrderLaws();
  }

  // ---------------------------------------------------------------------------
  // Leaves

  /** The entries of a sequence of leaves, left to right. */
  ghost function Flat(leaves: seq<Tree>): seq<Entry> {
    if leaves == [] then []
    else Flat(leaves[..|leaves| - 1]) + (var l := leaves[|leaves| - 1]; if l.Leaf? then l.entries else [])
  }

  lemma {:induction false} FlatAppend(a: seq<Tree>, b: seq<Tree>)
    ensures Flat(a + b) == Flat(a) + Flat(b)
  {
    if b == [] {
      assert a + b == a;
    } else {
      FlatAppend(a, b[..|b| - 1]);
      assert (a + b)[..|a + b| - 1] == a + b[..|b| - 1] && (a + b)[|a + b| - 1] == b[|b| - 1];
    }
  }

  lemma FlatOne(l: Tree)
    requires l.Leaf?
    ensures Flat([l]) == l.entries
  {
    assert [l][..0] == [] && Flat([]) == [];
  }

  lemma SortedConcat(a: seq<Entry>, b: seq<Entry>, lo: Key, k: Key, hi: Option<Key>)
    requires SortedEntries(a) && SortedEntries(b)
    requires EntriesInRange(a, lo, Some(k)) && EntriesInRange(b, k, hi) && Separator(Some(k), lo, hi)
    ensures SortedEntries(a + b) && EntriesInRange(a + b, lo, hi)
  {
    OrderLaws();
  }

  /** In-order entries are strictly sorted and in range; there is at least one leaf. */
  lemma {:induction false} TreeSorted(view: View, t: Tree, lo: Key, hi: Option<Key>, h: nat, limit: nat)
    requires TreeOk(view, t, lo, hi, h, limit)
    ensures SortedEntries(Flat(Leaves(t))) && EntriesInRange(Flat(Leaves(t)), lo, hi) && Leaves(t) != []
    ensures forall l :: l in Leaves(t) ==> l.Leaf? && l.id in Ids(t) && TreeOk(view, l, [], None, 1, limit)
    decreases h, 0
  {
    hide Less, LeafSize, LeafPage, InternalPage, InternalSize, KidsOk, IdsOf, LeavesOf, Flat, SortedEntries,
      EntriesInRange;
    if t.Leaf? {
      FlatOne(t);
      BottomOk(lo);
      TreeWiden(view, t, lo, hi, lo, None, h, limit);
      TreeWiden(view, t, lo, None, [], None, h, limit);
    } else {
      KidsSorted(view, t.ents, lo, hi, h - 1, limit);
    }
  }

  lemma BottomOk(lo: Key)
    ensures lo == [] || Less([], lo)
  {
    OrderLaws();
  }

  lemma {:induction false} KidsSorted(view: View, ents: seq<Ent>, lo: Key, hi: Option<Key>, h: nat, limit: nat)
    requires KidsOk(view, ents, lo, hi, h, limit)
    ensures SortedEntries(Flat(LeavesOf(ents))) && EntriesInRange(Flat(LeavesOf(ents)), lo, hi) && LeavesOf(ents) != []
    ensures forall l :: l in LeavesOf(ents) ==> l.Leaf? && l.id in IdsOf(ents) && TreeOk(view, l, [], None, 1, limit)
    decreases h, |ents|
  {
    hide Less, LeafSize;
    var front, e := ents[..|ents| - 1], ents[|ents| - 1];
    if front == [] {
      TreeSorted(view, e.kid, lo, hi, h, limit);
      assert LeavesOf(ents) == Leaves(e.kid);
    } else {
      KidsSorted(view, front, lo, e.key, h, limit);
      TreeSorted(view, e.kid, e.key.value, hi, h, limit);
      FlatAppend(LeavesOf(front), Leaves(e.kid));
      SortedConcat(Flat(LeavesOf(front)), Flat(Leaves(e.kid)), lo, e.key.value, hi);
    }
  }
}
