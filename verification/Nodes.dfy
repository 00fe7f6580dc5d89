/** B+tree nodes on pages: entry codecs, whole-page builds, and the arithmetic of by-count splits. */
module Nodes {
  import opened Bytes
  import opened Pages

  type Key = Bytes
  type Value = Bytes

  datatype Entry = Entry(key: Key, value: Value)
  /** `key == None` marks the leftmost child. */
  datatype InternalEntry = InternalEntry(key: Option<Key>, child: PageId)

  const NO_SIBLING: PageId := 0
  const META_PAGE_ID: PageId := 0
  /** Page ids are u64. */
  const MAX_PAGE_IDS: nat := 0x1_0000_0000_0000_0000

  /** The largest key plus value for which a by-count split always yields two halves that fit. */
  const MAX_ENTRY: nat := 180

  // ---------------------------------------------------------------------------
  // Codecs

  function EncodeLeafEntry(e: Entry): Bytes {
    ToLE(|e.key|, 2) + e.key + ToLE(|e.value|, 2) + e.value
  }

  predicate IsLeafEntry(bs: Bytes) {
    |bs| >= 2 &&
    var klen := FromLE(bs[0..2]);
    |bs| >= 4 + klen &&
    var vlen := FromLE(bs[2 + klen..4 + klen]);
    |bs| >= 4 + klen + vlen
  }

  function DecodeLeafEntry(bs: Bytes): Entry
    requires IsLeafEntry(bs)
  {
    var klen := FromLE(bs[0..2]);
    var vlen := FromLE(bs[2 + klen..4 + klen]);
    Entry(bs[2..2 + klen], bs[4 + klen..4 + klen + vlen])
  }

  function EncodeLeafSibling(next: PageId): Bytes {
    ToLE(U16_MAX, 2) + ToLE(next, 8)
  }

  function DecodeLeafSibling(bs: Bytes): PageId
    requires |bs| >= 10
  {
    FromLE(bs[2..10])
  }

  function EncodeInternalEntry(e: InternalEntry): Bytes {
    (match e.key
     case Some(k) => ToLE(|k|, 2) + k
     case None => ToLE(U16_MAX, 2))
    + ToLE(e.child, 8)
  }

  predicate IsInternalEntry(bs: Bytes) {
    |bs| >= 10 && (FromLE(bs[0..2]) == U16_MAX || |bs| >= 10 + FromLE(bs[0..2]))
  }

  function DecodeInternalEntry(bs: Bytes): InternalEntry
    requires IsInternalEntry(bs)
  {
    var klen := FromLE(bs[0..2]);
    if klen == U16_MAX then InternalEntry(None, FromLE(bs[2..10]))
    else InternalEntry(Some(bs[2..2 + klen]), FromLE(bs[2 + klen..10 + klen]))
  }

  predicate SmallEntry(e: Entry) {
    |e.key| + |e.value| <= MAX_ENTRY
  }

  predicate SmallInternal(e: InternalEntry) {
    e.child < MAX_PAGE_IDS && (e.key.Some? ==> |e.key.value| <= MAX_ENTRY)
  }

  lemma LeafEntryRoundTrip(e: Entry)
    requires |e.key| < U16_MAX && |e.value| < U16_MAX
    ensures IsLeafEntry(EncodeLeafEntry(e)) && DecodeLeafEntry(EncodeLeafEntry(e)) == e
    ensures var bs, k := EncodeLeafEntry(e), |e.key|;
            && |bs| == 4 + k + |e.value| && FromLE(bs[0..2]) == k && bs[2..2 + k] == e.key
            && FromLE(bs[2 + k..4 + k]) == |e.value| && bs[4 + k..] == e.value
  {
    var bs := EncodeLeafEntry(e);
    PowWidths();
    FromToLE(|e.key|, 2);
    FromToLE(|e.value|, 2);
    assert bs[0..2] == ToLE(|e.key|, 2);
    assert bs[2 + |e.key|..4 + |e.key|] == ToLE(|e.value|, 2);
    assert bs[2..2 + |e.key|] == e.key;
    assert bs[4 + |e.key|..4 + |e.key| + |e.value|] == e.value;
  }

  lemma LeafSiblingRoundTrip(next: PageId)
    requires next < MAX_PAGE_IDS
    ensures DecodeLeafSibling(EncodeLeafSibling(next)) == next
  {
    PowWidths();
    FromToLE(next, 8);
    assert EncodeLeafSibling(next)[2..10] == ToLE(next, 8);
  }

  lemma InternalEntryRoundTrip(e: InternalEntry)
    requires e.child < MAX_PAGE_IDS && (e.key.Some? ==> |e.key.value| < U16_MAX)
    ensures IsInternalEntry(EncodeInternalEntry(e)) && DecodeInternalEntry(EncodeInternalEntry(e)) == e
    ensures var bs := EncodeInternalEntry(e);
            && FromLE(bs[0..2]) == (if e.key.Some? then |e.key.value| else U16_MAX)
            && |bs| >= 10 && FromLE(bs[|bs| - 8..]) == e.child && (e.key.Some? ==> bs[2..|bs| - 8] == e.key.value)
  {
    var bs := EncodeInternalEntry(e);
    PowWidths();
    FromToLE(e.child, 8);
    match e.key {
      case Some(k) =>
        FromToLE(|k|, 2);
        assert bs[0..2] == ToLE(|k|, 2);
        assert bs[2..2 + |k|] == k;
        assert bs[2 + |k|..10 + |k|] == ToLE(e.child, 8);
      case None =>
        FromToLE(U16_MAX, 2);
        assert bs[0..2] == ToLE(U16_MAX, 2);
        assert bs[2..10] == ToLE(e.child, 8);
    }
  }

  // ---------------------------------------------------------------------------
  // Whole pages

  function EntrySlots(entries: seq<Entry>): seq<Slot> {
    seq(|entries|, i requires 0 <= i < |entries| => Live(EncodeLeafEntry(entries[i])))
  }

  function LeafSlots(entries: seq<Entry>, next: PageId): seq<Slot> {
    [Live(EncodeLeafSibling(next))] + EntrySlots(entries)
  }

  /** The page holding exactly `entries`, in order, behind the sibling pointer in slot 0. */
  function LeafPage(entries: seq<Entry>, next: PageId): Page {
    Page(BTreeLeaf, LeafSlots(entries, next))
  }

  function InternalSlots(entries: seq<InternalEntry>): seq<Slot> {
    seq(|entries|, i requires 0 <= i < |entries| => Live(EncodeInternalEntry(entries[i])))
  }

  function InternalPage(entries: seq<InternalEntry>): Page {
    Page(BTreeInternal, InternalSlots(entries))
  }

  function MetaPage(root: PageId): Page {
    Page(Meta, [Live(ToLE(root, 8))])
  }

  predicate AllLive(p: Page) {
    forall i :: 0 <= i < |p.slots| ==> p.slots[i].Live?
  }

  predicate IsLeafPage(p: Page) {
    && p.ptype == BTreeLeaf && AllLive(p)
    && |p.slots| >= 1 && |p.slots[0].data| >= 10
    && forall i :: 1 <= i < |p.slots| ==> IsLeafEntry(p.slots[i].data)
  }

  predicate IsInternalPage(p: Page) {
    && p.ptype == BTreeInternal && AllLive(p)
    && forall i :: 0 <= i < |p.slots| ==> IsInternalEntry(p.slots[i].data)
  }

  function ReadLeafEntries(p: Page): seq<Entry>
    requires IsLeafPage(p)
  {
    seq(|p.slots| - 1, i requires 0 <= i < |p.slots| - 1 => DecodeLeafEntry(p.slots[i + 1].data))
  }

  function ReadLeafSibling(p: Page): PageId
    requires IsLeafPage(p)
  {
    DecodeLeafSibling(p.slots[0].data)
  }

  function ReadInternalEntries(p: Page): seq<InternalEntry>
    requires IsInternalPage(p)
  {
    seq(|p.slots|, i requires 0 <= i < |p.slots| => DecodeInternalEntry(p.slots[i].data))
  }

  predicate SmallEntries(entries: seq<Entry>) {
    forall e :: e in entries ==> SmallEntry(e)
  }

  predicate SmallInternals(entries: seq<InternalEntry>) {
    forall e :: e in entries ==> SmallInternal(e)
  }

  lemma LeafPageReads(entries: seq<Entry>, next: PageId)
    requires SmallEntries(entries) && next < MAX_PAGE_IDS
    ensures IsLeafPage(LeafPage(entries, next))
    ensures ReadLeafEntries(LeafPage(entries, next)) == entries
    ensures ReadLeafSibling(LeafPage(entries, next)) == next
  {
    hide EncodeLeafEntry, DecodeLeafEntry, IsLeafEntry, EncodeLeafSibling, DecodeLeafSibling;
    var p := LeafPage(entries, next);
    LeafSiblingRoundTrip(next);
    assert |p.slots[0].data| >= 10 by { SiblingLen(next); }
    forall i | 0 <= i < |entries|
      ensures IsLeafEntry(p.slots[i + 1].data) && DecodeLeafEntry(p.slots[i + 1].data) == entries[i]
    {
      assert SmallEntry(entries[i]);
      LeafEntryRoundTrip(entries[i]);
    }
    forall i | 1 <= i < |p.slots| ensures IsLeafEntry(p.slots[i].data) {
      assert IsLeafEntry(p.slots[(i - 1) + 1].data);
    }
  }

  lemma SiblingLen(next: PageId)
    ensures |EncodeLeafSibling(next)| == 10
  {
  }

  lemma InternalPageReads(entries: seq<InternalEntry>)
    requires SmallInternals(entries)
    ensures IsInternalPage(InternalPage(entries)) && ReadInternalEntries(InternalPage(entries)) == entries
  {
    hide EncodeInternalEntry, DecodeInternalEntry, IsInternalEntry;
    var p := InternalPage(entries);
    forall i | 0 <= i < |entries|
      ensures IsInternalEntry(p.slots[i].data) && DecodeInternalEntry(p.slots[i].data) == entries[i]
    {
      assert SmallInternal(entries[i]);
      InternalEntryRoundTrip(entries[i]);
    }
  }

  // ---------------------------------------------------------------------------
  // Sizes

  /** Page bytes a leaf needs for `entries` besides the sibling slot. */
  function LeafSize(entries: seq<Entry>): nat {
    if entries == [] then 0
    else var e := entries[|entries| - 1];
      LeafSize(entries[..|entries| - 1]) + SLOT_LEN + 4 + |e.key| + |e.value|
  }

  const LEAF_CAPACITY: nat := PAGE_CAPACITY - SLOT_LEN - 10

  function InternalEntrySize(e: InternalEntry): nat {
    SLOT_LEN + 10 + if e.key.Some? then |e.key.value| else 0
  }

  function InternalSize(entries: seq<InternalEntry>): nat {
    if entries == [] then 0
    else InternalSize(entries[..|entries| - 1]) + InternalEntrySize(entries[|entries| - 1])
  }

  lemma {:induction false} LeafUsed(entries: seq<Entry>, next: PageId)
    ensures Used(LeafSlots(entries, next)) == SLOT_LEN + 10 + LeafSize(entries)
  {
    var slots := LeafSlots(entries, next);
    if entries == [] {
      assert slots[..0] == [] && RecordBytes(slots) == |EncodeLeafSibling(next)|;
    } else {
      LeafUsed(entries[..|entries| - 1], next);
      assert slots[..|slots| - 1] == LeafSlots(entries[..|entries| - 1], next);
    }
  }

  lemma {:induction false} InternalUsed(entries: seq<InternalEntry>)
    ensures Used(InternalSlots(entries)) == InternalSize(entries)
  {
    if entries != [] {
      var slots := InternalSlots(entries);
      InternalUsed(entries[..|entries| - 1]);
      assert slots[..|slots| - 1] == InternalSlots(entries[..|entries| - 1]);
    }
  }

  lemma {:induction false} LeafSizeAppend(a: seq<Entry>, b: seq<Entry>)
    ensures LeafSize(a + b) == LeafSize(a) + LeafSize(b)
  {
    if b == [] {
      assert a + b == a;
    } else {
      LeafSizeAppend(a, b[..|b| - 1]);
      assert (a + b)[..|a + b| - 1] == a + b[..|b| - 1];
    }
  }

  lemma {:induction false} InternalSizeAppend(a: seq<InternalEntry>, b: seq<InternalEntry>)
    ensures InternalSize(a + b) == InternalSize(a) + InternalSize(b)
  {
    if b == [] {
      assert a + b == a;
    } else {
      InternalSizeAppend(a, b[..|b| - 1]);
      assert (a + b)[..|a + b| - 1] == a + b[..|b| - 1];
    }
  }

  lemma {:induction false} LeafSizeBounds(entries: seq<Entry>)
    requires SmallEntries(entries)
    ensures 8 * |entries| <= LeafSize(entries) <= (8 + MAX_ENTRY) * |entries|
  {
    if entries != [] {
      assert SmallEntry(entries[|entries| - 1]);
      LeafSizeBounds(entries[..|entries| - 1]);
    }
  }

  lemma {:induction false} InternalSizeBounds(entries: seq<InternalEntry>)
    requires SmallInternals(entries)
    ensures 14 * |entries| <= InternalSize(entries) <= (14 + MAX_ENTRY) * |entries|
  {
    if entries != [] {
      assert SmallInternal(entries[|entries| - 1]);
      InternalSizeBounds(entries[..|entries| - 1]);
    }
  }

  predicate SortedEntries(es: seq<Entry>) {
    forall i, j :: 0 <= i < j < |es| ==> Less(es[i].key, es[j].key)
  }

  /** Only the first key of a sorted list can be empty, so every later entry takes at least nine bytes. */
  lemma {:induction false} SortedSizes(entries: seq<Entry>, from: nat, to: nat)
    requires SortedEntries(entries) && from <= to <= |entries|
    ensures LeafSize(entries[from..to]) >= 9 * (to - from) - if from == 0 then 1 else 0
  {
    if from < to {
      SortedSizes(entries, from, to - 1);
      assert entries[from..to][..to - 1 - from] == entries[from..to - 1];
      assert to > 1 ==> Less(entries[0].key, entries[to - 1].key);
    }
  }

  /** A sorted leaf that overflows by at most one entry splits by count into two halves that fit. */
  lemma LeafSplitFits(entries: seq<Entry>)
    requires SmallEntries(entries) && SortedEntries(entries)
    requires LEAF_CAPACITY < LeafSize(entries) <= LEAF_CAPACITY + 8 + MAX_ENTRY
    ensures var mid := |entries| / 2;
            && 1 <= mid < |entries|
            && LeafSize(entries[..mid]) <= LEAF_CAPACITY && LeafSize(entries[mid..]) <= LEAF_CAPACITY
  {
    hide LeafSize, SmallEntry, SortedEntries;
    var mid := |entries| / 2;
    var left, right := entries[..mid], entries[mid..];
    assert entries == left + right;
    LeafSizeAppend(left, right);
    LeafSizeBounds(left);
    LeafSizeBounds(right);
    SortedSizes(entries, 0, mid);
    SortedSizes(entries, mid, |entries|);
    assert entries[0..mid] == left && entries[mid..|entries|] == right;
    HalvesFit(|entries|, LeafSize(left), LeafSize(right));
  }

  lemma HalvesFit(n: nat, left: nat, right: nat)
    requires LEAF_CAPACITY < left + right <= LEAF_CAPACITY + 8 + MAX_ENTRY
    requires 9 * (n / 2) - 1 <= left <= (8 + MAX_ENTRY) * (n / 2)
    requires 9 * (n - n / 2) - (if n / 2 == 0 then 1 else 0) <= right <= (8 + MAX_ENTRY) * (n - n / 2)
    ensures 1 <= n / 2 < n && left <= LEAF_CAPACITY && right <= LEAF_CAPACITY
  {
    assert n - n / 2 >= 23 ==> n / 2 >= 22;
    assert n - n / 2 == 22 ==> n / 2 >= 21;
  }

  function EntrySize(e: Entry): nat {
    8 + |e.key| + |e.value|
  }

  /** Entries of at most `max` bytes: whenever one of them makes a leaf overflow, both halves fit. */
  ghost predicate SplitsFit(max: nat) {
    forall entries: seq<Entry>, i: nat ::
      && i < |entries| && SortedEntries(entries) && (forall e :: e in entries ==> |e.key| + |e.value| <= max)
      && LeafSize(entries) - EntrySize(entries[i]) <= LEAF_CAPACITY < LeafSize(entries) ==>
        LeafSize(entries[..|entries| / 2]) <= LEAF_CAPACITY && LeafSize(entries[|entries| / 2..]) <= LEAF_CAPACITY
  }

  /** That is so exactly up to 180 bytes of key and value. */
  lemma SplitsFitIff(max: nat)
    ensures SplitsFit(max) <==> max <= MAX_ENTRY
  {
    hide LeafSize;
    if max <= MAX_ENTRY {
      forall entries: seq<Entry>, i: nat |
        && i < |entries| && SortedEntries(entries) && (forall e :: e in entries ==> |e.key| + |e.value| <= max)
        && LeafSize(entries) - EntrySize(entries[i]) <= LEAF_CAPACITY < LeafSize(entries)
        ensures LeafSize(entries[..|entries| / 2]) <= LEAF_CAPACITY
        ensures LeafSize(entries[|entries| / 2..]) <= LEAF_CAPACITY
      {
        assert entries[i] in entries;
        LeafSplitFits(entries);
      }
    } else {
      var before, e := LargeEntriesBreakSplit();
      var after := before + [e];
      assert after[|before|] == e;
      LeafSizeSnoc(before, e);
    }
  }

  lemma LeafSizeSnoc(entries: seq<Entry>, e: Entry)
    ensures LeafSize(entries + [e]) == LeafSize(entries) + EntrySize(e)
  {
    assert (entries + [e])[..|entries|] == entries;
  }

  /** `n` entries of one size. */
  lemma {:induction false} UniformSize(entries: seq<Entry>, size: nat)
    requires forall i :: 0 <= i < |entries| ==> EntrySize(entries[i]) == size
    ensures LeafSize(entries) == size * |entries|
  {
    if entries != [] {
      UniformSize(entries[..|entries| - 1], size);
    }
  }

  /** Entry `i` of the failing leaf: a one-byte key, and a value that makes it `size` bytes long. */
  function SizedEntry(i: nat, size: nat): (e: Entry)
    requires 0 < i < 256 && size >= 9
    ensures EntrySize(e) == size && e.key == [i]
  {
    Entry([i], seq(size - 9, _ => 0))
  }

  function Block(first: nat, n: nat, size: nat): (b: seq<Entry>)
    requires 0 < first && first + n <= 256 && size >= 9
    ensures |b| == n && forall i :: 0 <= i < n ==> b[i] == SizedEntry(first + i, size)
  {
    seq(n, i requires 0 <= i < n => SizedEntry(first + i, size))
  }

  lemma BlockSize(first: nat, n: nat, size: nat)
    requires 0 < first && first + n <= 256 && size >= 9
    ensures LeafSize(Block(first, n, size)) == size * n
  {
    UniformSize(Block(first, n, size), size);
  }

  /** One byte more breaks it: a full leaf of 42 entries gains one of 181 bytes, and the right half of
      the split does not fit, after the left page has already been overwritten. */
  lemma LargeEntriesBreakSplit() returns (before: seq<Entry>, e: Entry)
    ensures |before| == 42 && SortedEntries(before + [e])
    ensures forall x :: x in before + [e] ==> |x.key| + |x.value| <= MAX_ENTRY + 1
    ensures LeafSize(before) == LEAF_CAPACITY < LeafSize(before + [e])
    ensures LeafSize((before + [e])[|before + [e]| / 2..]) > LEAF_CAPACITY
    ensures forall i :: 0 <= i < 21 ==> SmallEntry(before[i])
  {
    hide LeafSize, Block, SizedEntry;
    var empty := Entry([], []);
    var tiny, a, b := Block(1, 20, 9), Block(21, 7, 184), Block(28, 14, 185);
    e := SizedEntry(42, 189);
    before := [empty] + tiny + a + b;
    var after := before + [e];
    BlockSize(1, 20, 9);
    BlockSize(21, 7, 184);
    BlockSize(28, 14, 185);
    LeafSizeAppend([empty] + tiny + a, b);
    LeafSizeAppend([empty] + tiny, a);
    LeafSizeAppend([empty], tiny);
    UniformSize([empty], 8);
    LeafSizeSnoc(before, e);
    assert after[21..] == (a + b) + [e];
    LeafSizeAppend(a, b);
    LeafSizeSnoc(a + b, e);
    FailingLeafSorted(before, e, tiny, a, b);
  }

  /** The page writes of a leaf split in their order: the left half replaces the leaf before the right
      half is built. False is `PageError::Full`. */
  function SplitWrites(view: View, id: PageId, newId: PageId, entries: seq<Entry>, next: PageId): (View, bool) {
    var left, right := entries[..|entries| / 2], entries[|entries| / 2..];
    if LeafSize(left) > LEAF_CAPACITY then (view, false)
    else
      var view' := view[id := LeafPage(left, newId)];
      if LeafSize(right) > LEAF_CAPACITY then (view', false) else (view'[newId := LeafPage(right, next)], true)
  }

  /** So the insert fails with the leaf already cut down: of the 42 entries it held, 21 are left on it,
      and no page took the others. */
  lemma FailedSplitLosesEntries(view: View, id: PageId, newId: PageId, next: PageId)
    returns (before: seq<Entry>, e: Entry)
    requires id != newId && newId < MAX_PAGE_IDS && newId in view
    ensures |before| == 42 && SortedEntries(before + [e]) && LeafSize(before) <= LEAF_CAPACITY
    ensures var (view', ok) := SplitWrites(view, id, newId, before + [e], next);
            && !ok && view'[newId] == view[newId] && id in view'
            && IsLeafPage(view'[id]) && ReadLeafEntries(view'[id]) == before[..21]
  {
    hide LeafSize, SortedEntries, LeafPage, IsLeafPage, ReadLeafEntries, ReadLeafSibling;
    before, e := LargeEntriesBreakSplit();
    var after := before + [e];
    var left, right := after[..21], after[21..];
    assert after == left + right && left == before[..21] && |after| / 2 == 21;
    LeafSizeBounds(left);
    LeafPageReads(left, newId);
  }

  lemma FailingLeafSorted(before: seq<Entry>, e: Entry, tiny: seq<Entry>, a: seq<Entry>, b: seq<Entry>)
    requires tiny == Block(1, 20, 9) && a == Block(21, 7, 184) && b == Block(28, 14, 185) && e == SizedEntry(42, 189)
    requires before == [Entry([], [])] + tiny + a + b
    ensures SortedEntries(before + [e]) && forall x :: x in before + [e] ==> |x.key| + |x.value| <= MAX_ENTRY + 1
  {
    hide Block, SizedEntry;
    var after := before + [e];
    forall i | 0 <= i < |after|
      ensures after[i].key == (if i == 0 then [] else [i]) && EntrySize(after[i]) <= 9 + MAX_ENTRY
    {
      assert after[i] == if i == 0 then Entry([], []) else if i < 21 then tiny[i - 1] else if i < 28 then a[i - 21]
                         else if i < 42 then b[i - 28] else e;
    }
  }

  lemma InternalSplitSizes(entries: seq<InternalEntry>, mid: nat)
    requires mid < |entries|
    ensures InternalSize(entries)
         == InternalSize(entries[..mid]) + InternalEntrySize(entries[mid]) + InternalSize(entries[mid + 1..])
    ensures InternalSize([InternalEntry(None, entries[mid].child)] + entries[mid + 1..])
         == 14 + InternalSize(entries[mid + 1..])
  {
    var m, promoted := entries[mid], InternalEntry(None, entries[mid].child);
    assert entries == entries[..mid] + [m] + entries[mid + 1..];
    InternalSizeAppend(entries[..mid], [m]);
    InternalSizeAppend(entries[..mid] + [m], entries[mid + 1..]);
    InternalSizeAppend([promoted], entries[mid + 1..]);
    assert [m][..0] == [] && [promoted][..0] == [];
  }

  /** Likewise for an internal node, whose middle entry gives up its key to the parent. */
  lemma InternalSplitFits(entries: seq<InternalEntry>)
    requires SmallInternals(entries)
    requires PAGE_CAPACITY < InternalSize(entries) <= PAGE_CAPACITY + 14 + MAX_ENTRY
    ensures var mid := |entries| / 2;
            && 1 <= mid < |entries|
            && InternalSize(entries[..mid]) <= PAGE_CAPACITY
            && InternalSize([InternalEntry(None, entries[mid].child)] + entries[mid + 1..]) <= PAGE_CAPACITY
  {
    hide InternalSize;
    var mid := |entries| / 2;
    InternalSizeBounds(entries);
    InternalSplitSizes(entries, mid);
    InternalSizeBounds(entries[..mid]);
    InternalSizeBounds(entries[mid + 1..]);
  }

  // ---------------------------------------------------------------------------
  // Building pages and routing

  /** One more slot fits exactly when the larger directory and records still fit. */
  lemma InsertSpec(p: Page, data: Bytes)
    ensures Insert(p, data).Some? <==> Used(p.slots + [Live(data)]) <= PAGE_CAPACITY
    ensures Insert(p, data).Some? ==> Insert(p, data).value == Page(p.ptype, p.slots + [Live(data)])
  {
    var slots := p.slots + [Live(data)];
    assert slots[..|slots| - 1] == p.slots;
  }

  lemma EntrySlotsSnoc(entries: seq<Entry>, i: nat)
    requires i < |entries|
    ensures EntrySlots(entries[..i + 1]) == EntrySlots(entries[..i]) + [Live(EncodeLeafEntry(entries[i]))]
  {
    hide EncodeLeafEntry;
  }

  lemma LeafSlotsSnoc(entries: seq<Entry>, next: PageId, i: nat)
    requires i < |entries|
    ensures LeafSlots(entries[..i + 1], next) == LeafSlots(entries[..i], next) + [Live(EncodeLeafEntry(entries[i]))]
    ensures LeafSize(entries[..i + 1]) <= LeafSize(entries)
  {
    hide EncodeLeafEntry, EncodeLeafSibling, LeafSize, EntrySlots;
    LeafSizeAppend(entries[..i + 1], entries[i + 1..]);
    assert entries == entries[..i + 1] + entries[i + 1..];
    EntrySlotsSnoc(entries, i);
  }

  method BuildLeaf(entries: seq<Entry>, next: PageId) returns (p: Option<Page>)
    ensures p.Some? <==> LeafSize(entries) <= LEAF_CAPACITY
    ensures p.Some? ==> p.value == LeafPage(entries, next)
  {
    hide EncodeLeafEntry, EncodeLeafSibling, LeafSize, Used, Insert;
    var data := EncodeLeafSibling(next);
    p := Insert(NewPage(BTreeLeaf), data);
    assert entries[..0] == [] && [] + [Live(data)] == LeafSlots([], next);
    InsertSpec(NewPage(BTreeLeaf), data);
    LeafUsed([], next);
    LeafSizeBounds([]);
    for i := 0 to |entries|
      invariant p.Some? && p.value == LeafPage(entries[..i], next)
      invariant LeafSize(entries[..i]) <= LEAF_CAPACITY
    {
      data := EncodeLeafEntry(entries[i]);
      LeafSlotsSnoc(entries, next, i);
      LeafUsed(entries[..i + 1], next);
      InsertSpec(p.value, data);
      p := Insert(p.value, data);
      if p.None? {
        return;
      }
    }
    assert entries[..|entries|] == entries;
  }

  lemma InternalSlotsSnoc(entries: seq<InternalEntry>, i: nat)
    requires i < |entries|
    ensures InternalSlots(entries[..i + 1]) == InternalSlots(entries[..i]) + [Live(EncodeInternalEntry(entries[i]))]
    ensures InternalSize(entries[..i + 1]) <= InternalSize(entries)
  {
    hide EncodeInternalEntry, InternalSize, InternalSlots;
    InternalSizeAppend(entries[..i + 1], entries[i + 1..]);
    assert entries == entries[..i + 1] + entries[i + 1..];
    InternalSlotsAppend(entries[..i], entries[i]);
    assert entries[..i + 1] == entries[..i] + [entries[i]];
  }

  lemma InternalSlotsAppend(entries: seq<InternalEntry>, e: InternalEntry)
    ensures InternalSlots(entries + [e]) == InternalSlots(entries) + [Live(EncodeInternalEntry(e))]
  {
    hide EncodeInternalEntry;
  }

  method BuildInternal(entries: seq<InternalEntry>) returns (p: Option<Page>)
    ensures p.Some? <==> InternalSize(entries) <= PAGE_CAPACITY
    ensures p.Some? ==> p.value == InternalPage(entries)
  {
    hide EncodeInternalEntry, InternalSize, Used, Insert;
    p := Some(NewPage(BTreeInternal));
    assert entries[..0] == [];
    InternalUsed([]);
    InternalSizeBounds([]);
    for i := 0 to |entries|
      invariant p.Some? && p.value == InternalPage(entries[..i])
      invariant InternalSize(entries[..i]) <= PAGE_CAPACITY
    {
      var data := EncodeInternalEntry(entries[i]);
      InternalSlotsSnoc(entries, i);
      InternalUsed(entries[..i + 1]);
      InsertSpec(p.value, data);
      p := Insert(p.value, data);
      if p.None? {
        return;
      }
    }
    assert entries[..|entries|] == entries;
  }

  /** Every entry but the first carries a separator. */
  predicate Keyed(entries: seq<InternalEntry>) {
    entries != [] && forall i :: 1 <= i < |entries| ==> entries[i].key.Some?
  }

  /** `i` is the last entry of an initial run whose separators are all at most `key`. */
  predicate Routes(entries: seq<InternalEntry>, key: Key, i: nat)
    requires Keyed(entries)
  {
    && i < |entries|
    && (forall j :: 1 <= j <= i ==> !Less(key, entries[j].key.value))
    && (i + 1 < |entries| ==> Less(key, entries[i + 1].key.value))
  }

  method RouteIndex(entries: seq<InternalEntry>, key: Key) returns (chosen: nat)
    requires Keyed(entries)
    ensures Routes(entries, key, chosen)
  {
    hide Less;
    chosen := 0;
    var i := 1;
    while i < |entries|
      invariant 1 <= i <= |entries| && chosen == i - 1
      invariant forall j :: 1 <= j <= chosen ==> !Less(key, entries[j].key.value)
    {
      if Less(key, entries[i].key.value) {
        break;
      }
      chosen := i;
      i := i + 1;
    }
  }

  /** Where a new separator goes: before the first larger one. */
  method InsertPosition(entries: seq<InternalEntry>, sep: Key) returns (at: nat)
    requires Keyed(entries)
    ensures 1 <= at <= |entries|
    ensures forall j :: 1 <= j < at ==> !Less(sep, entries[j].key.value)
    ensures at < |entries| ==> Less(sep, entries[at].key.value)
  {
    hide Less;
    at := 1;
    while at < |entries|
      invariant 1 <= at <= |entries|
      invariant forall j :: 1 <= j < at ==> !Less(sep, entries[j].key.value)
    {
      if Less(sep, entries[at].key.value) {
        break;
      }
      at := at + 1;
    }
  }
}
