/** A fixed-capacity buffer pool with clock eviction, pinning and dirty tracking over a page store. */
module Buffers {
  import opened Bytes
  import opened Pages

  datatype Frame = Frame(id: PageId, page: Page, pins: nat, dirty: bool, refBit: bool)

  type Table = map<PageId, nat>
  type Store = map<PageId, Page>

  /** The page the store alone yields: the stored version, or a fresh data page. */
  function Stored(store: Store, id: PageId): Page {
    if id in store then store[id] else NewPage(Data)
  }

  /** Page table and frames are inverse to each other, apart from a frame being replaced. */
  ghost predicate Bijection(frames: seq<Frame>, table: Table, hole: int) {
    && (forall id :: id in table ==> table[id] < |frames| && table[id] != hole && frames[table[id]].id == id)
    && (forall i :: 0 <= i < |frames| && i != hole ==> frames[i].id in table && table[frames[i].id] == i)
  }

  /** Only dirty or touched frames may differ from the store. */
  ghost predicate Clean(frames: seq<Frame>, store: Store, touched: set<PageId>, hole: int) {
    forall i :: 0 <= i < |frames| && i != hole && !frames[i].dirty && frames[i].id !in touched ==>
      frames[i].page == Stored(store, frames[i].id)
  }

  /** A client reads the cached frame, else the stored page. */
  ghost predicate Logical(frames: seq<Frame>, table: Table, store: Store, view: View) {
    forall id: PageId :: id in view && view[id] ==
      if id in table && table[id] < |frames| then frames[table[id]].page else Stored(store, id)
  }

  ghost predicate PinsCounted(frames: seq<Frame>, table: Table, pins: multiset<PageId>) {
    forall id: PageId :: pins[id] == if id in table && table[id] < |frames| then frames[table[id]].pins else 0
  }

  ghost predicate PoolInv(frames: seq<Frame>, table: Table, store: Store,
                          view: View, pins: multiset<PageId>, touched: set<PageId>, hole: int)
  {
    && Bijection(frames, table, hole) && Clean(frames, store, touched, hole)
    && Logical(frames, table, store, view) && PinsCounted(frames, table, pins)
    && (forall id :: id in touched ==> pins[id] > 0)
  }

  /** Frames agree except possibly in their reference bits. */
  ghost predicate SameButRefBits(a: seq<Frame>, b: seq<Frame>) {
    |a| == |b| && forall i :: 0 <= i < |a| ==> a[i] == b[i].(refBit := a[i].refBit)
  }

  lemma RefBitsHarmless(frames: seq<Frame>, frames': seq<Frame>, table: Table, store: Store,
                        view: View, pins: multiset<PageId>, touched: set<PageId>)
    requires PoolInv(frames, table, store, view, pins, touched, -1) && SameButRefBits(frames', frames)
    ensures PoolInv(frames', table, store, view, pins, touched, -1)
    ensures |frames'| == |frames|
  {
  }

  lemma GrowKeeps(frames: seq<Frame>, hole: Frame, table: Table, store: Store,
                  view: View, pins: multiset<PageId>, touched: set<PageId>)
    requires PoolInv(frames, table, store, view, pins, touched, -1)
    ensures PoolInv(frames + [hole], table, store, view, pins, touched, |frames|)
  {
  }

  /** Evicting an unpinned frame, written back if dirty, changes no page a client can read. */
  lemma EvictKeeps(frames: seq<Frame>, table: Table, store: Store, store': Store,
                   view: View, pins: multiset<PageId>, touched: set<PageId>, idx: nat)
    requires PoolInv(frames, table, store, view, pins, touched, -1)
    requires idx < |frames| && frames[idx].pins == 0
    requires store' == if frames[idx].dirty then store[frames[idx].id := frames[idx].page] else store
    ensures PoolInv(frames, table - {frames[idx].id}, store', view, pins, touched, idx)
    ensures frames[idx].id in table
  {
    var victim := frames[idx];
    assert pins[victim.id] == 0;
    forall id: PageId
      ensures view[id] == if id in table - {victim.id} then frames[table[id]].page else Stored(store', id)
    {
      if id == victim.id {
        assert table[id] == idx;
      }
    }
  }

  /** Installing a pinned frame in the hole: the page it holds becomes what clients read. */
  lemma InstallKeeps(frames: seq<Frame>, table: Table, store: Store, view: View,
                     pins: multiset<PageId>, touched: set<PageId>, hole: nat, f: Frame)
    requires hole < |frames| && PoolInv(frames, table, store, view, pins, touched, hole)
    requires f.id !in table && f.pins == 1 && (f.dirty || f.page == Stored(store, f.id))
    ensures PoolInv(frames[hole := f], table[f.id := hole], store, view[f.id := f.page],
                    pins + multiset{f.id}, touched, -1)
  {
    assert pins[f.id] == 0;
  }

  /** What one cached frame says about its page id. */
  lemma FrameOf(frames: seq<Frame>, table: Table, store: Store, view: View,
                pins: multiset<PageId>, touched: set<PageId>, id: PageId)
    requires PoolInv(frames, table, store, view, pins, touched, -1)
    ensures id in view
    ensures id in table ==> table[id] < |frames| && frames[table[id]].id == id && view[id] == frames[table[id]].page
    ensures id in table ==> pins[id] == frames[table[id]].pins
    ensures id in touched ==> pins[id] > 0
    ensures id !in table ==> pins[id] == 0 && view[id] == Stored(store, id)
    ensures id in table && !frames[table[id]].dirty && id !in touched ==> view[id] == Stored(store, id)
  {
  }

  /** Re-pinning, unpinning, replacing or cleaning one cached frame keeps the pool consistent. */
  lemma UpdateKeeps(frames: seq<Frame>, table: Table, store: Store, view: View, pins: multiset<PageId>,
                    touched: set<PageId>, store': Store, touched': set<PageId>, id: PageId, f: Frame)
    requires PoolInv(frames, table, store, view, pins, touched, -1)
    requires id in table && table[id] < |frames| && f.id == id
    requires store' == store || store' == store[id := f.page]
    requires touched - {id} <= touched' <= touched + {id}
    requires id in touched' ==> f.pins > 0
    requires f.dirty || id in touched' || f.page == Stored(store', id)
    ensures PoolInv(frames[table[id] := f], table, store', view[id := f.page], pins[id := f.pins], touched', -1)
  {
    var frames' := frames[table[id] := f];
    forall i | 0 <= i < |frames| && !frames'[i].dirty && frames'[i].id !in touched'
      ensures frames'[i].page == Stored(store', frames'[i].id)
    {
      if i != table[id] {
        assert frames[i].id != id;
      }
    }
  }

  lemma PinKeeps(frames: seq<Frame>, table: Table, store: Store, view: View,
                 pins: multiset<PageId>, touched: set<PageId>, id: PageId, f: Frame)
    requires PoolInv(frames, table, store, view, pins, touched, -1)
    requires id in table && table[id] < |frames|
    requires f == frames[table[id]].(pins := frames[table[id]].pins + 1, refBit := true)
    ensures PoolInv(frames[table[id] := f], table, store, view, pins + multiset{id}, touched, -1)
  {
    UpdateKeeps(frames, table, store, view, pins, touched, store, touched, id, f);
    assert view[id := f.page] == view;
    assert pins[id := f.pins] == pins + multiset{id};
  }

  lemma UnpinKeeps(frames: seq<Frame>, table: Table, store: Store, view: View,
                   pins: multiset<PageId>, touched: set<PageId>, id: PageId, dirtied: bool, f: Frame)
    requires PoolInv(frames, table, store, view, pins, touched, -1)
    requires id in table && table[id] < |frames| && pins[id] > 0
    requires id in touched && pins[id] == 1 ==> dirtied
    requires f == frames[table[id]].(pins := pins[id] - 1, dirty := frames[table[id]].dirty || dirtied)
    ensures PoolInv(frames[table[id] := f], table, store, view, pins - multiset{id},
                    if dirtied then touched - {id} else touched, -1)
  {
    UpdateKeeps(frames, table, store, view, pins, touched, store, if dirtied then touched - {id} else touched, id, f);
    assert view[id := f.page] == view;
    assert pins[id := f.pins] == pins - multiset{id};
  }

  // ---------------------------------------------------------------------------
  // The clock

  /** How many steps the clock hand takes from `from` to `to` around `capacity` frames. */
  function Distance(capacity: nat, from: nat, to: nat): nat
    requires from < capacity && to < capacity
  {
    if from <= to then to - from else to + capacity - from
  }

  /** The clock hand after `scanned` steps from `start`. */
  ghost predicate HandAfter(capacity: nat, start: nat, scanned: nat, hand: nat)
    requires start < capacity && hand < capacity
  {
    && scanned <= 2 * capacity + 1
    && (scanned < capacity ==> Distance(capacity, start, hand) == scanned)
    && (capacity <= scanned < 2 * capacity ==> Distance(capacity, start, hand) == scanned - capacity)
    && (scanned == 2 * capacity ==> hand == start)
  }

  /** An unpinned frame has lost its reference bit once passed, and is not passed twice. */
  ghost predicate Swept(frames: seq<Frame>, start: nat, scanned: nat)
    requires start < |frames|
  {
    forall i :: 0 <= i < |frames| && frames[i].pins == 0 ==>
      && (Distance(|frames|, start, i) < scanned ==> !frames[i].refBit)
      && scanned <= |frames| + Distance(|frames|, start, i)
  }

  predicate Idle(f: Frame) {
    f.pins == 0 && !f.refBit
  }

  /** Second chance: the first unpinned frame from the hand on whose reference bit is clear; only if every
      unpinned frame was referenced, the first unpinned one. */
  ghost predicate IsVictim(frames: seq<Frame>, start: nat, v: nat)
    requires start < |frames|
  {
    && v < |frames| && frames[v].pins == 0
    && (frames[v].refBit ==> forall i :: 0 <= i < |frames| ==> !Idle(frames[i]))
    && forall i :: 0 <= i < |frames| && frames[i].pins == 0 && (frames[v].refBit || Idle(frames[i])) ==>
         Distance(|frames|, start, v) <= Distance(|frames|, start, i)
  }

  /** Exactly the unpinned frames passed so far lost their reference bit, and all of those had it. */
  ghost predicate Passed(before: seq<Frame>, frames: seq<Frame>, start: nat, scanned: nat)
    requires start < |frames| == |before|
  {
    forall i :: 0 <= i < |frames| && before[i].pins == 0 ==>
      && (frames[i].refBit <==> before[i].refBit && Distance(|frames|, start, i) >= scanned)
      && (Distance(|frames|, start, i) < scanned ==> before[i].refBit)
  }

  lemma PassedStep(before: seq<Frame>, frames: seq<Frame>, start: nat, scanned: nat, hand: nat)
    requires start < |frames| == |before| && hand < |frames| && HandAfter(|frames|, start, scanned, hand)
    requires SameButRefBits(frames, before) && Passed(before, frames, start, scanned)
    ensures frames[hand].pins > 0 ==> Passed(before, frames, start, scanned + 1)
    ensures frames[hand].refBit ==> Passed(before, frames[hand := frames[hand].(refBit := false)], start, scanned + 1)
  {
    forall i | 0 <= i < |frames| && i != hand ensures Distance(|frames|, start, i) != Distance(|frames|, start, hand) {
    }
  }

  /** The frame the sweep stops at is the victim the clock rule names. */
  lemma StopsAtVictim(before: seq<Frame>, frames: seq<Frame>, start: nat, scanned: nat, hand: nat)
    requires start < |frames| == |before| && hand < |frames| && HandAfter(|frames|, start, scanned, hand)
    requires SameButRefBits(frames, before) && Passed(before, frames, start, scanned) && Swept(frames, start, scanned)
    requires Idle(frames[hand])
    ensures IsVictim(before, start, hand)
    ensures forall i :: 0 <= i < |frames| && before[i].pins == 0 ==>
              (frames[i].refBit <==> before[i].refBit && !before[hand].refBit &&
                                     Distance(|frames|, start, i) > Distance(|frames|, start, hand))
  {
    assert forall i :: 0 <= i < |frames| ==> before[i].pins == frames[i].pins;
    forall i | 0 <= i < |frames| && i != hand ensures Distance(|frames|, start, i) != Distance(|frames|, start, hand) {
    }
  }

  lemma WrapAround(hand: nat, capacity: nat)
    requires hand < capacity
    ensures (hand + 1) % capacity == (if hand + 1 == capacity then 0 else hand + 1)
  {
  }

  lemma HandAdvances(capacity: nat, start: nat, scanned: nat, hand: nat)
    requires start < capacity && hand < capacity && scanned <= 2 * capacity
    requires HandAfter(capacity, start, scanned, hand)
    ensures HandAfter(capacity, start, scanned + 1, if hand + 1 == capacity then 0 else hand + 1)
  {
  }

  /** Passing a pinned frame, or one whose bit the pass clears, keeps the sweep's progress. */
  lemma SweepStep(frames: seq<Frame>, start: nat, scanned: nat, hand: nat)
    requires start < |frames| && hand < |frames| && HandAfter(|frames|, start, scanned, hand)
    requires Swept(frames, start, scanned) && (frames[hand].pins > 0 || frames[hand].refBit)
    ensures frames[hand].pins > 0 ==> Swept(frames, start, scanned + 1)
    ensures Swept(frames[hand := frames[hand].(refBit := false)], start, scanned + 1)
  {
    forall i | 0 <= i < |frames| && frames[i].pins == 0
      ensures i != hand ==> Distance(|frames|, start, i) != Distance(|frames|, start, hand)
      ensures scanned + 1 <= |frames| + Distance(|frames|, start, i)
      ensures i != hand && Distance(|frames|, start, i) < scanned + 1 ==> !frames[i].refBit
    {
    }
  }

  lemma SweepStarts(frames: seq<Frame>, start: nat)
    requires start < |frames|
    ensures HandAfter(|frames|, start, 0, start) && Swept(frames, start, 0)
  {
  }

  lemma PassedNone(frames: seq<Frame>, start: nat)
    requires start < |frames|
    ensures Passed(frames, frames, start, 0)
  {
  }

  lemma SweptTwice(frames: seq<Frame>, start: nat, scanned: nat)
    requires start < |frames| && Swept(frames, start, scanned) && scanned > 2 * |frames|
    ensures AllPinned(frames)
  {
  }

  ghost predicate AllPinned(frames: seq<Frame>) {
    forall i :: 0 <= i < |frames| ==> frames[i].pins > 0
  }

  /** Fewer outstanding pins than frames leaves a frame unpinned. */
  lemma {:induction false} PinnedFramesNeedPins(frames: seq<Frame>, pins: multiset<PageId>)
    requires AllPinned(frames)
    requires forall i, j :: 0 <= i < j < |frames| ==> frames[i].id != frames[j].id
    requires forall i :: 0 <= i < |frames| ==> pins[frames[i].id] == frames[i].pins
    ensures |pins| >= |frames|
  {
    if frames != [] {
      var last := |frames| - 1;
      var pins' := pins[frames[last].id := 0];
      PinnedFramesNeedPins(frames[..last], pins');
      assert pins == pins' + multiset{}[frames[last].id := pins[frames[last].id]];
    }
  }

  // ---------------------------------------------------------------------------
  // The pool

  class BufferPool {
    const capacity: nat

    // The page store behind the pool.
    var store: Store
    var nextId: PageId

    var frames: seq<Frame>
    var pageTable: Table
    var clockHand: nat

    /** What clients read through the pool. */
    ghost var view: View
    /** Outstanding pins, one per unmatched `Fetch` or `NewPage`. */
    ghost var pins: multiset<PageId>
    /** Pages replaced through `PageMut` and not yet unpinned as dirtied. */
    ghost var touched: set<PageId>

    ghost predicate Bounds()
      reads this
    {
      && 0 < capacity && |frames| <= capacity && clockHand < capacity
      && (forall id :: id in store ==> id < nextId)
      && (forall id :: id in pageTable ==> id < nextId)
    }

    ghost predicate Valid()
      reads this
    {
      Bounds() && PoolInv(frames, pageTable, store, view, pins, touched, -1)
    }

    /** The page is cached with its reference bit set, so the next sweep passes it over once. */
    ghost predicate Referenced(id: PageId)
      reads this
    {
      id in pageTable && pageTable[id] < |frames| && frames[pageTable[id]].refBit
    }

    /** No frame can be freed: the pool is full and everything in it is pinned. */
    ghost predicate Exhausted()
      reads this
    {
      |frames| == capacity && AllPinned(frames)
    }

    constructor (store: Store, nextId: PageId, capacity: nat)
      requires capacity > 0
      requires forall id :: id in store ==> id < nextId
      ensures Valid() && this.capacity == capacity && this.nextId == nextId
      ensures this.store == store && pins == multiset{} && touched == {}
      ensures forall id: PageId :: id in view && view[id] == if id in store then store[id] else Page(Data, [])
    {
      this.capacity := capacity;
      this.store, this.nextId := store, nextId;
      frames, pageTable, clockHand := [], map[], 0;
      view := imap id: PageId :: Stored(store, id);
      pins, touched := multiset{}, {};
    }

    lemma ViewIsTotal()
      requires Valid()
      ensures forall id: PageId :: id in view
    {
    }

    /** Only pages that exist are pinned. */
    lemma PinnedBelow(id: PageId)
      requires Valid() && pins[id] > 0
      ensures id < nextId
    {
      hide PoolInv;
      FrameOf(frames, pageTable, store, view, pins, touched, id);
    }

    /** Fewer outstanding pins than the capacity: the pool is not exhausted. */
    lemma NotExhausted()
      requires Valid() && |pins| < capacity
      ensures !Exhausted()
    {
      if Exhausted() {
        PinnedFramesNeedPins(frames, pins);
      }
    }

    /** The clock sweep: stops at an unpinned frame whose reference bit was already clear,
        clearing the bits of the unpinned frames it passes. */
    method Sweep() returns (victim: Option<nat>)
      requires 0 < capacity == |frames| && clockHand < capacity
      modifies this`frames, this`clockHand
      ensures clockHand < capacity && SameButRefBits(frames, old(frames))
      ensures victim.None? <==> AllPinned(old(frames))
      ensures victim.None? ==> frames == old(frames)
      ensures victim.Some? ==> victim.value < |frames| && frames[victim.value].pins == 0
      ensures victim.Some? ==> IsVictim(old(frames), old(clockHand), victim.value)
      ensures victim.Some? ==> clockHand == if victim.value + 1 == capacity then 0 else victim.value + 1
      ensures victim.Some? ==>
                var v, start, before := victim.value, old(clockHand), old(frames);
                forall i :: 0 <= i < |frames| && before[i].pins == 0 ==>
                  (frames[i].refBit <==> before[i].refBit && !before[v].refBit &&
                                         Distance(capacity, start, i) > Distance(capacity, start, v))
    {
      hide HandAfter, Swept, Distance, Passed, IsVictim;
      var scanned := 0;
      ghost var start := clockHand;
      SweepStarts(frames, start);
      PassedNone(frames, start);
      while true
        invariant clockHand < capacity && SameButRefBits(frames, old(frames))
        invariant forall i :: 0 <= i < |frames| && frames[i].pins > 0 ==> frames[i] == old(frames)[i]
        invariant HandAfter(capacity, start, scanned, clockHand)
        invariant Swept(frames, start, scanned) && Passed(old(frames), frames, start, scanned)
        decreases 2 * capacity + 1 - scanned
      {
        if scanned > 2 * capacity {
          SweptTwice(frames, start, scanned);
          return None;
        }
        var idx := clockHand;
        WrapAround(clockHand, capacity);
        HandAdvances(capacity, start, scanned, clockHand);
        clockHand := (clockHand + 1) % capacity;
        if frames[idx].pins > 0 || frames[idx].refBit {
          SweepStep(frames, start, scanned, idx);
          PassedStep(old(frames), frames, start, scanned, idx);
        } else {
          StopsAtVictim(old(frames), frames, start, scanned, idx);
        }
        scanned := scanned + 1;
        if frames[idx].pins > 0 {
          continue;
        }
        if frames[idx].refBit {
          frames := frames[idx := frames[idx].(refBit := false)];
          continue;
        }
        assert old(frames)[idx].pins == 0;
        return Some(idx);
      }
    }

    /** A frame for an uncached page: a new one while below capacity, otherwise an evicted
        unpinned one, written back if dirty. Fails exactly when the pool is exhausted. */
    method FindFrameFor(incoming: PageId) returns (idx: Option<nat>)
      requires Valid() && incoming !in pageTable
      modifies this`frames, this`pageTable, this`clockHand, this`store
      ensures Bounds() && incoming !in pageTable && Stored(store, incoming) == old(Stored(store, incoming))
      ensures idx.None? <==> old(Exhausted())
      ensures idx.None? ==> Valid() && frames == old(frames)
      ensures old(|frames|) < capacity ==> idx == Some(old(|frames|)) && pageTable == old(pageTable)
      ensures old(|frames|) == capacity && idx.Some? ==>
                && IsVictim(old(frames), old(clockHand), idx.value)
                && pageTable == old(pageTable) - {old(frames)[idx.value].id}
      ensures idx.Some? ==> idx.value < |frames| && PoolInv(frames, pageTable, store, view, pins, touched, idx.value)
    {
      hide PoolInv, IsVictim;
      if |frames| < capacity {
        GrowKeeps(frames, Frame(incoming, NewPage(Data), 0, false, false), pageTable, store, view, pins, touched);
        frames := frames + [Frame(incoming, NewPage(Data), 0, false, false)];
        return Some(|frames| - 1);
      }
      ghost var before := frames;
      idx := Sweep();
      RefBitsHarmless(before, frames, pageTable, store, view, pins, touched);
      if idx.Some? {
        var victim := frames[idx.value];
        ghost var store0 := store;
        if victim.dirty {
          store := store[victim.id := victim.page];
        }
        EvictKeeps(frames, pageTable, store0, store, view, pins, touched, idx.value);
        pageTable := pageTable - {victim.id};
      }
    }

    /** Allocates a page and pins it. On exhaustion the allocated id is lost, nothing else. */
    method NewPinned(ptype: PageType) returns (id: Option<PageId>)
      requires Valid()
      modifies this
      ensures Valid() && nextId == old(nextId) + 1 && touched == old(touched)
      ensures id.None? <==> old(Exhausted())
      ensures id.None? ==> view == old(view) && pins == old(pins)
      ensures id.Some? ==> id.value == old(nextId) && view == old(view)[id.value := NewPage(ptype)]
      ensures id.Some? ==> pins == old(pins) + multiset{id.value}
      ensures id.Some? ==> Referenced(id.value)
    {
      hide PoolInv;
      var newId := nextId;
      var idx := FindFrameFor(newId);
      nextId := nextId + 1;
      if idx.None? {
        return None;
      }
      var f := Frame(newId, NewPage(ptype), 1, true, true);
      InstallKeeps(frames, pageTable, store, view, pins, touched, idx.value, f);
      frames := frames[idx.value := f];
      pageTable := pageTable[newId := idx.value];
      view := view[newId := f.page];
      pins := pins + multiset{newId};
      return Some(newId);
    }

    /** Pins a page, loading it from the store if it is not cached. */
    method Fetch(id: PageId) returns (ok: bool)
      requires Valid() && id < nextId
      modifies this
      ensures Valid() && nextId == old(nextId) && touched == old(touched) && view == old(view)
      ensures !ok <==> old(id !in pageTable && Exhausted())
      ensures pins == if ok then old(pins) + multiset{id} else old(pins)
      ensures ok ==> Referenced(id)
    {
      hide PoolInv;
      FrameOf(frames, pageTable, store, view, pins, touched, id);
      if id in pageTable {
        var idx := pageTable[id];
        var f := frames[idx].(pins := frames[idx].pins + 1, refBit := true);
        PinKeeps(frames, pageTable, store, view, pins, touched, id, f);
        frames := frames[idx := f];
        pins := pins + multiset{id};
        return true;
      }
      var page := Stored(store, id);
      var idx := FindFrameFor(id);
      if idx.None? {
        return false;
      }
      var f := Frame(id, page, 1, false, true);
      InstallKeeps(frames, pageTable, store, view, pins, touched, idx.value, f);
      frames := frames[idx.value := f];
      pageTable := pageTable[id := idx.value];
      assert view == view[id := page];
      pins := pins + multiset{id};
      return true;
    }

    /** The cached contents of a page. */
    method ReadPage(id: PageId) returns (page: Option<Page>)
      requires Valid()
      ensures page.Some? <==> id in pageTable
      ensures pins[id] > 0 ==> page.Some?
      ensures id in view && (page.Some? ==> page.value == view[id])
    {
      page := if id in pageTable then Some(frames[pageTable[id]].page) else None;
    }

    /** Replaces a pinned page's contents in place. The caller then unpins it as dirtied. */
    method PageMut(id: PageId, page: Page)
      requires Valid() && pins[id] > 0
      modifies this`frames, this`view, this`touched
      ensures Valid() && view == old(view)[id := page] && touched == old(touched) + {id}
    {
      hide PoolInv;
      FrameOf(frames, pageTable, store, view, pins, touched, id);
      var idx := pageTable[id];
      var f := frames[idx].(page := page);
      UpdateKeeps(frames, pageTable, store, view, pins, touched, store, touched + {id}, id, f);
      assert pins[id := f.pins] == pins;
      frames := frames[idx := f];
      view := view[id := page];
      touched := touched + {id};
    }

    /** Drops one pin. A caller that replaced the page reports it, at the latest with the last pin. */
    method Unpin(id: PageId, dirtied: bool) returns (ok: bool)
      requires Valid() && (id in touched && pins[id] == 1 ==> dirtied)
      modifies this`frames, this`pins, this`touched
      ensures Valid() && (ok <==> old(pins)[id] > 0)
      ensures pins == if ok then old(pins) - multiset{id} else old(pins)
      ensures touched == if ok && dirtied then old(touched) - {id} else old(touched)
    {
      hide PoolInv;
      FrameOf(frames, pageTable, store, view, pins, touched, id);
      if id !in pageTable || frames[pageTable[id]].pins == 0 {
        return false;
      }
      var idx := pageTable[id];
      var f := frames[idx].(pins := frames[idx].pins - 1, dirty := frames[idx].dirty || dirtied);
      UnpinKeeps(frames, pageTable, store, view, pins, touched, id, dirtied, f);
      frames := frames[idx := f];
      pins := pins - multiset{id};
      if dirtied {
        touched := touched - {id};
      }
      return true;
    }

    /** Writes a cached page through if it is dirty. */
    method Flush(id: PageId) returns (ok: bool)
      requires Valid()
      modifies this`frames, this`store
      ensures Valid() && (ok <==> id in pageTable) && |frames| == |old(frames)|
      ensures forall i :: 0 <= i < |frames| ==> frames[i].id == old(frames)[i].id
      ensures forall i :: 0 <= i < |frames| && !old(frames)[i].dirty ==> !frames[i].dirty
      ensures ok ==> pageTable[id] < |frames| && !frames[pageTable[id]].dirty
      ensures forall x :: x != id ==> Stored(store, x) == old(Stored(store, x))
      ensures ok && id !in touched ==> Stored(store, id) == view[id]
    {
      hide PoolInv;
      FrameOf(frames, pageTable, store, view, pins, touched, id);
      if id !in pageTable {
        return false;
      }
      var idx := pageTable[id];
      if frames[idx].dirty {
        var f := frames[idx].(dirty := false);
        UpdateKeeps(frames, pageTable, store, view, pins, touched, store[id := f.page], touched, id, f);
        assert pins[id := f.pins] == pins && view[id := f.page] == view;
        store := store[id := f.page];
        frames := frames[idx := f];
      }
      return true;
    }

    /** Writes every dirty page through. Clients read what they read before, and once no page is
        left half-mutated the store alone holds all of it. */
    method FlushAll()
      requires Valid()
      modifies this`frames, this`store
      ensures Valid()
      ensures touched == {} ==> forall id: PageId :: Stored(store, id) == view[id]
    {
      for i := 0 to |frames|
        invariant Valid() && |frames| == |old(frames)|
        invariant forall j :: 0 <= j < i ==> !frames[j].dirty
      {
        assert pageTable[frames[i].id] == i;
        var ok := Flush(frames[i].id);
      }
    }
  }
}
