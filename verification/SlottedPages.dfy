/** The byte layout of a slotted page: a header, a slot directory growing up and records growing down,
    all rewritten in place, and its refinement of the list of slots in Pages. */
module SlottedPages {
  import opened Bytes
  import P = Pages

  const MAGIC: nat := 0x5054
  const TOMBSTONE_OFFSET: nat := 0xFFFF

  const NUM_SLOTS_AT: nat := 8
  const FREE_START_AT: nat := 10
  const FREE_END_AT: nat := 12

  function TypeByte(ptype: P.PageType): Byte {
    match ptype
    case Data => 0
    case BTreeLeaf => 1
    case BTreeInternal => 2
    case Meta => 3
  }

  function TypeFromByte(b: Byte): Option<P.PageType> {
    if b == 0 then Some(P.Data)
    else if b == 1 then Some(P.BTreeLeaf)
    else if b == 2 then Some(P.BTreeInternal)
    else if b == 3 then Some(P.Meta)
    else None
  }

  // ---------------------------------------------------------------------------
  // Fields

  lemma LEPair(bs: Bytes)
    requires |bs| == 2
    ensures FromLE(bs) == bs[0] as int + 256 * bs[1] as int
  {
    FromLEByte(bs[1]);
    assert bs[1..] == [bs[1]];
  }

  function ReadU16(bs: Bytes, at: nat): (v: nat)
    requires at + 2 <= |bs|
    ensures v == FromLE(bs[at..at + 2]) <= U16_MAX
  {
    LEPair(bs[at..at + 2]);
    bs[at] as int + 256 * bs[at + 1] as int
  }

  function WriteU16(bs: Bytes, at: nat, v: nat): (out: Bytes)
    requires at + 2 <= |bs| && v <= U16_MAX
    ensures |out| == |bs|
  {
    bs[at := v % 256][at + 1 := v / 256]
  }

  /** Copies `data` over the bytes at `at`. */
  function Splice(bs: Bytes, at: nat, data: Bytes): (out: Bytes)
    requires at + |data| <= |bs|
    ensures |out| == |bs|
  {
    bs[..at] + data + bs[at + |data|..]
  }

  function SlotAt(i: nat): nat {
    P.HEADER_LEN + i * P.SLOT_LEN
  }

  // ---------------------------------------------------------------------------
  // Layout

  /** Where slot `i`'s record starts: records are packed downward from the end of the page. */
  ghost function RecordStart(slots: seq<P.Slot>, i: nat): int
    requires i < |slots|
  {
    P.PAGE_SIZE - P.RecordBytes(slots[..i + 1])
  }

  ghost predicate SlotHolds(bs: Bytes, slots: seq<P.Slot>, i: nat)
    requires |bs| == P.PAGE_SIZE && i < |slots| && P.Fits(slots)
  {
    SlotAt(i) + 4 <= P.PAGE_SIZE &&
    var offset, len := ReadU16(bs, SlotAt(i)), ReadU16(bs, SlotAt(i) + 2);
    && len == P.SlotSize(slots[i])
    && match slots[i] {
         case Live(data) =>
           && offset == RecordStart(slots, i) && offset + len <= P.PAGE_SIZE
           && bs[offset..offset + len] == data
         case Dead(_) => offset == TOMBSTONE_OFFSET
       }
  }

  /** The bytes lay out exactly these slots. */
  ghost predicate LaysOut(bs: Bytes, slots: seq<P.Slot>) {
    && |bs| == P.PAGE_SIZE && P.Fits(slots)
    && ReadU16(bs, NUM_SLOTS_AT) == |slots|
    && ReadU16(bs, FREE_START_AT) == SlotAt(|slots|)
    && ReadU16(bs, FREE_END_AT) == P.PAGE_SIZE - P.RecordBytes(slots)
    && forall i: nat :: i < |slots| ==> SlotHolds(bs, slots, i)
  }

  /** Everything a page object's buffer must satisfy. */
  ghost predicate PageBytes(bs: Bytes, page: P.Page) {
    LaysOut(bs, page.slots) && ReadU16(bs, 0) == MAGIC && bs[2] == TypeByte(page.ptype)
  }

  lemma PrefixStep(slots: seq<P.Slot>, i: nat)
    requires i < |slots|
    ensures P.RecordBytes(slots[..i + 1]) == P.RecordBytes(slots[..i]) + P.SlotSize(slots[i])
  {
    assert slots[..i + 1][..i] == slots[..i];
  }

  lemma PrefixMonotone(slots: seq<P.Slot>, i: nat, j: nat)
    requires i <= j <= |slots|
    ensures P.RecordBytes(slots[..i]) <= P.RecordBytes(slots[..j]) <= P.RecordBytes(slots)
  {
    P.RecordBytesMonotone(slots, j);
    P.RecordBytesMonotone(slots[..j], i);
    assert slots[..j][..i] == slots[..i];
  }

  /** Record regions stay above the slot directory, below the page end, and apart from each other; no
      live offset is the tombstone mark. */
  lemma RegionsApart(slots: seq<P.Slot>, i: nat)
    requires P.Fits(slots) && i < |slots|
    ensures SlotAt(|slots|) <= P.PAGE_SIZE - P.RecordBytes(slots) <= RecordStart(slots, i)
    ensures RecordStart(slots, i) + P.SlotSize(slots[i]) <= P.PAGE_SIZE < TOMBSTONE_OFFSET
    ensures forall j: nat :: i < j < |slots| ==> RecordStart(slots, j) + P.SlotSize(slots[j]) <= RecordStart(slots, i)
  {
    hide P.RecordBytes;
    PrefixMonotone(slots, i + 1, |slots|);
    PrefixStep(slots, i);
    forall j: nat | i < j < |slots|
      ensures RecordStart(slots, j) + P.SlotSize(slots[j]) <= RecordStart(slots, i)
    {
      PrefixStep(slots, j);
      PrefixMonotone(slots, i + 1, j);
    }
  }

  /** A buffer lays out at most one list of slots: what a reader finds is determined by the bytes. */
  lemma LayoutUnique(bs: Bytes, a: seq<P.Slot>, b: seq<P.Slot>)
    requires LaysOut(bs, a) && LaysOut(bs, b)
    ensures a == b
  {
    forall i: nat | i < |a| ensures a[i] == b[i] {
      assert SlotHolds(bs, a, i) && SlotHolds(bs, b, i);
      RegionsApart(a, i);
      RegionsApart(b, i);
    }
  }

  /** A reader of the header, the directory and the records sees no difference between two buffers. */
  ghost predicate SameRegions(a: Bytes, b: Bytes, dirEnd: nat, freeEnd: nat) {
    && |a| == |b| == P.PAGE_SIZE && P.HEADER_LEN <= dirEnd <= freeEnd <= P.PAGE_SIZE
    && a[P.HEADER_LEN..dirEnd] == b[P.HEADER_LEN..dirEnd] && a[freeEnd..] == b[freeEnd..]
  }

  lemma SlotKept(a: Bytes, b: Bytes, slots: seq<P.Slot>, i: nat, dirEnd: nat, freeEnd: nat)
    requires P.Fits(slots) && i < |slots| && |a| == P.PAGE_SIZE && SlotHolds(a, slots, i)
    requires SameRegions(a, b, dirEnd, freeEnd) && SlotAt(i) + 4 <= dirEnd
    requires freeEnd <= P.PAGE_SIZE - P.RecordBytes(slots)
    ensures SlotHolds(b, slots, i)
  {
    hide P.RecordBytes;
    Inside(a, b, P.HEADER_LEN, dirEnd);
    if slots[i].Live? {
      RegionsApart(slots, i);
      var off, len := ReadU16(a, SlotAt(i)), |slots[i].data|;
      SameAbove(a, b, freeEnd, off, off + len);
    }
  }

  lemma SameAbove(a: Bytes, b: Bytes, end: nat, lo: nat, hi: nat)
    requires |a| == |b| && end <= lo <= hi <= |a| && a[end..] == b[end..]
    ensures a[lo..hi] == b[lo..hi]
  {
    forall x | lo <= x < hi ensures a[x] == b[x] {
      assert a[end..][x - end] == b[end..][x - end];
    }
  }

  // ---------------------------------------------------------------------------
  // Insert and delete on the buffer

  /** The free gap is where the header says and holds one more directory entry and the record. */
  predicate Room(bs: Bytes, data: Bytes) {
    |bs| == P.PAGE_SIZE &&
    var start, end := ReadU16(bs, FREE_START_AT), ReadU16(bs, FREE_END_AT);
    start == SlotAt(ReadU16(bs, NUM_SLOTS_AT)) && start + P.SLOT_LEN + |data| <= end <= P.PAGE_SIZE
  }

  /** The record and its directory entry. */
  function PlaceRecord(bs: Bytes, data: Bytes): (out: Bytes)
    requires Room(bs, data)
    ensures |out| == P.PAGE_SIZE
  {
    var n, start := ReadU16(bs, NUM_SLOTS_AT), ReadU16(bs, FREE_END_AT) - |data|;
    WriteU16(WriteU16(Splice(bs, start, data), SlotAt(n), start), SlotAt(n) + 2, |data|)
  }

  function SetHeader(bs: Bytes, numSlots: nat, freeStart: nat, freeEnd: nat): (out: Bytes)
    requires |bs| == P.PAGE_SIZE && numSlots <= U16_MAX && freeStart <= U16_MAX && freeEnd <= U16_MAX
    ensures |out| == P.PAGE_SIZE
  {
    WriteU16(WriteU16(WriteU16(bs, NUM_SLOTS_AT, numSlots), FREE_START_AT, freeStart), FREE_END_AT, freeEnd)
  }

  lemma HeaderSet(bs: Bytes, numSlots: nat, freeStart: nat, freeEnd: nat)
    requires |bs| == P.PAGE_SIZE && numSlots <= U16_MAX && freeStart <= U16_MAX && freeEnd <= U16_MAX
    ensures var out := SetHeader(bs, numSlots, freeStart, freeEnd);
            && ReadU16(out, NUM_SLOTS_AT) == numSlots && ReadU16(out, FREE_START_AT) == freeStart
            && ReadU16(out, FREE_END_AT) == freeEnd && out[..8] == bs[..8] && out[14..] == bs[14..]
  {
  }

  lemma RecordPlaced(bs: Bytes, data: Bytes)
    requires Room(bs, data)
    ensures var out, n, end := PlaceRecord(bs, data), ReadU16(bs, NUM_SLOTS_AT), ReadU16(bs, FREE_END_AT);
            && out[..SlotAt(n)] == bs[..SlotAt(n)] && out[end..] == bs[end..] && out[end - |data|..end] == data
            && ReadU16(out, SlotAt(n)) == end - |data| && ReadU16(out, SlotAt(n) + 2) == |data|
  {
  }

  function InsertBytes(bs: Bytes, data: Bytes): (out: Bytes)
    requires Room(bs, data)
    ensures |out| == P.PAGE_SIZE
  {
    var n, start, end := ReadU16(bs, NUM_SLOTS_AT), ReadU16(bs, FREE_START_AT), ReadU16(bs, FREE_END_AT);
    SetHeader(PlaceRecord(bs, data), n + 1, start + P.SLOT_LEN, end - |data|)
  }

  /** What an insert leaves alone and what it writes. */
  lemma InsertParts(bs: Bytes, data: Bytes)
    requires Room(bs, data)
    ensures var out, n, end := InsertBytes(bs, data), ReadU16(bs, NUM_SLOTS_AT), ReadU16(bs, FREE_END_AT);
            && SameRegions(bs, out, SlotAt(n), end) && out[..8] == bs[..8] && out[end - |data|..end] == data
            && ReadU16(out, SlotAt(n)) == end - |data| && ReadU16(out, SlotAt(n) + 2) == |data|
            && ReadU16(out, NUM_SLOTS_AT) == n + 1 && ReadU16(out, FREE_START_AT) == SlotAt(n + 1)
            && ReadU16(out, FREE_END_AT) == end - |data|
  {
    hide WriteU16, Splice, SetHeader, PlaceRecord;
    var n, end := ReadU16(bs, NUM_SLOTS_AT), ReadU16(bs, FREE_END_AT);
    var mid, out := PlaceRecord(bs, data), InsertBytes(bs, data);
    RecordPlaced(bs, data);
    HeaderSet(mid, n + 1, SlotAt(n + 1), end - |data|);
    Inside(bs, mid, 0, SlotAt(n));
    Inside(mid, out, 0, 8);
    assert out[..8] == bs[..8];
    assert forall x :: 14 <= x < P.PAGE_SIZE ==> out[x] == out[14..][x - 14] == mid[14..][x - 14] == mid[x];
    assert out[P.HEADER_LEN..SlotAt(n)] == bs[P.HEADER_LEN..SlotAt(n)];
    assert out[end..] == mid[end..];
    assert out[end - |data|..end] == mid[end - |data|..end];
  }

  lemma Inside(a: Bytes, b: Bytes, lo: nat, hi: nat)
    requires lo <= hi <= |a| && hi <= |b| && a[lo..hi] == b[lo..hi]
    ensures forall x :: lo <= x < hi ==> a[x] == b[x]
  {
    assert forall x :: lo <= x < hi ==> a[x] == a[lo..hi][x - lo] == b[lo..hi][x - lo] == b[x];
  }

  /** Inserting in place appends one live slot and disturbs no other. */
  lemma InsertLaysOut(bs: Bytes, slots: seq<P.Slot>, data: Bytes)
    requires LaysOut(bs, slots) && Room(bs, data)
    ensures LaysOut(InsertBytes(bs, data), slots + [P.Live(data)])
  {
    hide InsertBytes, SameRegions, P.RecordBytes, ReadU16;
    var n, end := |slots|, ReadU16(bs, FREE_END_AT);
    var out, slots' := InsertBytes(bs, data), slots + [P.Live(data)];
    InsertParts(bs, data);
    PrefixStep(slots', n);
    assert slots'[..n] == slots && slots'[..n + 1] == slots';
    forall i: nat | i < |slots'| ensures SlotHolds(out, slots', i) {
      if i < n {
        assert SlotHolds(bs, slots, i);
        SlotKept(bs, out, slots, i, SlotAt(n), end);
        assert slots'[..i + 1] == slots[..i + 1];
      }
    }
  }

  function DeleteBytes(bs: Bytes, slot: nat): (out: Bytes)
    requires |bs| == P.PAGE_SIZE && SlotAt(slot) + 4 <= P.PAGE_SIZE
    ensures |out| == P.PAGE_SIZE
  {
    var len := ReadU16(bs, SlotAt(slot) + 2);
    WriteU16(WriteU16(bs, SlotAt(slot), TOMBSTONE_OFFSET), SlotAt(slot) + 2, len)
  }

  lemma {:induction false} DeadSameBytes(slots: seq<P.Slot>, slot: nat, n: nat)
    requires slot < |slots| && n <= |slots|
    ensures var slots' := slots[slot := P.Dead(P.SlotSize(slots[slot]))];
            P.RecordBytes(slots'[..n]) == P.RecordBytes(slots[..n])
  {
    if n > 0 {
      var slots' := slots[slot := P.Dead(P.SlotSize(slots[slot]))];
      DeadSameBytes(slots, slot, n - 1);
      assert slots'[..n][..n - 1] == slots'[..n - 1] && slots[..n][..n - 1] == slots[..n - 1];
    }
  }

  /** Deleting in place marks that slot dead and disturbs no other. */
  lemma DeleteLaysOut(bs: Bytes, slots: seq<P.Slot>, slot: nat)
    requires LaysOut(bs, slots) && slot < |slots|
    ensures SlotAt(slot) + 4 <= P.PAGE_SIZE
    ensures LaysOut(DeleteBytes(bs, slot), slots[slot := P.Dead(P.SlotSize(slots[slot]))])
    ensures DeleteBytes(bs, slot)[..8] == bs[..8]
  {
    hide P.RecordBytes, SlotHolds, RecordStart;
    var out, slots' := DeleteBytes(bs, slot), slots[slot := P.Dead(P.SlotSize(slots[slot]))];
    SlotInside(bs, slots, slot);
    DeadSameBytes(slots, slot, |slots|);
    assert slots'[..|slots|] == slots' && slots[..|slots|] == slots;
    assert P.RecordBytes(slots') == P.RecordBytes(slots);
    assert SlotHolds(bs, slots, slot);
    forall i: nat | i < |slots'| ensures SlotHolds(out, slots', i) {
      assert SlotHolds(bs, slots, i);
      DeleteKeepsSlot(bs, slots, slot, i);
    }
  }

  lemma SlotInside(bs: Bytes, slots: seq<P.Slot>, i: nat)
    requires LaysOut(bs, slots) && i < |slots|
    ensures SlotHolds(bs, slots, i) && SlotAt(i) + 4 <= P.PAGE_SIZE
  {
  }

  /** What deleting writes: that slot's offset, and nothing else. */
  lemma TombstoneWritten(bs: Bytes, slot: nat)
    requires |bs| == P.PAGE_SIZE && SlotAt(slot) + 4 <= P.PAGE_SIZE
    ensures var out, at := DeleteBytes(bs, slot), SlotAt(slot);
            && ReadU16(out, at) == TOMBSTONE_OFFSET && ReadU16(out, at + 2) == ReadU16(bs, at + 2)
            && forall x :: 0 <= x < P.PAGE_SIZE && !(at <= x < at + 4) ==> out[x] == bs[x]
  {
  }

  /** A directory entry tells a dead slot by its offset, and every slot's length. */
  lemma DirectoryEntry(bs: Bytes, slots: seq<P.Slot>, i: nat)
    requires LaysOut(bs, slots) && i < |slots|
    ensures SlotAt(i) + 4 <= P.PAGE_SIZE && ReadU16(bs, SlotAt(i) + 2) == P.SlotSize(slots[i])
    ensures ReadU16(bs, SlotAt(i)) == TOMBSTONE_OFFSET <==> slots[i].Dead?
  {
    hide P.RecordBytes, RecordStart, ReadU16;
    assert SlotHolds(bs, slots, i);
    RegionsApart(slots, i);
  }

  lemma DeleteKeepsSlot(bs: Bytes, slots: seq<P.Slot>, slot: nat, i: nat)
    requires |bs| == P.PAGE_SIZE && P.Fits(slots) && slot < |slots| && i < |slots|
    requires SlotHolds(bs, slots, slot) && SlotHolds(bs, slots, i)
    ensures var slots' := slots[slot := P.Dead(P.SlotSize(slots[slot]))];
            P.Fits(slots') && SlotHolds(DeleteBytes(bs, slot), slots', i)
  {
    hide P.RecordBytes, DeleteBytes, WriteU16;
    var out, slots' := DeleteBytes(bs, slot), slots[slot := P.Dead(P.SlotSize(slots[slot]))];
    DeadSameBytes(slots, slot, |slots|);
    assert slots'[..|slots|] == slots' && slots[..|slots|] == slots;
    DeadSameBytes(slots, slot, i + 1);
    TombstoneWritten(bs, slot);
    if i != slot && slots[i].Live? {
      RegionsApart(slots, i);
      var off, len := ReadU16(bs, SlotAt(i)), |slots[i].data|;
      assert out[off..off + len] == bs[off..off + len];
    }
  }

  /** A header written over any buffer makes it a page without slots. */
  lemma BlankPage(bs: Bytes, ptype: P.PageType)
    requires |bs| == P.PAGE_SIZE
    ensures var out := WriteU16(WriteU16(bs, 0, MAGIC)[2 := TypeByte(ptype)], NUM_SLOTS_AT, 0);
            PageBytes(WriteU16(WriteU16(out, FREE_START_AT, P.HEADER_LEN), FREE_END_AT, P.PAGE_SIZE),
                      P.NewPage(ptype))
  {
  }

  // ---------------------------------------------------------------------------
  // The checksummed image

  datatype DecodeError = BadMagic | UnknownPageType(b: Byte) | ChecksumMismatch

  datatype Decoded = Ok(ptype: P.PageType, bytes: Bytes) | Err(error: DecodeError)

  /** What the checksum covers: everything but itself. */
  function Covered(bs: Bytes): Bytes
    requires |bs| == P.PAGE_SIZE
  {
    bs[..4] + bs[8..]
  }

  /** Every byte of the page but the checksum's own four is under the checksum. */
  lemma CoveredIff(a: Bytes, b: Bytes)
    requires |a| == |b| == P.PAGE_SIZE
    ensures Covered(a) == Covered(b) <==> forall i :: 0 <= i < P.PAGE_SIZE && !(4 <= i < 8) ==> a[i] == b[i]
  {
    assert forall i :: 0 <= i < 4 ==> Covered(a)[i] == a[i] && Covered(b)[i] == b[i];
    assert forall i :: 8 <= i < P.PAGE_SIZE ==> Covered(a)[i - 4] == a[i] && Covered(b)[i - 4] == b[i];
    if forall i :: 0 <= i < P.PAGE_SIZE && !(4 <= i < 8) ==> a[i] == b[i] {
      assert a[..4] == b[..4] && a[8..] == b[8..];
    }
  }

  function Encode(crc: Checksum, bs: Bytes): (out: Bytes)
    requires |bs| == P.PAGE_SIZE
    ensures |out| == P.PAGE_SIZE
  {
    bs[..4] + ToLE(crc(Covered(bs)), 4) + bs[8..]
  }

  function Decode(crc: Checksum, raw: Bytes): (d: Decoded)
    ensures d.Ok? ==> d.bytes == raw && |raw| == P.PAGE_SIZE
  {
    if |raw| != P.PAGE_SIZE || ReadU16(raw, 0) != MAGIC then Err(BadMagic)
    else
      var ptype := TypeFromByte(raw[2]);
      if ptype.None? then Err(UnknownPageType(raw[2]))
      else if FromLE(raw[4..8]) != crc(Covered(raw)) then Err(ChecksumMismatch)
      else Ok(ptype.value, raw)
  }

  lemma EncodeParts(crc: Checksum, bs: Bytes)
    requires |bs| == P.PAGE_SIZE
    ensures var out := Encode(crc, bs);
            && out[..4] == bs[..4] && out[8..] == bs[8..] && Covered(out) == Covered(bs)
            && FromLE(out[4..8]) == crc(Covered(bs))
  {
    hide FromLE, ToLE;
    PowWidths();
    FromToLE(crc(Covered(bs)), 4);
    var out := Encode(crc, bs);
    assert out[4..8] == ToLE(crc(Covered(bs)), 4);
  }

  /** The stored image of a page decodes to that page, slot for slot. */
  lemma DecodeEncode(crc: Checksum, bs: Bytes, page: P.Page)
    requires PageBytes(bs, page)
    ensures var d := Decode(crc, Encode(crc, bs)); d.Ok? && d.ptype == page.ptype && PageBytes(d.bytes, page)
  {
    hide FromLE, ToLE, P.RecordBytes;
    EncodeParts(crc, bs);
    var out := Encode(crc, bs);
    assert forall x :: 0 <= x < 4 ==> out[x] == out[..4][x] == bs[..4][x] == bs[x];
    assert forall x :: 8 <= x < P.PAGE_SIZE ==> out[x] == out[8..][x - 8] == bs[8..][x - 8] == bs[x];
    var dirEnd, freeEnd := ReadU16(bs, FREE_START_AT), ReadU16(bs, FREE_END_AT);
    forall i: nat | i < |page.slots| ensures SlotHolds(out, page.slots, i) {
      assert SlotHolds(bs, page.slots, i);
      SlotKept(bs, out, page.slots, i, dirEnd, freeEnd);
    }
  }

  /** What decodes re-encodes to the same image: the decoder accepts nothing but encodings. */
  lemma EncodeDecode(crc: Checksum, raw: Bytes)
    requires Decode(crc, raw).Ok?
    ensures Encode(crc, Decode(crc, raw).bytes) == raw
  {
    hide FromLE, ToLE;
    ToFromLE(raw[4..8]);
    assert raw == raw[..4] + raw[4..8] + raw[8..];
  }

  // ---------------------------------------------------------------------------
  // Runs of inserts and deletes

  datatype PageOp = InsertOp(data: Bytes) | DeleteOp(slot: nat)

  /** Deleting an absent or dead slot is an error that changes nothing; an insert into a full page fails the run. */
  function RunPage(p: P.Page, ops: seq<PageOp>): Option<P.Page>
    decreases |ops|
  {
    if ops == [] then Some(p)
    else match ops[0]
      case InsertOp(data) => (
        var p' := P.Insert(p, data);
        if p'.None? then None else RunPage(p'.value, ops[1..]))
      case DeleteOp(slot) => (
        var p' := P.Delete(p, slot);
        RunPage(if p'.None? then p else p'.value, ops[1..]))
  }

  /** What the inserts of a run take from the page. */
  function Demand(ops: seq<PageOp>): nat {
    if ops == [] then 0
    else (if ops[0].InsertOp? then P.SLOT_LEN + |ops[0].data| else 0) + Demand(ops[1..])
  }

  /** A slot once written keeps its record until it is deleted, and its length for ever. */
  ghost predicate Extends(before: seq<P.Slot>, after: seq<P.Slot>) {
    && |before| <= |after|
    && forall i :: 0 <= i < |before| ==> after[i] == before[i] || after[i] == P.Dead(P.SlotSize(before[i]))
  }

  lemma InsertUses(p: P.Page, data: Bytes)
    ensures P.Insert(p, data).Some? <==> P.Used(p.slots) + P.SLOT_LEN + |data| <= P.PAGE_CAPACITY
    ensures P.Insert(p, data).Some? ==> P.Used(P.Insert(p, data).value.slots) == P.Used(p.slots) + P.SLOT_LEN + |data|
  {
    assert (p.slots + [P.Live(data)])[..|p.slots|] == p.slots;
  }

  lemma DeleteUses(p: P.Page, slot: nat)
    requires P.Delete(p, slot).Some?
    ensures P.Used(P.Delete(p, slot).value.slots) == P.Used(p.slots)
  {
    var p' := P.Delete(p, slot).value;
    DeadSameBytes(p.slots, slot, |p.slots|);
    assert p'.slots[..|p.slots|] == p'.slots && p.slots[..|p.slots|] == p.slots;
  }

  /** The inserts of a run all succeed exactly if together they fit what is left; deletes give nothing
      back, and no earlier slot changes except by being deleted. */
  lemma {:induction false} RunFitsIff(p: P.Page, ops: seq<PageOp>)
    requires P.Fits(p.slots)
    ensures RunPage(p, ops).Some? <==> P.Used(p.slots) + Demand(ops) <= P.PAGE_CAPACITY
    ensures RunPage(p, ops).Some? ==>
              var p' := RunPage(p, ops).value;
              p'.ptype == p.ptype && P.Used(p'.slots) == P.Used(p.slots) + Demand(ops) && Extends(p.slots, p'.slots)
    decreases |ops|
  {
    hide P.Used;
    if ops != [] {
      match ops[0] {
        case InsertOp(data) =>
          InsertUses(p, data);
          if P.Insert(p, data).Some? {
            RunFitsIff(P.Insert(p, data).value, ops[1..]);
          }
        case DeleteOp(slot) =>
          if P.Delete(p, slot).Some? {
            DeleteUses(p, slot);
            RunFitsIff(P.Delete(p, slot).value, ops[1..]);
          } else {
            RunFitsIff(p, ops[1..]);
          }
      }
    }
  }

  /** How many inserts a run makes. */
  function Inserts(ops: seq<PageOp>): nat {
    if ops == [] then 0 else Inserts(ops[..|ops| - 1]) + if ops[|ops| - 1].InsertOp? then 1 else 0
  }

  /** What a slot should hold after a run: the record of the insert that got it, until a delete names it;
      `before` if the run never touches it. `n` slots were there at the start. */
  function Expected(ops: seq<PageOp>, n: nat, slot: nat, before: Option<Bytes>): Option<Bytes> {
    if ops == [] then before
    else
      var front := ops[..|ops| - 1];
      match ops[|ops| - 1]
      case InsertOp(data) => if slot == n + Inserts(front) then Some(data) else Expected(front, n, slot, before)
      case DeleteOp(s) => if slot == s then None else Expected(front, n, slot, before)
  }

  /** One more operation at the end of a run. */
  lemma {:induction false} RunSnoc(p: P.Page, ops: seq<PageOp>, op: PageOp)
    ensures var q := RunPage(p, ops);
            RunPage(p, ops + [op]) == if q.None? then None else RunPage(q.value, [op])
    decreases |ops|
  {
    if ops == [] {
      assert ops + [op] == [op];
    } else {
      assert (ops + [op])[1..] == ops[1..] + [op];
      match ops[0] {
        case InsertOp(data) =>
          if P.Insert(p, data).Some? {
            RunSnoc(P.Insert(p, data).value, ops[1..], op);
          }
        case DeleteOp(slot) =>
          RunSnoc(if P.Delete(p, slot).None? then p else P.Delete(p, slot).value, ops[1..], op);
      }
    }
  }

  lemma OneOp(p: P.Page, op: PageOp)
    ensures RunPage(p, [op]) ==
            if op.InsertOp? then P.Insert(p, op.data)
            else Some(if P.Delete(p, op.slot).None? then p else P.Delete(p, op.slot).value)
  {
    assert [op][1..] == [];
  }

  /** Over any run every slot resolves to exactly what was put in it, until it is deleted. */
  lemma {:induction false} RunResolves(p: P.Page, ops: seq<PageOp>, slot: nat)
    requires RunPage(p, ops).Some?
    ensures |RunPage(p, ops).value.slots| == |p.slots| + Inserts(ops)
    ensures P.Get(RunPage(p, ops).value, slot) == Expected(ops, |p.slots|, slot, P.Get(p, slot))
    decreases |ops|
  {
    hide P.Insert, P.Get, P.Delete, RunPage;
    if ops == [] {
      NoOps(p);
    } else {
      var front, op := ops[..|ops| - 1], ops[|ops| - 1];
      assert ops == front + [op];
      RunSnoc(p, front, op);
      RunResolves(p, front, slot);
      var q := RunPage(p, front).value;
      OneOp(q, op);
      match op {
        case InsertOp(data) =>
          P.InsertGets(q, data, slot);
          InsertCounts(q, data);
        case DeleteOp(s) =>
          P.DeleteGets(q, s);
          DeleteCounts(q, s);
      }
    }
  }

  lemma NoOps(p: P.Page)
    ensures RunPage(p, []) == Some(p)
  {
  }

  lemma InsertCounts(p: P.Page, data: Bytes)
    ensures P.Insert(p, data).Some? ==> |P.Insert(p, data).value.slots| == |p.slots| + 1
  {
  }

  lemma DeleteCounts(p: P.Page, slot: nat)
    ensures P.Delete(p, slot).Some? ==> |P.Delete(p, slot).value.slots| == |p.slots|
  {
  }

  // ---------------------------------------------------------------------------
  // The page object

  class SlottedPage {
    var pageType: P.PageType
    const bytes: array<Byte>

    /** The list of slots the buffer stands for. */
    ghost var page: P.Page

    ghost predicate Valid()
      reads this, bytes
    {
      bytes.Length == P.PAGE_SIZE && page.ptype == pageType && PageBytes(bytes[..], page)
    }

    constructor (ptype: P.PageType)
      ensures Valid() && fresh(bytes) && page == P.Page(ptype, [])
    {
      var bs := new Byte[P.PAGE_SIZE](_ => 0);
      bytes, pageType := bs, ptype;
      page := P.NewPage(ptype);
      new;
      hide WriteU16, ReadU16;
      BlankPage(bytes[..], ptype);
      SetU16(0, MAGIC);
      bytes[2] := TypeByte(ptype);
      SetU16(NUM_SLOTS_AT, 0);
      SetU16(FREE_START_AT, P.HEADER_LEN);
      SetU16(FREE_END_AT, P.PAGE_SIZE);
    }

    /** Adopts a decoded buffer, which stands for `page` if it lays that page out. */
    constructor FromBytes(ptype: P.PageType, raw: Bytes, ghost page: P.Page)
      requires |raw| == P.PAGE_SIZE
      ensures fresh(bytes) && this.page == page && bytes[..] == raw
      ensures PageBytes(raw, page) && page.ptype == ptype ==> Valid()
    {
      var bs := new Byte[P.PAGE_SIZE](i requires 0 <= i < |raw| => raw[i]);
      bytes, pageType := bs, ptype;
      this.page := page;
      new;
      assert bytes[..] == raw;
    }

    /** Reads a stored image back. */
    static method DecodePage(crc: Checksum, raw: Bytes, ghost page: P.Page) returns (p: Option<SlottedPage>)
      ensures p.Some? <==> Decode(crc, raw).Ok?
      ensures p.Some? ==> fresh(p.value) && p.value.bytes[..] == raw
      ensures p.Some? && PageBytes(raw, page) ==> p.value.Valid() && p.value.page == page
    {
      hide LaysOut;
      var d := Decode(crc, raw);
      if d.Err? {
        return None;
      }
      var q := new SlottedPage.FromBytes(d.ptype, raw, page);
      p := Some(q);
    }

    function U16(at: nat): (v: nat)
      reads bytes
      requires at + 2 <= bytes.Length
      ensures v == ReadU16(bytes[..], at)
    {
      bytes[at] as int + 256 * bytes[at + 1] as int
    }

    method SetU16(at: nat, v: nat)
      requires at + 2 <= bytes.Length && v <= U16_MAX
      modifies bytes
      ensures bytes[..] == WriteU16(old(bytes[..]), at, v)
    {
      bytes[at] := v % 256;
      bytes[at + 1] := v / 256;
    }

    method CopyIn(at: nat, data: Bytes)
      requires at + |data| <= bytes.Length
      modifies bytes
      ensures bytes[..] == Splice(old(bytes[..]), at, data)
    {
      for i := 0 to |data|
        invariant bytes[..at] == old(bytes[..at])
        invariant bytes[at..at + i] == data[..i]
        invariant bytes[at + i..] == old(bytes[at + i..])
      {
        ghost var was := bytes[..];
        bytes[at + i] := data[i];
        assert bytes[at..at + i + 1] == bytes[at..at + i] + [data[i]];
        assert bytes[at..at + i] == was[at..at + i];
        assert bytes[at + i + 1..] == was[at + i..][1..];
      }
      assert data[..|data|] == data;
      assert bytes[..] == bytes[..at] + bytes[at..at + |data|] + bytes[at + |data|..];
    }

    method FreeSpace() returns (n: nat)
      requires Valid()
      ensures n == P.PAGE_CAPACITY - P.Used(page.slots)
    {
      n := U16(FREE_END_AT) - U16(FREE_START_AT);
    }

    /** Writes a record that has room, its directory entry and the three header counters. */
    method WriteRecord(record: Bytes)
      requires bytes.Length == P.PAGE_SIZE && Room(bytes[..], record)
      modifies bytes
      ensures bytes[..] == InsertBytes(old(bytes[..]), record)
    {
      hide Splice, WriteU16;
      ghost var was := bytes[..];
      var n, start, end := U16(NUM_SLOTS_AT), U16(FREE_START_AT), U16(FREE_END_AT);
      var at := end - |record|;
      CopyIn(at, record);
      SetU16(SlotAt(n), at);
      SetU16(SlotAt(n) + 2, |record|);
      assert bytes[..] == PlaceRecord(was, record);
      SetU16(NUM_SLOTS_AT, n + 1);
      SetU16(FREE_START_AT, start + P.SLOT_LEN);
      SetU16(FREE_END_AT, at);
    }

    /** `None` is `PageError::Full`; otherwise the new record's slot id. */
    method Insert(record: Bytes) returns (slot: Option<nat>)
      requires Valid()
      modifies this`page, bytes
      ensures Valid()
      ensures slot.Some? <==> P.Insert(old(page), record).Some?
      ensures slot.Some? ==> page == P.Insert(old(page), record).value && slot.value == |old(page).slots|
      ensures slot.Some? ==> P.Get(page, slot.value) == Some(record)
      ensures forall i: nat :: i < |old(page).slots| ==> P.Get(page, i) == P.Get(old(page), i)
      ensures slot.None? ==> page == old(page) && bytes[..] == old(bytes[..])
    {
      hide P.RecordBytes, SlotHolds, InsertBytes;
      var free := FreeSpace();
      if free < P.SLOT_LEN + |record| {
        return None;
      }
      ghost var was := bytes[..];
      var n := U16(NUM_SLOTS_AT);
      InsertLaysOut(was, page.slots, record);
      InsertParts(was, record);
      WriteRecord(record);
      HeaderKept(was, bytes[..]);
      page := page.(slots := page.slots + [P.Live(record)]);
      slot := Some(n);
    }

    /** `None` is `PageError::InvalidSlot`. */
    method Get(slot: nat) returns (data: Option<Bytes>)
      requires Valid()
      ensures data == P.Get(page, slot)
    {
      hide P.RecordBytes;
      if slot >= U16(NUM_SLOTS_AT) {
        return None;
      }
      assert SlotHolds(bytes[..], page.slots, slot);
      RegionsApart(page.slots, slot);
      var offset, len := U16(SlotAt(slot)), U16(SlotAt(slot) + 2);
      if offset == TOMBSTONE_OFFSET {
        return None;
      }
      assert bytes[offset..offset + len] == bytes[..][offset..offset + len];
      data := Some(bytes[offset..offset + len]);
    }

    /** False is `PageError::InvalidSlot`. */
    method Delete(slot: nat) returns (ok: bool)
      requires Valid()
      modifies this`page, bytes
      ensures Valid()
      ensures ok <==> P.Delete(old(page), slot).Some?
      ensures ok ==> page == P.Delete(old(page), slot).value
      ensures ok <==> P.Get(old(page), slot).Some?
      ensures P.Get(page, slot) == None && forall i: nat :: i != slot ==> P.Get(page, i) == P.Get(old(page), i)
      ensures !ok ==> page == old(page) && bytes[..] == old(bytes[..])
    {
      hide P.RecordBytes, WriteU16, ReadU16, SlotHolds, RecordStart;
      P.DeleteGets(page, slot);
      if slot >= U16(NUM_SLOTS_AT) {
        return false;
      }
      DirectoryEntry(bytes[..], page.slots, slot);
      var offset, len := U16(SlotAt(slot)), U16(SlotAt(slot) + 2);
      if offset == TOMBSTONE_OFFSET {
        return false;
      }
      ghost var was := bytes[..];
      DeleteLaysOut(was, page.slots, slot);
      SetU16(SlotAt(slot), TOMBSTONE_OFFSET);
      SetU16(SlotAt(slot) + 2, len);
      HeaderKept(was, bytes[..]);
      page := page.(slots := page.slots[slot := P.Dead(P.SlotSize(page.slots[slot]))]);
      ok := true;
    }

    /** The slots that resolve, in order. */
    method SlotIds() returns (ids: seq<nat>)
      requires Valid()
      ensures forall i, j :: 0 <= i < j < |ids| ==> ids[i] < ids[j]
      ensures forall slot: nat :: slot in ids <==> P.Get(page, slot).Some?
    {
      hide P.RecordBytes;
      ids := [];
      for s := 0 to U16(NUM_SLOTS_AT)
        invariant forall i :: 0 <= i < |ids| ==> ids[i] < s
        invariant forall i, j :: 0 <= i < j < |ids| ==> ids[i] < ids[j]
        invariant forall slot: nat :: slot in ids <==> slot < s && P.Get(page, slot).Some?
      {
        assert SlotHolds(bytes[..], page.slots, s);
        RegionsApart(page.slots, s);
        if U16(SlotAt(s)) != TOMBSTONE_OFFSET {
          ids := ids + [s];
        }
      }
    }

    /** The page's stored image. */
    method EncodePage(crc: Checksum) returns (out: Bytes)
      requires Valid()
      ensures out == Encode(crc, bytes[..])
    {
      out := bytes[..4] + ToLE(crc(bytes[..4] + bytes[8..]), 4) + bytes[8..];
    }
  }

  lemma HeaderKept(a: Bytes, b: Bytes)
    requires |a| >= 8 && |b| >= 8 && a[..8] == b[..8]
    ensures ReadU16(a, 0) == ReadU16(b, 0) && a[2] == b[2]
  {
    assert forall x :: 0 <= x < 8 ==> a[x] == a[..8][x] == b[..8][x] == b[x];
  }
}
