/** The heap page store object: the page map it serves is the one its clients wrote. */
module HeapPageStores {
  import opened Bytes
  import opened Logs
  import opened SlottedPages
  import opened HeapPages
  import P = Pages

  /** The image decodes, and to this page. */
  ghost predicate Holds(crc: Checksum, image: Bytes, page: P.Page) {
    Decode(crc, image).Ok? && Decode(crc, image).ptype == page.ptype && PageBytes(image, page)
  }

  /** Every page of the heap decodes to the page on record. */
  ghost predicate PagesHeld(crc: Checksum, h: Heap, pages: map<nat, P.Page>) {
    pages.Keys == Images(h).Keys && forall id :: id in pages ==> Holds(crc, Images(h)[id], pages[id])
  }

  lemma PageWritten(crc: Checksum, max: nat, h: Heap, id: nat, bs: Bytes, page: P.Page, pages: map<nat, P.Page>)
    requires HeapOk(crc, h) && PagesHeld(crc, h, pages) && PageBytes(bs, page) && CanWrite(h, id, bs)
    ensures var h' := WriteImage(crc, max, h, id, Encode(crc, bs));
            && HeapOk(crc, h') && PagesHeld(crc, h', pages[id := page])
            && (IdsBelow(h) ==> (IdsBelow(h') <==> id < h.nextId))
  {
    hide HeapOk, IdsBelow, PageBytes, Decode, Encode, Images, WriteImage;
    WriteOk(crc, max, h, id, Encode(crc, bs));
    DecodeEncode(crc, bs, page);
    DecodesItself(crc, Encode(crc, bs));
  }

  lemma DecodesItself(crc: Checksum, raw: Bytes)
    ensures Decode(crc, raw).Ok? ==> Decode(crc, raw).bytes == raw
  {
  }

  class HeapPageStore {
    const crc: Checksum
    var heapFile: Bytes
    var heapLen: nat
    var locationLog: Log
    var locations: map<nat, nat>
    var nextPageId: nat

    /** The pages clients wrote. */
    ghost var pages: map<nat, P.Page>

    ghost function State(): Heap
      reads this, locationLog
    {
      Heap(heapFile, heapLen, locationLog.State(), locations, nextPageId)
    }

    ghost predicate Valid()
      reads this, locationLog
    {
      locationLog.crc == crc && HeapOk(crc, State()) && PagesHeld(crc, State(), pages)
    }

    constructor (crc: Checksum, log: Log, h: Heap, ghost pages: map<nat, P.Page>)
      requires log.State() == h.log && log.crc == crc
      ensures this.crc == crc && State() == h && this.pages == pages && locationLog == log
    {
      this.crc, this.locationLog, this.pages := crc, log, pages;
      heapFile, heapLen, locations, nextPageId := h.file, h.len, h.locations, h.nextId;
    }

    /** Truncates a partial page, then replays the location log. */
    static method Open(crc: Checksum, file: Bytes, segs: seq<Bytes>, ghost pages: map<nat, P.Page>)
      returns (store: Option<HeapPageStore>)
      ensures store.Some? <==> OpenHeap(crc, file, segs).Some?
      ensures store.Some? ==> fresh(store.value) && fresh(store.value.locationLog) && store.value.locationLog.crc == crc
      ensures store.Some? ==> store.value.State() == OpenHeap(crc, file, segs).value && store.value.pages == pages
    {
      hide Replay, OpenLog, FromLE;
      var heapLen := |file|;
      var torn := heapLen % P.PAGE_SIZE;
      if torn != 0 {
        heapLen := heapLen - torn;
      }
      var log, records, _ := Log.Open(crc, DEFAULT_SEGMENT_MAX_BYTES, segs);
      if log.None? {
        return None;
      }
      var locations, maxId: Option<nat> := map[], None;
      for i := 0 to |records|
        invariant locations == Located(records[..i])
        invariant NextId(records[..i]) == if maxId.None? then 1 else maxId.value + 1
        invariant log.value.State() == OpenLog(crc, segs).value
      {
        assert records[..i + 1][..i] == records[..i];
        var id := FromLE(records[i].key);
        locations := locations[id := FromLE(records[i].value)];
        maxId := Some(if maxId.Some? && maxId.value > id then maxId.value else id);
      }
      assert records[..|records|] == records;
      var next := if maxId.Some? then maxId.value + 1 else 1;
      var s := new HeapPageStore(crc, log.value, Heap(file[..heapLen], heapLen, log.value.State(), locations, next),
        pages);
      store := Some(s);
    }

    /** A located page always decodes, to the page last written under its id. */
    method ReadPage(id: nat) returns (page: Option<Decoded>)
      requires Valid()
      ensures page.Some? <==> id in pages
      ensures page.Some? ==> page.value.Ok? && page.value.ptype == pages[id].ptype
      ensures page.Some? ==> PageBytes(page.value.bytes, pages[id])
    {
      hide HeapOk, LaysOut;
      LocationsInside(crc, State());
      if id !in locations {
        return None;
      }
      var at := locations[id];
      ImageAt(crc, State(), id);
      page := Some(Decode(crc, heapFile[at..at + P.PAGE_SIZE]));
    }

    method WritePage(id: nat, page: SlottedPage)
      requires Valid() && page.Valid()
      requires id < U64_LIMIT && heapLen < U64_LIMIT && locationLog.nextSeq < U64_LIMIT
      modifies this, locationLog
      ensures Valid() && locationLog == old(locationLog) && pages == old(pages)[id := page.page]
      ensures State() == WriteImage(crc, locationLog.maxBytes, old(State()), id, Encode(crc, page.bytes[..]))
      ensures old(IdsBelow(State())) ==> (IdsBelow(State()) <==> id < nextPageId)
    {
      hide HeapOk, IdsBelow, PagesHeld, PageBytes, Append;
      FileIsWhole(crc, State());
      PageWritten(crc, locationLog.maxBytes, State(), id, page.bytes[..], page.page, pages);
      var offset := heapLen;
      var image := page.EncodePage(crc);
      heapFile := WriteAt(heapFile, offset, image);
      heapLen := heapLen + P.PAGE_SIZE;
      var _ := locationLog.AppendBatch([LocationOp(id, offset)]);
      locations := locations[id := offset];
      pages := pages[id := page.page];
    }

    method AllocatePageId() returns (id: nat)
      requires Valid()
      modifies this`nextPageId
      ensures Valid() && State() == AllocateId(old(State())) && id == old(nextPageId) && nextPageId == id + 1
      ensures old(IdsBelow(State())) ==> id !in pages && IdsBelow(State())
    {
      hide LogOk, Located, Replay, Holds;
      id := nextPageId;
      nextPageId := nextPageId + 1;
    }
  }

  lemma FileIsWhole(crc: Checksum, h: Heap)
    requires HeapOk(crc, h)
    ensures h.len == |h.file|
  {
  }

  lemma ImageAt(crc: Checksum, h: Heap, id: nat)
    requires HeapOk(crc, h) && id in h.locations
    ensures h.locations[id] + P.PAGE_SIZE <= |h.file|
    ensures id in Images(h) && Images(h)[id] == h.file[h.locations[id]..h.locations[id] + P.PAGE_SIZE]
  {
    LocationsInside(crc, h);
  }
}
