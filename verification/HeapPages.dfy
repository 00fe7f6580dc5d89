/** The heap page store: page images appended to a flat file, and a small log saying where each page is. */
module HeapPages {
  import opened Bytes
  import opened Records
  import opened Segments
  import opened Logs
  import P = Pages

  const U64_LIMIT: nat := 0x1_0000_0000_0000_0000

  /** `file` is the heap file's contents, `len` the store's idea of its length. */
  datatype Heap = Heap(file: Bytes, len: nat, log: LogState, locations: map<nat, nat>, nextId: nat)

  // ---------------------------------------------------------------------------
  // Operations

  function LocationOp(id: nat, offset: nat): LogOp {
    PutOp(ToLE(id, 8), ToLE(offset, 8))
  }

  /** The latest offset each page id was given. */
  function Located(rs: seq<Record>): map<nat, nat> {
    if rs == [] then map[]
    else var r := rs[|rs| - 1]; Located(rs[..|rs| - 1])[FromLE(r.key) := FromLE(r.value)]
  }

  /** One past the largest id located, starting at 1. */
  function NextId(rs: seq<Record>): nat {
    if rs == [] then 1
    else
      var n, id := NextId(rs[..|rs| - 1]), FromLE(rs[|rs| - 1].key);
      if n > id then n else id + 1
  }

  function WriteAt(file: Bytes, at: nat, data: Bytes): Bytes
    requires at <= |file|
  {
    file[..at] + data + if at + |data| < |file| then file[at + |data|..] else []
  }

  /** Appends the image, then logs where it is. */
  function WriteImage(crc: Checksum, max: nat, h: Heap, id: nat, image: Bytes): Heap
    requires h.len <= |h.file|
  {
    Heap(WriteAt(h.file, h.len, image), h.len + P.PAGE_SIZE, Append(crc, max, h.log, [LocationOp(id, h.len)]),
         h.locations[id := h.len], h.nextId)
  }

  function AllocateId(h: Heap): Heap {
    h.(nextId := h.nextId + 1)
  }

  /** Drops a partial page at the end of the file and replays the location log. */
  function OpenHeap(crc: Checksum, file: Bytes, segs: seq<Bytes>): Option<Heap> {
    var len, log := |file| - |file| % P.PAGE_SIZE, OpenLog(crc, segs);
    if log.None? then None
    else Some(Heap(file[..len], len, log.value, Located(Replay(crc, segs)), NextId(Replay(crc, segs))))
  }

  // ---------------------------------------------------------------------------
  // Invariant

  /** The record locates a whole page, aligned, inside a heap of this length. */
  predicate Locates(r: Record, len: nat) {
    && r.kind == Put && |r.key| == 8 && |r.value| == 8
    && FromLE(r.value) % P.PAGE_SIZE == 0 && FromLE(r.value) + P.PAGE_SIZE <= len
  }

  ghost predicate HeapOk(crc: Checksum, h: Heap) {
    && h.len == |h.file| && h.len % P.PAGE_SIZE == 0 && LogOk(crc, h.log)
    && var rs := Replay(crc, SegmentsOf(h.log));
       && (forall r :: r in rs ==> Locates(r, h.len))
       && h.locations == Located(rs)
  }

  /** Every page on the heap has an id below the next fresh one. */
  ghost predicate IdsBelow(h: Heap) {
    forall id :: id in h.locations ==> id < h.nextId
  }

  lemma {:induction false} LocatedInside(rs: seq<Record>, len: nat)
    requires forall r :: r in rs ==> Locates(r, len)
    ensures forall id :: id in Located(rs) ==>
              Located(rs)[id] % P.PAGE_SIZE == 0 && Located(rs)[id] + P.PAGE_SIZE <= len && id < NextId(rs)
  {
    hide FromLE;
    if rs != [] {
      LocatedInside(rs[..|rs| - 1], len);
      assert rs[|rs| - 1] in rs;
    }
  }

  /** Every page's location is aligned and inside the heap. */
  lemma LocationsInside(crc: Checksum, h: Heap)
    requires HeapOk(crc, h)
    ensures forall id :: id in h.locations ==>
            h.locations[id] % P.PAGE_SIZE == 0 && h.locations[id] + P.PAGE_SIZE <= h.len
  {
    hide LogOk, Replay, Located;
    LocatedInside(Replay(crc, SegmentsOf(h.log)), h.len);
  }

  /** What every page id reads. */
  ghost function Images(h: Heap): map<nat, Bytes> {
    map id | id in h.locations && h.locations[id] + P.PAGE_SIZE <= |h.file| ::
      h.file[h.locations[id]..h.locations[id] + P.PAGE_SIZE]
  }

  // ---------------------------------------------------------------------------
  // Writes and crashes

  /** A write stopped part-way: in the heap, leaving any bytes past the old end, or in the location log. */
  datatype Crash = InHeap(junk: Bytes) | InLog(cut: nat)

  /** The files a crash leaves behind. */
  ghost predicate CanCrash(crc: Checksum, h: Heap, id: nat, crash: Crash) {
    match crash
    case InHeap(junk) => |junk| <= P.PAGE_SIZE
    case InLog(cut) => cut <= |EncodeAll(crc, Stamp([LocationOp(id, h.len)], h.log.nextSeq))|
  }

  function CrashedFile(h: Heap, image: Bytes, crash: Crash): Bytes {
    h.file + if crash.InHeap? then crash.junk else image
  }

  function CrashedLog(crc: Checksum, max: nat, h: Heap, id: nat, crash: Crash): seq<Bytes>
    requires crash.InLog? ==> crash.cut <= |EncodeAll(crc, Stamp([LocationOp(id, h.len)], h.log.nextSeq))|
  {
    match crash
    case InHeap(_) => SegmentsOf(h.log)
    case InLog(cut) => TornSegments(crc, max, h.log, Stamp([LocationOp(id, h.len)], h.log.nextSeq), cut)
  }

  /** The write took effect: its whole location record reached the log. */
  predicate Landed(crc: Checksum, h: Heap, id: nat, crash: Crash) {
    crash.InLog? && crash.cut == |EncodeAll(crc, Stamp([LocationOp(id, h.len)], h.log.nextSeq))|
  }

  /** The widths of the id, the offset and the sequence number. */
  predicate CanWrite(h: Heap, id: nat, image: Bytes) {
    id < U64_LIMIT && h.len < U64_LIMIT && h.log.nextSeq < U64_LIMIT && |image| == P.PAGE_SIZE
  }

  lemma LocationFits(h: Heap, id: nat, image: Bytes)
    requires CanWrite(h, id, image)
    ensures var rs := Stamp([LocationOp(id, h.len)], h.log.nextSeq);
            && |rs| == 1 && AllFit(rs) && FromLE(rs[0].key) == id && FromLE(rs[0].value) == h.len
            && rs[0].kind == Put && |rs[0].key| == 8 && |rs[0].value| == 8
  {
    hide FromLE, ToLE;
    PowWidths();
    FromToLE(id, 8);
    FromToLE(h.len, 8);
    StampAt([LocationOp(id, h.len)], h.log.nextSeq, 0);
  }

  /** One more location record moves one page. */
  lemma LocatedMore(rs: seq<Record>, r: Record)
    ensures Located(rs + [r]) == Located(rs)[FromLE(r.key) := FromLE(r.value)]
    ensures NextId(rs + [r]) == if NextId(rs) > FromLE(r.key) then NextId(rs) else FromLE(r.key) + 1
  {
    assert (rs + [r])[..|rs|] == rs;
  }

  lemma Relocated(crc: Checksum, h: Heap, h': Heap, id: nat, image: Bytes)
    requires HeapOk(crc, h) && CanWrite(h, id, image)
    requires h'.file == h.file + image && h'.len == h.len + P.PAGE_SIZE && LogOk(crc, h'.log)
    requires Replay(crc, SegmentsOf(h'.log)) ==
             Replay(crc, SegmentsOf(h.log)) + Stamp([LocationOp(id, h.len)], h.log.nextSeq)
    requires h'.locations == Located(Replay(crc, SegmentsOf(h'.log)))
    ensures HeapOk(crc, h') && h'.locations == h.locations[id := h.len] && Images(h') == Images(h)[id := image]
  {
    hide LogOk, Replay, Located, Stamp, FromLE;
    LocationFits(h, id, image);
    var rs, new' := Replay(crc, SegmentsOf(h.log)), Stamp([LocationOp(id, h.len)], h.log.nextSeq);
    assert new' == [new'[0]];
    LocatedMore(rs, new'[0]);
    LocationsInside(crc, h);
    MovedImages(h, h', id, image);
    forall r | r in Replay(crc, SegmentsOf(h'.log)) ensures Locates(r, h'.len) {
      assert r in rs || r == new'[0];
    }
  }

  lemma MovedImages(h: Heap, h': Heap, id: nat, image: Bytes)
    requires h.len == |h.file| && |image| == P.PAGE_SIZE && h'.file == h.file + image
    requires forall x :: x in h.locations ==> h.locations[x] + P.PAGE_SIZE <= h.len
    requires h'.locations == h.locations[id := h.len]
    ensures Images(h') == Images(h)[id := image]
  {
    forall x | x in h'.locations ensures x in Images(h') && Images(h')[x] == Images(h)[id := image][x] {
      assert h'.locations[x] + P.PAGE_SIZE <= |h'.file|;
    }
  }

  /** A completed write changes that page and no other, and rewrites no byte of the heap. */
  lemma WriteOk(crc: Checksum, max: nat, h: Heap, id: nat, image: Bytes)
    requires HeapOk(crc, h) && CanWrite(h, id, image)
    ensures var h' := WriteImage(crc, max, h, id, image);
            HeapOk(crc, h') && Images(h') == Images(h)[id := image] && h.file <= h'.file
    ensures IdsBelow(h) ==> (IdsBelow(WriteImage(crc, max, h, id, image)) <==> id < h.nextId)
  {
    hide LogOk, Replay, Located, Stamp, Append, FromLE, ToLE, Images, NextId, Locates;
    var h', ops := WriteImage(crc, max, h, id, image), [LocationOp(id, h.len)];
    LocationFits(h, id, image);
    AppendOk(crc, max, h.log, ops);
    assert h'.file == h.file + image;
    var rs, new' := Replay(crc, SegmentsOf(h.log)), Stamp(ops, h.log.nextSeq);
    assert new' == [new'[0]];
    LocatedMore(rs, new'[0]);
    Relocated(crc, h, h', id, image);
    assert id in h'.locations;
  }

  /** Whatever a crash leaves, opening it finds the page's old or new image and every other page as it
      was; bytes once on the heap are never rewritten, and fresh ids stay clear of every page found. */
  lemma CrashOk(crc: Checksum, max: nat, h: Heap, id: nat, image: Bytes, crash: Crash)
    requires HeapOk(crc, h) && CanWrite(h, id, image) && CanCrash(crc, h, id, crash)
    ensures var o := OpenHeap(crc, CrashedFile(h, image, crash), CrashedLog(crc, max, h, id, crash));
            && o.Some? && HeapOk(crc, o.value) && IdsBelow(o.value) && h.file <= o.value.file
            && Images(o.value) == if Landed(crc, h, id, crash) then Images(h)[id := image] else Images(h)
  {
    hide HeapOk, IdsBelow, Images, OpenHeap, Replay, Stamp, TornSegments, EncodeAll, LogOk;
    match crash {
      case InHeap(junk) => CrashInHeap(crc, h, junk);
      case InLog(cut) => CrashInLog(crc, max, h, id, image, cut);
    }
  }

  lemma CrashInHeap(crc: Checksum, h: Heap, junk: Bytes)
    requires HeapOk(crc, h) && |junk| <= P.PAGE_SIZE
    ensures var o := OpenHeap(crc, h.file + junk, SegmentsOf(h.log));
            && o.Some? && HeapOk(crc, o.value) && IdsBelow(o.value) && h.file <= o.value.file
            && Images(o.value) == Images(h)
  {
    hide Replay, Located, NextId, OpenLog, Images, Locates, LogOk;
    LogReopens(crc, h.log);
    Reopened(crc, h, h.file + junk, SegmentsOf(h.log));
  }

  lemma CrashInLog(crc: Checksum, max: nat, h: Heap, id: nat, image: Bytes, cut: nat)
    requires HeapOk(crc, h) && CanWrite(h, id, image) && CanCrash(crc, h, id, InLog(cut))
    ensures var o := OpenHeap(crc, h.file + image, CrashedLog(crc, max, h, id, InLog(cut)));
            && o.Some? && HeapOk(crc, o.value) && IdsBelow(o.value) && h.file <= o.value.file
            && Images(o.value) == if Landed(crc, h, id, InLog(cut)) then Images(h)[id := image] else Images(h)
  {
    hide LogOk, Replay, Located, Stamp, FromLE, ToLE, EncodeAll, NextId, Images, Locates, OpenLog;
    LocationFits(h, id, image);
    var ops := [LocationOp(id, h.len)];
    var n := OpenAfterCut(crc, max, h.log, ops, cut);
    var segs := TornSegments(crc, max, h.log, Stamp(ops, h.log.nextSeq), cut);
    OpenedLog(crc, segs);
    if n == 1 {
      assert ops[..n] == ops;
      var h' := OpenHeap(crc, h.file + image, segs).value;
      assert h'.file == h.file + image;
      Relocated(crc, h, h', id, image);
      LocatedInside(Replay(crc, segs), h'.len);
    } else {
      assert ops[..n] == [];
      NothingStamped(h.log.nextSeq);
      assert Replay(crc, segs) == Replay(crc, SegmentsOf(h.log));
      Reopened(crc, h, h.file + image, segs);
    }
  }

  lemma NothingStamped(n: nat)
    ensures Stamp([], n) == []
  {
  }

  /** Opening the same records over the same heap with up to a page of anything after it. */
  lemma Reopened(crc: Checksum, h: Heap, file: Bytes, segs: seq<Bytes>)
    requires HeapOk(crc, h) && h.file <= file && |file| <= |h.file| + P.PAGE_SIZE
    requires Replay(crc, segs) == Replay(crc, SegmentsOf(h.log)) && OpenLog(crc, segs).Some?
    requires LogOk(crc, OpenLog(crc, segs).value)
    requires Replay(crc, SegmentsOf(OpenLog(crc, segs).value)) == Replay(crc, segs)
    ensures var h' := OpenHeap(crc, file, segs).value;
            HeapOk(crc, h') && IdsBelow(h') && h.file <= h'.file && Images(h') == Images(h)
  {
    hide LogOk, Replay, Located, OpenLog, FromLE, NextId;
    var h' := OpenHeap(crc, file, segs).value;
    LocationsInside(crc, h);
    assert h.len <= h'.len <= |file|;
    forall r | r in Replay(crc, segs) ensures Locates(r, h'.len) {
      assert Locates(r, h.len);
    }
    LocatedInside(Replay(crc, segs), h'.len);
    forall id | id in h.locations ensures id in Images(h') && Images(h')[id] == Images(h)[id] {
      var at := h.locations[id];
      assert at + P.PAGE_SIZE <= |h'.file|;
      assert h'.file[at..at + P.PAGE_SIZE] == h.file[at..at + P.PAGE_SIZE];
    }
  }

  // ---------------------------------------------------------------------------
  // Whole runs

  datatype Event =
    | Write(id: nat, image: Bytes)
    | CrashInWrite(id: nat, image: Bytes, crash: Crash)
    | Allocate
    | Reopen

  ghost predicate Possible(crc: Checksum, h: Heap, e: Event) {
    match e
    case Write(id, image) => CanWrite(h, id, image)
    case CrashInWrite(id, image, crash) => CanWrite(h, id, image) && CanCrash(crc, h, id, crash)
    case _ => true
  }

  ghost function After(crc: Checksum, max: nat, h: Heap, e: Event): Heap
    requires HeapOk(crc, h) && Possible(crc, h, e)
  {
    match e
    case Write(id, image) => WriteImage(crc, max, h, id, image)
    case CrashInWrite(id, image, crash) => (
      CrashOk(crc, max, h, id, image, crash);
      OpenHeap(crc, CrashedFile(h, image, crash), CrashedLog(crc, max, h, id, crash)).value)
    case Allocate => AllocateId(h)
    case Reopen => (
      LogReopens(crc, h.log);
      OpenHeap(crc, h.file, SegmentsOf(h.log)).value)
  }

  /** The page map an event leaves: only a write that landed changes it. */
  ghost function AfterImages(crc: Checksum, h: Heap, e: Event): map<nat, Bytes> {
    match e
    case Write(id, image) => Images(h)[id := image]
    case CrashInWrite(id, image, crash) => if Landed(crc, h, id, crash) then Images(h)[id := image] else Images(h)
    case _ => Images(h)
  }

  lemma EventOk(crc: Checksum, max: nat, h: Heap, e: Event)
    requires HeapOk(crc, h) && Possible(crc, h, e)
    ensures HeapOk(crc, After(crc, max, h, e)) && h.file <= After(crc, max, h, e).file
    ensures Images(After(crc, max, h, e)) == AfterImages(crc, h, e)
    ensures IdsBelow(h) && (e.Write? ==> e.id < h.nextId) ==> IdsBelow(After(crc, max, h, e))
  {
    hide LogOk, Replay, Located, Stamp, FromLE, TornSegments, EncodeAll, NextId, OpenLog, WriteImage, OpenHeap,
      CanCrash;
    match e {
      case Write(id, image) => WriteOk(crc, max, h, id, image);
      case CrashInWrite(id, image, crash) => CrashOk(crc, max, h, id, image, crash);
      case Allocate =>
      case Reopen =>
        LogReopens(crc, h.log);
        Reopened(crc, h, h.file, SegmentsOf(h.log));
    }
  }

  /** Each event is possible when its turn comes. */
  ghost predicate Legal(crc: Checksum, max: nat, h: Heap, events: seq<Event>)
    requires HeapOk(crc, h)
    decreases |events|
  {
    events != [] ==>
      && Possible(crc, h, events[0])
      && (EventOk(crc, max, h, events[0]); Legal(crc, max, After(crc, max, h, events[0]), events[1..]))
  }

  ghost function RunHeap(crc: Checksum, max: nat, h: Heap, events: seq<Event>): Heap
    requires HeapOk(crc, h) && Legal(crc, max, h, events)
    decreases |events|
  {
    if events == [] then h
    else
      EventOk(crc, max, h, events[0]);
      RunHeap(crc, max, After(crc, max, h, events[0]), events[1..])
  }

  /** The last image of `id` that landed, if any did. */
  ghost function LastLanded(crc: Checksum, max: nat, h: Heap, events: seq<Event>, id: nat,
                            before: Option<Bytes>): Option<Bytes>
    requires HeapOk(crc, h) && Legal(crc, max, h, events)
    decreases |events|
  {
    if events == [] then before
    else
      EventOk(crc, max, h, events[0]);
      var e := events[0];
      var hit := (e.Write? && e.id == id) || (e.CrashInWrite? && e.id == id && Landed(crc, h, id, e.crash));
      LastLanded(crc, max, After(crc, max, h, e), events[1..], id, if hit then Some(e.image) else before)
  }

  ghost function ImageOf(h: Heap, id: nat): Option<Bytes> {
    if id in Images(h) then Some(Images(h)[id]) else None
  }

  /** Over any run of writes, crashes inside writes, allocations and reopens, each page reads the last
      image that landed and the heap only grows. */
  lemma {:induction false} RunReadsLastLanded(crc: Checksum, max: nat, h: Heap, events: seq<Event>, id: nat)
    requires HeapOk(crc, h) && Legal(crc, max, h, events)
    ensures var h' := RunHeap(crc, max, h, events);
            && HeapOk(crc, h') && h.file <= h'.file
            && ImageOf(h', id) == LastLanded(crc, max, h, events, id, ImageOf(h, id))
    decreases |events|
  {
    hide HeapOk, IdsBelow, Possible, After, Images, Landed;
    if events != [] {
      EventOk(crc, max, h, events[0]);
      RunReadsLastLanded(crc, max, After(crc, max, h, events[0]), events[1..], id);
    }
  }

  /** Every completed write of the run uses an id given out before it. */
  ghost predicate WritesGivenIds(crc: Checksum, max: nat, h: Heap, events: seq<Event>)
    requires HeapOk(crc, h) && Legal(crc, max, h, events)
    decreases |events|
  {
    events != [] ==>
      && (events[0].Write? ==> events[0].id < h.nextId)
      && (EventOk(crc, max, h, events[0]); WritesGivenIds(crc, max, After(crc, max, h, events[0]), events[1..]))
  }

  /** Over such a run a fresh id never names a page the heap holds, also after crashes and reopens. */
  lemma {:induction false} RunKeepsIdsFresh(crc: Checksum, max: nat, h: Heap, events: seq<Event>)
    requires HeapOk(crc, h) && IdsBelow(h) && Legal(crc, max, h, events) && WritesGivenIds(crc, max, h, events)
    ensures IdsBelow(RunHeap(crc, max, h, events))
    decreases |events|
  {
    hide HeapOk, IdsBelow, Possible, After, Images, Landed;
    if events != [] {
      EventOk(crc, max, h, events[0]);
      RunKeepsIdsFresh(crc, max, After(crc, max, h, events[0]), events[1..]);
    }
  }

  /** The ids a run gives out. */
  ghost function GivenOut(crc: Checksum, max: nat, h: Heap, events: seq<Event>): seq<nat>
    requires HeapOk(crc, h) && Legal(crc, max, h, events)
    decreases |events|
  {
    if events == [] then []
    else
      EventOk(crc, max, h, events[0]);
      var rest := GivenOut(crc, max, After(crc, max, h, events[0]), events[1..]);
      if events[0].Allocate? then [h.nextId] + rest else rest
  }

  /** Between two openings, whatever is written, no id is given out twice: they count up from the first. */
  lemma {:induction false} GivenOutCounts(crc: Checksum, max: nat, h: Heap, events: seq<Event>, i: nat)
    requires HeapOk(crc, h) && Legal(crc, max, h, events)
    requires forall j :: 0 <= j < |events| ==> !events[j].Reopen? && !events[j].CrashInWrite?
    requires i < |GivenOut(crc, max, h, events)|
    ensures GivenOut(crc, max, h, events)[i] == h.nextId + i
    ensures RunHeap(crc, max, h, events).nextId == h.nextId + |GivenOut(crc, max, h, events)|
    decreases |events|
  {
    hide HeapOk, Possible, Images, Landed, Append;
    EventOk(crc, max, h, events[0]);
    var h' := After(crc, max, h, events[0]);
    var rest := GivenOut(crc, max, h', events[1..]);
    if events[0].Allocate? && rest == [] {
      NothingGivenOut(crc, max, h', events[1..]);
    } else {
      var k := if !events[0].Allocate? then i else if i == 0 then 0 else i - 1;
      GivenOutCounts(crc, max, h', events[1..], k);
    }
  }

  lemma {:induction false} NothingGivenOut(crc: Checksum, max: nat, h: Heap, events: seq<Event>)
    requires HeapOk(crc, h) && Legal(crc, max, h, events) && GivenOut(crc, max, h, events) == []
    requires forall j :: 0 <= j < |events| ==> !events[j].Reopen? && !events[j].CrashInWrite?
    ensures RunHeap(crc, max, h, events).nextId == h.nextId
    decreases |events|
  {
    hide HeapOk, Possible, Images, Landed, Append;
    if events != [] {
      EventOk(crc, max, h, events[0]);
      NothingGivenOut(crc, max, After(crc, max, h, events[0]), events[1..]);
    }
  }

  /** A reopened store gives out ids from one past the last page it holds, so an id given out before and
      never written comes again: the next id survives exactly if the last id given out was written. */
  lemma ReopenForgetsUnwrittenIds(crc: Checksum, h: Heap)
    requires HeapOk(crc, h) && IdsBelow(h) && h.nextId >= 1
    ensures OpenHeap(crc, h.file, SegmentsOf(h.log)).Some?
    ensures var h' := OpenHeap(crc, h.file, SegmentsOf(h.log)).value;
            h'.nextId <= h.nextId && (h'.nextId == h.nextId <==> h.nextId == 1 || h.nextId - 1 in h.locations)
  {
    hide LogOk, Replay, Located, FromLE, OpenLog, NextId;
    LogReopens(crc, h.log);
    var rs := Replay(crc, SegmentsOf(h.log));
    LocatedInside(rs, h.len);
    NextIdLocated(rs);
  }

  lemma {:induction false} NextIdLocated(rs: seq<Record>)
    ensures NextId(rs) >= 1 && (NextId(rs) == 1 || NextId(rs) - 1 in Located(rs))
  {
    hide FromLE;
    if rs != [] {
      NextIdLocated(rs[..|rs| - 1]);
    }
  }

  /** The smallest case: in an empty store id 1 is given out, and after a reopen given out again. */
  lemma UnwrittenIdComesAgain(crc: Checksum) returns (h: Heap, h': Heap)
    ensures h == Heap([], 0, LogState([], [], 0), map[], 1) && h' == AllocateId(h)
    ensures HeapOk(crc, h') && IdsBelow(h') && h'.nextId == 2
    ensures OpenHeap(crc, h'.file, SegmentsOf(h'.log)) == Some(h)
  {
    hide OpenLog, LogOk, Replay;
    h := Heap([], 0, LogState([], [], 0), map[], 1);
    h' := AllocateId(h);
    StartsEmpty(crc);
    LogReopens(crc, h.log);
  }
}
