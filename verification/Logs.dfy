/** The append-only log: segments, rollover, batched appends, and replay when opened. */
module Logs {
  import opened Bytes
  import opened Records
  import opened Segments

  const DEFAULT_SEGMENT_MAX_BYTES: nat := 4 * 1024 * 1024

  datatype LogOp = PutOp(key: Bytes, value: Bytes) | DeleteOp(key: Bytes)

  /** Sealed segments in id order, then the active one. Segment ids are positions. */
  datatype LogState = LogState(sealed: seq<Bytes>, active: Bytes, nextSeq: nat)

  function SegmentsOf(s: LogState): seq<Bytes> {
    s.sealed + [s.active]
  }

  function ToRecord(op: LogOp, seqNo: nat): Record {
    match op
    case PutOp(key, value) => PutRecord(seqNo, key, value)
    case DeleteOp(key) => DeleteRecord(seqNo, key)
  }

  /** Each op as its own record, with consecutive sequence numbers from `first`. */
  function Stamp(ops: seq<LogOp>, first: nat): (rs: seq<Record>)
    ensures |rs| == |ops|
  {
    if ops == [] then []
    else Stamp(ops[..|ops| - 1], first) + [ToRecord(ops[|ops| - 1], first + |ops| - 1)]
  }

  lemma {:induction false} StampAt(ops: seq<LogOp>, first: nat, i: nat)
    requires i < |ops|
    ensures Stamp(ops, first)[i] == ToRecord(ops[i], first + i)
  {
    if i < |ops| - 1 {
      StampAt(ops[..|ops| - 1], first, i);
    }
  }

  /** A batch is stamped as its parts would be, one after the other. */
  lemma {:induction false} StampAppend(a: seq<LogOp>, b: seq<LogOp>, first: nat)
    ensures Stamp(a + b, first) == Stamp(a, first) + Stamp(b, first + |a|)
  {
    if b == [] {
      assert a + b == a;
    } else {
      StampAppend(a, b[..|b| - 1], first);
      assert (a + b)[..|a + b| - 1] == a + b[..|b| - 1];
    }
  }

  // ---------------------------------------------------------------------------
  // Appending

  /** Seals the active segment if the incoming bytes would take it past the limit. */
  function RollOver(max: nat, s: LogState, incoming: nat): LogState {
    if s.active == [] || |s.active| + incoming <= max then s
    else s.(sealed := s.sealed + [s.active], active := [])
  }

  function AppendRecords(crc: Checksum, max: nat, s: LogState, rs: seq<Record>): LogState {
    var bytes := EncodeAll(crc, rs);
    var s' := RollOver(max, s, |bytes|);
    s'.(active := s'.active + bytes)
  }

  function Append(crc: Checksum, max: nat, s: LogState, ops: seq<LogOp>): LogState {
    AppendRecords(crc, max, s, Stamp(ops, s.nextSeq)).(nextSeq := s.nextSeq + |ops|)
  }

  /** Records keep the sequence numbers they come with. */
  function AppendVerbatim(crc: Checksum, max: nat, s: LogState, rs: seq<Record>): LogState {
    if rs == [] then s
    else AppendRecords(crc, max, s, rs).(nextSeq := if NextSeq(rs) > s.nextSeq then NextSeq(rs) else s.nextSeq)
  }

  // ---------------------------------------------------------------------------
  // Opening

  /** The records of all segments, in order. */
  function Replay(crc: Checksum, segs: seq<Bytes>): seq<Record> {
    if segs == [] then [] else Replay(crc, segs[..|segs| - 1]) + Parse(crc, segs[|segs| - 1])
  }

  /** One past the largest sequence number seen. */
  function NextSeq(rs: seq<Record>): nat {
    if rs == [] then 0
    else
      var n, last := NextSeq(rs[..|rs| - 1]), rs[|rs| - 1].seqNo;
      if n > last then n else last + 1
  }

  /** No bytes past the last whole record. */
  predicate Untorn(crc: Checksum, seg: Bytes) {
    ValidLen(crc, seg) == |seg|
  }

  /** A torn tail is truncated in the last segment and refused in any earlier one. */
  function OpenLog(crc: Checksum, segs: seq<Bytes>): Option<LogState> {
    if segs == [] then Some(LogState([], [], 0))
    else if exists i :: 0 <= i < |segs| - 1 && !Untorn(crc, segs[i]) then None
    else
      var last := segs[|segs| - 1];
      ParsePrints(crc, last);
      Some(LogState(segs[..|segs| - 1], last[..ValidLen(crc, last)], NextSeq(Replay(crc, segs))))
  }

  // ---------------------------------------------------------------------------
  // What a log in use looks like

  ghost predicate Increasing(rs: seq<Record>) {
    forall i, j :: 0 <= i < j < |rs| ==> rs[i].seqNo < rs[j].seqNo
  }

  ghost predicate LogOk(crc: Checksum, s: LogState) {
    && (forall i :: 0 <= i < |SegmentsOf(s)| ==> Untorn(crc, SegmentsOf(s)[i]))
    && s.nextSeq == NextSeq(Replay(crc, SegmentsOf(s)))
  }

  lemma {:induction false} ReplayAppend(crc: Checksum, a: seq<Bytes>, b: seq<Bytes>)
    ensures Replay(crc, a + b) == Replay(crc, a) + Replay(crc, b)
  {
    hide Parse;
    if b == [] {
      assert a + b == a;
    } else {
      ReplayAppend(crc, a, b[..|b| - 1]);
      assert (a + b)[..|a + b| - 1] == a + b[..|b| - 1];
    }
  }

  lemma ReplayOne(crc: Checksum, seg: Bytes)
    ensures Replay(crc, [seg]) == Parse(crc, seg)
  {
    hide Parse;
    assert [seg][..0] == [];
  }

  lemma {:induction false} NextSeqOf(rs: seq<Record>)
    requires Increasing(rs)
    ensures NextSeq(rs) == if rs == [] then 0 else rs[|rs| - 1].seqNo + 1
  {
    if rs != [] {
      NextSeqOf(rs[..|rs| - 1]);
    }
  }

  /** Past every number seen, and no further. */
  lemma {:induction false} NextSeqSpec(rs: seq<Record>)
    ensures forall r :: r in rs ==> r.seqNo < NextSeq(rs)
    ensures if rs == [] then NextSeq(rs) == 0 else exists r :: r in rs && NextSeq(rs) == r.seqNo + 1
  {
    if rs != [] {
      var front, last := rs[..|rs| - 1], rs[|rs| - 1];
      NextSeqSpec(front);
      assert last in rs && forall r :: r in rs <==> r in front || r == last;
    }
  }

  /** Stamped records come after everything before them. */
  lemma {:induction false} StampNext(rs: seq<Record>, ops: seq<LogOp>)
    ensures NextSeq(rs + Stamp(ops, NextSeq(rs))) == NextSeq(rs) + |ops|
  {
    if ops == [] {
      assert rs + [] == rs;
    } else {
      var front := ops[..|ops| - 1];
      StampNext(rs, front);
      var all := rs + Stamp(ops, NextSeq(rs));
      assert all[..|all| - 1] == rs + Stamp(front, NextSeq(rs));
    }
  }

  /** Stamped records continue an increasing history. */
  lemma StampContinues(rs: seq<Record>, ops: seq<LogOp>)
    requires Increasing(rs)
    ensures Increasing(rs + Stamp(ops, NextSeq(rs)))
    ensures NextSeq(rs + Stamp(ops, NextSeq(rs))) == NextSeq(rs) + |ops|
  {
    hide Stamp, NextSeq;
    NextSeqOf(rs);
    var new' := Stamp(ops, NextSeq(rs));
    var all := rs + new';
    forall i | 0 <= i < |ops| ensures new'[i].seqNo == NextSeq(rs) + i {
      StampAt(ops, NextSeq(rs), i);
    }
    forall i, j | 0 <= i < j < |all| ensures all[i].seqNo < all[j].seqNo {
      if i < |rs| <= j {
        assert rs[i].seqNo <= rs[|rs| - 1].seqNo;
        assert all[j] == new'[j - |rs|];
      }
    }
    NextSeqOf(all);
  }

  // ---------------------------------------------------------------------------
  // Appends and crashes

  /** The segments on disk when only `cut` bytes of a batch reached the file. */
  function TornSegments(crc: Checksum, max: nat, s: LogState, rs: seq<Record>, cut: nat): seq<Bytes>
    requires cut <= |EncodeAll(crc, rs)|
  {
    var bytes := EncodeAll(crc, rs);
    var s' := RollOver(max, s, |bytes|);
    s'.sealed + [s'.active + bytes[..cut]]
  }

  lemma RollOverKeeps(crc: Checksum, max: nat, s: LogState, incoming: nat)
    requires LogOk(crc, s)
    ensures LogOk(crc, RollOver(max, s, incoming))
    ensures Replay(crc, SegmentsOf(RollOver(max, s, incoming))) == Replay(crc, SegmentsOf(s))
  {
    hide Parse, Increasing;
    var s' := RollOver(max, s, incoming);
    if s' != s {
      assert SegmentsOf(s') == SegmentsOf(s) + [[]];
      ReplayAppend(crc, SegmentsOf(s), [[]]);
      ReplayOne(crc, []);
      EmptySegment(crc);
      assert Replay(crc, SegmentsOf(s)) + [] == Replay(crc, SegmentsOf(s));
      forall i | 0 <= i < |SegmentsOf(s')| ensures Untorn(crc, SegmentsOf(s')[i]) {
        assert i < |SegmentsOf(s)| ==> SegmentsOf(s')[i] == SegmentsOf(s)[i];
      }
    }
  }

  lemma EmptySegment(crc: Checksum)
    ensures Parse(crc, []) == [] && Untorn(crc, [])
  {
  }

  /** A cut batch leaves its whole records behind the old ones, and nothing else. */
  lemma CutBatch(crc: Checksum, active: Bytes, rs: seq<Record>, cut: nat) returns (n: nat)
    requires Untorn(crc, active) && AllFit(rs) && cut <= |EncodeAll(crc, rs)|
    ensures WholeRecordsIn(crc, rs, cut, n)
    ensures Parse(crc, active + EncodeAll(crc, rs)[..cut]) == Parse(crc, active) + rs[..n]
    ensures cut == |EncodeAll(crc, rs)| <==> n == |rs|
  {
    hide Parse, EncodeAll;
    ParsePrints(crc, active);
    assert active[..|active|] == active;
    n := CutRecoversPrefix(crc, rs, cut);
    ParseSkips(crc, Parse(crc, active), EncodeAll(crc, rs)[..cut]);
    if n < |rs| {
      EncodeAllAppend(crc, rs[..n + 1], rs[n + 1..]);
      assert rs == rs[..n + 1] + rs[n + 1..];
    } else {
      assert rs[..n] == rs;
    }
  }

  /** Opening what a crash left recovers the old records and a prefix of the batch in flight. */
  lemma OpenAfterCut(crc: Checksum, max: nat, s: LogState, ops: seq<LogOp>, cut: nat) returns (n: nat)
    requires LogOk(crc, s) && AllFit(Stamp(ops, s.nextSeq)) && cut <= |EncodeAll(crc, Stamp(ops, s.nextSeq))|
    ensures n <= |ops| && (cut == |EncodeAll(crc, Stamp(ops, s.nextSeq))| <==> n == |ops|)
    ensures OpenLog(crc, TornSegments(crc, max, s, Stamp(ops, s.nextSeq), cut)).Some?
    ensures var s' := OpenLog(crc, TornSegments(crc, max, s, Stamp(ops, s.nextSeq), cut)).value;
            && LogOk(crc, s')
            && Replay(crc, SegmentsOf(s')) == Replay(crc, SegmentsOf(s)) + Stamp(ops[..n], s.nextSeq)
  {
    hide Parse, EncodeAll, Stamp, NextSeq, RollOver, Replay, OpenLog, LogOk;
    var rs := Stamp(ops, s.nextSeq);
    var s1 := RollOver(max, s, |EncodeAll(crc, rs)|);
    RollOverKeeps(crc, max, s, |EncodeAll(crc, rs)|);
    n := OpenCut(crc, s1, rs, cut);
    StampAppend(ops[..n], ops[n..], s.nextSeq);
    assert ops == ops[..n] + ops[n..];
    assert rs[..n] == Stamp(ops[..n], s.nextSeq);
  }

  /** The same for a log that needs no rollover. */
  lemma OpenCut(crc: Checksum, s: LogState, rs: seq<Record>, cut: nat) returns (n: nat)
    requires LogOk(crc, s) && AllFit(rs) && cut <= |EncodeAll(crc, rs)|
    ensures n <= |rs| && (cut == |EncodeAll(crc, rs)| <==> n == |rs|)
    ensures var o := OpenLog(crc, s.sealed + [s.active + EncodeAll(crc, rs)[..cut]]);
            && o.Some? && LogOk(crc, o.value)
            && Replay(crc, SegmentsOf(o.value)) == Replay(crc, SegmentsOf(s)) + rs[..n]
            && SegmentsOf(o.value) == s.sealed + [s.active + EncodeAll(crc, rs[..n])]
    ensures |EncodeAll(crc, rs[..n])| <= cut
  {
    hide Parse, EncodeAll, NextSeq, Replay;
    assert Untorn(crc, s.active) by { assert SegmentsOf(s)[|s.sealed|] == s.active; }
    n := CutBatch(crc, s.active, rs, cut);
    CutKeeps(crc, s.active, rs, cut, n);
    var last := s.active + EncodeAll(crc, rs)[..cut];
    var segs := s.sealed + [last];
    forall i | 0 <= i < |segs| - 1 ensures Untorn(crc, segs[i]) {
      assert SegmentsOf(s)[i] == segs[i];
    }
    OpenTruncates(crc, segs);
    ReplaySnoc(crc, s.sealed, last);
    ReplaySnoc(crc, s.sealed, s.active);
  }

  /** What opening keeps of a segment that ends in a cut batch. */
  lemma CutKeeps(crc: Checksum, active: Bytes, rs: seq<Record>, cut: nat, n: nat)
    requires Untorn(crc, active) && cut <= |EncodeAll(crc, rs)| && n <= |rs|
    requires Parse(crc, active + EncodeAll(crc, rs)[..cut]) == Parse(crc, active) + rs[..n]
    ensures var last := active + EncodeAll(crc, rs)[..cut];
            ValidLen(crc, last) <= |last| && last[..ValidLen(crc, last)] == active + EncodeAll(crc, rs[..n])
  {
    hide Parse, EncodeAll;
    ParsePrints(crc, active);
    ParsePrints(crc, active + EncodeAll(crc, rs)[..cut]);
    EncodeAllAppend(crc, Parse(crc, active), rs[..n]);
    assert active[..|active|] == active;
  }

  lemma ReplaySnoc(crc: Checksum, segs: seq<Bytes>, last: Bytes)
    ensures Replay(crc, segs + [last]) == Replay(crc, segs) + Parse(crc, last)
  {
    hide Parse;
    ReplayAppend(crc, segs, [last]);
    ReplayOne(crc, last);
  }

  /** Opening is refused exactly if some segment but the last has bytes past its last whole record. */
  lemma RefusedIff(crc: Checksum, segs: seq<Bytes>)
    ensures OpenLog(crc, segs).None? <==>
            exists i :: 0 <= i < |segs| - 1 && |EncodeAll(crc, Parse(crc, segs[i]))| < |segs[i]|
  {
    hide Parse, EncodeAll, NextSeq, Replay;
    forall i | 0 <= i < |segs| ensures ValidLen(crc, segs[i]) <= |segs[i]| {
      ParsePrints(crc, segs[i]);
    }
    assert forall i :: 0 <= i < |segs| ==> (!Untorn(crc, segs[i]) <==> ValidLen(crc, segs[i]) < |segs[i]|);
  }

  /** Opening keeps every record and leaves no torn segment. */
  lemma OpenTruncates(crc: Checksum, segs: seq<Bytes>)
    requires segs != [] && forall i :: 0 <= i < |segs| - 1 ==> Untorn(crc, segs[i])
    ensures OpenLog(crc, segs).Some?
    ensures var s := OpenLog(crc, segs).value;
            && (forall i :: 0 <= i < |SegmentsOf(s)| ==> Untorn(crc, SegmentsOf(s)[i]))
            && Replay(crc, SegmentsOf(s)) == Replay(crc, segs) && s.nextSeq == NextSeq(Replay(crc, segs))
  {
    hide Parse, EncodeAll, NextSeq;
    var front, last := segs[..|segs| - 1], segs[|segs| - 1];
    ParsePrints(crc, last);
    var kept := last[..ValidLen(crc, last)];
    ParseClean(crc, Parse(crc, last));
    assert segs == front + [last];
    ReplaySnoc(crc, front, last);
    ReplaySnoc(crc, front, kept);
    assert OpenLog(crc, segs) == Some(LogState(front, kept, NextSeq(Replay(crc, segs))));
  }

  /** A completed append adds exactly its records. */
  lemma AppendOk(crc: Checksum, max: nat, s: LogState, ops: seq<LogOp>)
    requires LogOk(crc, s) && AllFit(Stamp(ops, s.nextSeq))
    ensures LogOk(crc, Append(crc, max, s, ops))
    ensures Replay(crc, SegmentsOf(Append(crc, max, s, ops))) == Replay(crc, SegmentsOf(s)) + Stamp(ops, s.nextSeq)
  {
    hide Parse, EncodeAll, Stamp, NextSeq, Increasing;
    var rs := Stamp(ops, s.nextSeq);
    AppendRecordsOk(crc, max, s, rs);
    StampNext(Replay(crc, SegmentsOf(s)), ops);
  }

  lemma AppendRecordsOk(crc: Checksum, max: nat, s: LogState, rs: seq<Record>)
    requires LogOk(crc, s) && AllFit(rs)
    ensures var s' := AppendRecords(crc, max, s, rs);
            && (forall i :: 0 <= i < |SegmentsOf(s')| ==> Untorn(crc, SegmentsOf(s')[i]))
            && Replay(crc, SegmentsOf(s')) == Replay(crc, SegmentsOf(s)) + rs
  {
    hide Parse, EncodeAll, NextSeq, Increasing;
    var bytes := EncodeAll(crc, rs);
    var s1 := RollOver(max, s, |bytes|);
    var s' := AppendRecords(crc, max, s, rs);
    RollOverKeeps(crc, max, s, |bytes|);
    assert Untorn(crc, s1.active) by { assert SegmentsOf(s1)[|s1.sealed|] == s1.active; }
    TruncateThenAppend(crc, s1.active, rs);
    assert s1.active[..|s1.active|] == s1.active;
    ReplaySnoc(crc, s1.sealed, s1.active);
    ReplaySnoc(crc, s1.sealed, s'.active);
    forall i | 0 <= i < |SegmentsOf(s')| ensures Untorn(crc, SegmentsOf(s')[i]) {
      assert i < |s1.sealed| ==> SegmentsOf(s1)[i] == SegmentsOf(s')[i];
    }
  }

  // ---------------------------------------------------------------------------
  // Whole histories

  /** A completed append, or a crash with `cut` bytes of a batch on disk followed by a reopening. */
  datatype Event = Appended(ops: seq<LogOp>) | Crashed(ops: seq<LogOp>, cut: nat)

  function After(crc: Checksum, max: nat, s: LogState, e: Event): Option<LogState> {
    match e
    case Appended(ops) => Some(Append(crc, max, s, ops))
    case Crashed(ops, cut) =>
      var rs := Stamp(ops, s.nextSeq);
      var len := |EncodeAll(crc, rs)|;
      OpenLog(crc, TornSegments(crc, max, s, rs, if cut < len then cut else len))
  }

  function RunLog(crc: Checksum, max: nat, events: seq<Event>): Option<LogState> {
    if events == [] then OpenLog(crc, [])
    else
      var s := RunLog(crc, max, events[..|events| - 1]);
      if s.None? then None else After(crc, max, s.value, events[|events| - 1])
  }

  /** How many ops of each event stuck: all of an acknowledged batch, some prefix of an interrupted one. */
  predicate Legal(events: seq<Event>, kept: seq<nat>) {
    && |kept| == |events|
    && forall i :: 0 <= i < |events| ==>
         kept[i] <= |events[i].ops| && (events[i].Appended? ==> kept[i] == |events[i].ops|)
  }

  function Applied(events: seq<Event>, kept: seq<nat>): seq<LogOp>
    requires Legal(events, kept)
  {
    if events == [] then []
    else
      var last := |events| - 1;
      Applied(events[..last], kept[..last]) + events[last].ops[..kept[last]]
  }

  ghost predicate OpFits(op: LogOp) {
    |op.key| < 0x1_0000_0000 && (op.PutOp? ==> |op.value| < 0x1_0000_0000)
  }

  function OpCount(events: seq<Event>): nat {
    if events == [] then 0 else OpCount(events[..|events| - 1]) + |events[|events| - 1].ops|
  }

  lemma {:induction false} AppliedCount(events: seq<Event>, kept: seq<nat>)
    requires Legal(events, kept)
    ensures |Applied(events, kept)| <= OpCount(events)
  {
    if events != [] {
      var last := |events| - 1;
      AppliedCount(events[..last], kept[..last]);
    }
  }

  lemma StampFits(ops: seq<LogOp>, first: nat)
    requires (forall i :: 0 <= i < |ops| ==> OpFits(ops[i])) && first + |ops| <= 0x1_0000_0000_0000_0000
    ensures AllFit(Stamp(ops, first))
  {
    hide Stamp;
    forall r | r in Stamp(ops, first) ensures Fits(r) {
      var i :| 0 <= i < |ops| && Stamp(ops, first)[i] == r;
      StampAt(ops, first, i);
    }
  }

  lemma LogOkNext(crc: Checksum, s: LogState)
    requires LogOk(crc, s)
    ensures s.nextSeq == NextSeq(Replay(crc, SegmentsOf(s)))
  {
  }

  lemma NextSeqOfStamp(ops: seq<LogOp>)
    ensures NextSeq(Stamp(ops, 0)) == |ops| && Increasing(Stamp(ops, 0))
  {
    hide Stamp;
    StampContinues([], ops);
    assert NextSeq([]) == 0;
    assert [] + Stamp(ops, 0) == Stamp(ops, 0);
  }

  lemma StartsEmpty(crc: Checksum)
    ensures OpenLog(crc, []) == Some(LogState([], [], 0)) && LogOk(crc, LogState([], [], 0))
    ensures Replay(crc, SegmentsOf(LogState([], [], 0))) == [] == Stamp([], 0)
  {
    hide Parse;
    ReplayOne(crc, []);
    EmptySegment(crc);
    assert SegmentsOf(LogState([], [], 0)) == [[]];
  }

  lemma EventKeeps(crc: Checksum, max: nat, s: LogState, e: Event) returns (n: nat)
    requires LogOk(crc, s) && AllFit(Stamp(e.ops, s.nextSeq))
    ensures n <= |e.ops| && (e.Appended? ==> n == |e.ops|) && After(crc, max, s, e).Some?
    ensures var s' := After(crc, max, s, e).value;
            LogOk(crc, s') && Replay(crc, SegmentsOf(s')) == Replay(crc, SegmentsOf(s)) + Stamp(e.ops[..n], s.nextSeq)
  {
    hide Parse, EncodeAll, Stamp, NextSeq, Increasing, OpenLog, Append, LogOk;
    match e {
      case Appended(ops) =>
        AppendOk(crc, max, s, ops);
        n := |ops|;
        assert ops[..n] == ops;
      case Crashed(ops, cut) =>
        var len := |EncodeAll(crc, Stamp(ops, s.nextSeq))|;
        n := OpenAfterCut(crc, max, s, ops, if cut < len then cut else len);
    }
  }

  /** A batch replays like the same ops appended one batch after another. */
  lemma BatchEqualsParts(crc: Checksum, max: nat, s: LogState, a: seq<LogOp>, b: seq<LogOp>)
    requires LogOk(crc, s) && AllFit(Stamp(a + b, s.nextSeq))
    ensures var whole, parts := Append(crc, max, s, a + b), Append(crc, max, Append(crc, max, s, a), b);
            whole.nextSeq == parts.nextSeq && Replay(crc, SegmentsOf(whole)) == Replay(crc, SegmentsOf(parts))
  {
    hide Parse, EncodeAll, Stamp, NextSeq, Increasing, LogOk, AppendRecords;
    StampAppend(a, b, s.nextSeq);
    var sa, sb := Stamp(a, s.nextSeq), Stamp(b, s.nextSeq + |a|);
    assert AllFit(sa) && AllFit(sb) by {
      assert forall r :: r in sa || r in sb ==> r in sa + sb;
    }
    AppendOk(crc, max, s, a + b);
    AppendOk(crc, max, s, a);
    AppendOk(crc, max, Append(crc, max, s, a), b);
  }

  // ---------------------------------------------------------------------------
  // Segment sizes

  function Concat(batches: seq<Bytes>): Bytes {
    if batches == [] then [] else Concat(batches[..|batches| - 1]) + batches[|batches| - 1]
  }

  /** Each segment is the concatenation of its non-empty batches, and within the limit unless it
      holds exactly one. */
  ghost predicate Layout(max: nat, segs: seq<Bytes>, batches: seq<seq<Bytes>>) {
    && |batches| == |segs|
    && forall i :: 0 <= i < |segs| ==>
         && Concat(batches[i]) == segs[i] && [] !in batches[i]
         && (|segs[i]| <= max || |batches[i]| == 1)
  }

  /** From `s` to these sealed segments either nothing was sealed, or one segment that was not empty and
      had no room for the incoming bytes. */
  ghost predicate SealsLate(max: nat, s: LogState, sealed: seq<Bytes>, incoming: nat) {
    if s.active != [] && |s.active| + incoming > max then sealed == s.sealed + [s.active] else sealed == s.sealed
  }

  /** The batches of all segments, in order. */
  ghost function Joined(batches: seq<seq<Bytes>>): seq<Bytes> {
    if batches == [] then [] else Joined(batches[..|batches| - 1]) + batches[|batches| - 1]
  }

  /** A batch, unless it wrote nothing. */
  ghost function NonEmpty(bytes: Bytes): seq<Bytes> {
    if bytes == [] then [] else [bytes]
  }

  /** Sealing the active segment moves no batch, and leaves room for the incoming one. A segment that is
      empty or has room for it is not sealed. */
  lemma RollOverLayout(max: nat, s: LogState, incoming: nat, batches: seq<seq<Bytes>>)
    returns (batches': seq<seq<Bytes>>)
    requires Layout(max, SegmentsOf(s), batches)
    ensures Layout(max, SegmentsOf(RollOver(max, s, incoming)), batches') && Joined(batches') == Joined(batches)
    ensures var a := RollOver(max, s, incoming).active; a == [] || |a| + incoming <= max
    ensures SealsLate(max, s, RollOver(max, s, incoming).sealed, incoming)
  {
    var s' := RollOver(max, s, incoming);
    if s' == s {
      batches' := batches;
    } else {
      batches' := batches + [[]];
      assert batches'[..|batches|] == batches;
      assert SegmentsOf(s') == SegmentsOf(s) + [[]];
    }
  }

  /** Adding one batch to the active segment, if it is empty or the batch fits the limit. */
  lemma AddBatchLayout(max: nat, s: LogState, bytes: Bytes, batches: seq<seq<Bytes>>)
    returns (batches': seq<seq<Bytes>>)
    requires Layout(max, SegmentsOf(s), batches) && (s.active == [] || |s.active| + |bytes| <= max)
    ensures Layout(max, s.sealed + [s.active + bytes], batches')
    ensures Joined(batches') == Joined(batches) + NonEmpty(bytes)
  {
    var last := |s.sealed|;
    var mine := batches[last];
    assert SegmentsOf(s)[last] == s.active == Concat(mine);
    if bytes == [] {
      batches' := batches;
      assert s.active + bytes == s.active;
    } else {
      if s.active == [] {
        ConcatEmpty(mine);
      }
      var mine' := mine + [bytes];
      assert mine'[..|mine|] == mine;
      batches' := batches[last := mine'];
      assert batches'[..last] == batches[..last];
      assert s.sealed + [s.active + bytes] == SegmentsOf(s)[last := s.active + bytes];
    }
  }

  /** A completed append adds its bytes as one batch. */
  lemma AppendLayout(crc: Checksum, max: nat, s: LogState, rs: seq<Record>, batches: seq<seq<Bytes>>)
    returns (batches': seq<seq<Bytes>>)
    requires Layout(max, SegmentsOf(s), batches)
    ensures Layout(max, SegmentsOf(AppendRecords(crc, max, s, rs)), batches')
    ensures Joined(batches') == Joined(batches) + NonEmpty(EncodeAll(crc, rs))
    ensures SealsLate(max, s, AppendRecords(crc, max, s, rs).sealed, |EncodeAll(crc, rs)|)
  {
    hide EncodeAll, Layout, Joined, SealsLate;
    var bytes := EncodeAll(crc, rs);
    batches' := RollOverLayout(max, s, |bytes|, batches);
    batches' := AddBatchLayout(max, RollOver(max, s, |bytes|), bytes, batches');
  }

  /** Opening what a crash inside an append left adds the surviving prefix as one batch. */
  lemma CrashLayout(crc: Checksum, max: nat, s: LogState, rs: seq<Record>, cut: nat, batches: seq<seq<Bytes>>)
    returns (n: nat, batches': seq<seq<Bytes>>)
    requires LogOk(crc, s) && Layout(max, SegmentsOf(s), batches) && AllFit(rs) && cut <= |EncodeAll(crc, rs)|
    ensures n <= |rs| && Joined(batches') == Joined(batches) + NonEmpty(EncodeAll(crc, rs[..n]))
    ensures var o := OpenLog(crc, TornSegments(crc, max, s, rs, cut));
            && o.Some? && Layout(max, SegmentsOf(o.value), batches')
            && Replay(crc, SegmentsOf(o.value)) == Replay(crc, SegmentsOf(s)) + rs[..n]
            && SealsLate(max, s, o.value.sealed, |EncodeAll(crc, rs)|)
  {
    hide EncodeAll, Layout, Joined, Parse, NextSeq, Replay, LogOk, RollOver, NonEmpty, SealsLate;
    var bytes := EncodeAll(crc, rs);
    var s1 := RollOver(max, s, |bytes|);
    RollOverKeeps(crc, max, s, |bytes|);
    batches' := RollOverLayout(max, s, |bytes|, batches);
    n := OpenCut(crc, s1, rs, cut);
    batches' := AddBatchLayout(max, s1, EncodeAll(crc, rs[..n]), batches');
  }

  /** The bytes each event of a run left in the log, event by event: the encoding of the ops that stuck,
      under the sequence numbers they were given. Events that left nothing are skipped. */
  ghost function Stuck(crc: Checksum, events: seq<Event>, kept: seq<nat>): seq<Bytes>
    requires Legal(events, kept)
  {
    if events == [] then []
    else
      var last := |events| - 1;
      var before, ops := Applied(events[..last], kept[..last]), events[last].ops[..kept[last]];
      Stuck(crc, events[..last], kept[..last]) + NonEmpty(EncodeAll(crc, Stamp(ops, |before|)))
  }

  /** The bytes event `j` of a run set out to write. */
  ghost function Intended(crc: Checksum, events: seq<Event>, kept: seq<nat>, j: nat): Bytes
    requires Legal(events, kept) && j < |events|
  {
    EncodeAll(crc, Stamp(events[j].ops, |Applied(events[..j], kept[..j])|))
  }

  /** Each sealed segment holds something, and was sealed for an event whose bytes it had no room for. */
  ghost predicate SealedForCause(crc: Checksum, max: nat, sealed: seq<Bytes>, events: seq<Event>, kept: seq<nat>) {
    && Legal(events, kept) && [] !in sealed
    && forall i :: 0 <= i < |sealed| ==>
         exists j :: 0 <= j < |events| && |sealed[i]| + |Intended(crc, events, kept, j)| > max
  }

  lemma IntendedGrows(crc: Checksum, events: seq<Event>, kept: seq<nat>, j: nat)
    requires Legal(events, kept) && j + 1 < |events|
    ensures var n := |events| - 1;
            Legal(events[..n], kept[..n]) && Intended(crc, events[..n], kept[..n], j) == Intended(crc, events, kept, j)
  {
    hide EncodeAll, Stamp, Applied;
    var n := |events| - 1;
    assert events[..n][..j] == events[..j] && kept[..n][..j] == kept[..j];
  }

  lemma CausesGrow(crc: Checksum, max: nat, s: LogState, sealed: seq<Bytes>, events: seq<Event>, kept: seq<nat>)
    requires events != [] && Legal(events, kept)
    requires var n := |events| - 1; SealedForCause(crc, max, s.sealed, events[..n], kept[..n])
    requires SealsLate(max, s, sealed, |Intended(crc, events, kept, |events| - 1)|)
    ensures SealedForCause(crc, max, sealed, events, kept)
  {
    hide EncodeAll, Stamp, Applied, Intended;
    var n := |events| - 1;
    forall i | 0 <= i < |sealed|
      ensures sealed[i] != [] && exists j :: 0 <= j < |events| && |sealed[i]| + |Intended(crc, events, kept, j)| > max
    {
      if i < |s.sealed| {
        assert sealed[i] == s.sealed[i];
        var j :| 0 <= j < n && |s.sealed[i]| + |Intended(crc, events[..n], kept[..n], j)| > max;
        IntendedGrows(crc, events, kept, j);
      }
    }
  }

  lemma EventLayout(crc: Checksum, max: nat, s: LogState, e: Event, batches: seq<seq<Bytes>>)
    returns (n: nat, batches': seq<seq<Bytes>>)
    requires LogOk(crc, s) && AllFit(Stamp(e.ops, s.nextSeq)) && Layout(max, SegmentsOf(s), batches)
    ensures n <= |e.ops| && (e.Appended? ==> n == |e.ops|) && After(crc, max, s, e).Some?
    ensures var s' := After(crc, max, s, e).value;
            && LogOk(crc, s')
            && Replay(crc, SegmentsOf(s')) == Replay(crc, SegmentsOf(s)) + Stamp(e.ops[..n], s.nextSeq)
            && Layout(max, SegmentsOf(s'), batches')
    ensures Joined(batches') == Joined(batches) + NonEmpty(EncodeAll(crc, Stamp(e.ops[..n], s.nextSeq)))
    ensures SealsLate(max, s, After(crc, max, s, e).value.sealed, |EncodeAll(crc, Stamp(e.ops, s.nextSeq))|)
  {
    hide EncodeAll, SealsLate, Layout, Joined, Parse, NextSeq, Replay, LogOk, NonEmpty, Stamp, OpenLog, TornSegments,
      AppendRecords;
    var rs := Stamp(e.ops, s.nextSeq);
    n := EventKeeps(crc, max, s, e);
    StampAppend(e.ops[..n], e.ops[n..], s.nextSeq);
    assert e.ops == e.ops[..n] + e.ops[n..];
    assert Stamp(e.ops[..n], s.nextSeq) == rs[..n];
    match e {
      case Appended(ops) =>
        batches' := AppendLayout(crc, max, s, rs, batches);
        assert rs[..n] == rs;
      case Crashed(_, cut) =>
        var len, m := |EncodeAll(crc, rs)|, 0;
        m, batches' := CrashLayout(crc, max, s, rs, if cut < len then cut else len, batches);
        assert |rs[..m]| == |rs[..n]|;
    }
  }

  /** Over any run of appends, rollovers, crashes and reopenings, the segments hold exactly the batches
      the events left, in order and none split, each segment is within the size limit or holds exactly
      one of them, and none was sealed that had room for the batch it was sealed for. */
  lemma {:induction false} RunLayout(crc: Checksum, max: nat, events: seq<Event>)
    returns (kept: seq<nat>, batches: seq<seq<Bytes>>)
    requires forall i, j :: 0 <= i < |events| && 0 <= j < |events[i].ops| ==> OpFits(events[i].ops[j])
    requires OpCount(events) <= 0x1_0000_0000_0000_0000
    ensures Legal(events, kept) && RunLog(crc, max, events).Some?
    ensures var s, applied := RunLog(crc, max, events).value, Applied(events, kept);
            && LogOk(crc, s) && s.nextSeq == |applied| && Replay(crc, SegmentsOf(s)) == Stamp(applied, 0)
            && Layout(max, SegmentsOf(s), batches) && Joined(batches) == Stuck(crc, events, kept)
            && SealedForCause(crc, max, s.sealed, events, kept)
  {
    hide Parse, EncodeAll, Stamp, NextSeq, OpenLog, After, LogOk, Layout, Joined, NonEmpty, Replay, SealsLate,
      SealedForCause;
    if events == [] {
      kept := [];
      batches := StartLayout(crc, max);
      StartsEmpty(crc);
      NothingSealed(crc, max);
    } else {
      var last := |events| - 1;
      var front, e := events[..last], events[last];
      var kept', batches0 := RunLayout(crc, max, front);
      var s, before := RunLog(crc, max, front).value, Applied(front, kept');
      AppliedCount(front, kept');
      StampFits(e.ops, s.nextSeq);
      var n;
      n, batches := EventLayout(crc, max, s, e, batches0);
      kept := kept' + [n];
      assert kept[..last] == kept';
      StampAppend(before, e.ops[..n], 0);
      NextSeqOfStamp(before + e.ops[..n]);
      LogOkNext(crc, RunLog(crc, max, events).value);
      CausesGrow(crc, max, s, RunLog(crc, max, events).value.sealed, events, kept);
    }
  }

  lemma NothingSealed(crc: Checksum, max: nat)
    ensures SealedForCause(crc, max, [], [], [])
  {
  }

  lemma StartLayout(crc: Checksum, max: nat) returns (batches: seq<seq<Bytes>>)
    ensures RunLog(crc, max, []).Some? && Layout(max, SegmentsOf(RunLog(crc, max, []).value), batches)
    ensures Joined(batches) == []
  {
    batches := [[]];
    assert batches[..0] == [];
    assert SegmentsOf(LogState([], [], 0)) == [[]];
  }

  lemma ConcatEmpty(batches: seq<Bytes>)
    requires Concat(batches) == [] && [] !in batches
    ensures batches == []
  {
  }

  /** So opening never fails, and replay yields the acknowledged ops, each interrupted batch cut to a
      prefix, stamped 0, 1, 2, ... */
  lemma RunHistory(crc: Checksum, max: nat, events: seq<Event>) returns (kept: seq<nat>)
    requires forall i, j :: 0 <= i < |events| && 0 <= j < |events[i].ops| ==> OpFits(events[i].ops[j])
    requires OpCount(events) <= 0x1_0000_0000_0000_0000
    ensures Legal(events, kept) && RunLog(crc, max, events).Some?
    ensures var s, applied := RunLog(crc, max, events).value, Applied(events, kept);
            && LogOk(crc, s) && s.nextSeq == |applied|
            && Replay(crc, SegmentsOf(s)) == Stamp(applied, 0) && Increasing(Stamp(applied, 0))
  {
    hide Parse, EncodeAll, Stamp, NextSeq, OpenLog, LogOk, Replay, Layout, Joined, RunLog, Applied, Stuck;
    var batches;
    kept, batches := RunLayout(crc, max, events);
    NextSeqOfStamp(Applied(events, kept));
  }

  // ---------------------------------------------------------------------------
  // Compacted logs

  /** Records written verbatim to a fresh log come back as given, from a single segment. */
  lemma VerbatimOk(crc: Checksum, max: nat, rs: seq<Record>)
    requires AllFit(rs)
    ensures var s := AppendVerbatim(crc, max, LogState([], [], 0), rs);
            && s.sealed == [] && LogOk(crc, s) && Replay(crc, SegmentsOf(s)) == rs && s.nextSeq == NextSeq(rs)
  {
    hide Parse, EncodeAll, NextSeq, Replay, Untorn;
    StartsEmpty(crc);
    var s0 := LogState([], [], 0);
    EmptyNextSeq();
    if rs != [] {
      AppendRecordsOk(crc, max, s0, rs);
      assert [] + rs == rs;
      var s1, s := AppendRecords(crc, max, s0, rs), AppendVerbatim(crc, max, s0, rs);
      assert s1.sealed == [] && SegmentsOf(s) == SegmentsOf(s1);
    }
  }

  // ---------------------------------------------------------------------------
  // The log object

  lemma {:induction false} NextSeqAppend(a: seq<Record>, b: seq<Record>)
    ensures NextSeq(a + b) == if NextSeq(a) > NextSeq(b) then NextSeq(a) else NextSeq(b)
  {
    if b == [] {
      assert a + b == a;
    } else {
      NextSeqAppend(a, b[..|b| - 1]);
      assert (a + b)[..|a + b| - 1] == a + b[..|b| - 1];
    }
  }

  /** A log without torn segments reopens to itself. */
  lemma LogReopens(crc: Checksum, s: LogState)
    requires LogOk(crc, s)
    ensures OpenLog(crc, SegmentsOf(s)) == Some(s)
  {
    hide Parse, NextSeq, Replay;
    var segs := SegmentsOf(s);
    assert segs[|segs| - 1] == s.active && segs[..|segs| - 1] == s.sealed;
    assert Untorn(crc, s.active) && s.active[..|s.active|] == s.active;
    OpenTruncates(crc, segs);
  }

  /** Opening keeps exactly the records the segments hold, and they all fit the record format. */
  lemma OpenedLog(crc: Checksum, segs: seq<Bytes>)
    requires OpenLog(crc, segs).Some?
    ensures var s := OpenLog(crc, segs).value;
            LogOk(crc, s) && Replay(crc, SegmentsOf(s)) == Replay(crc, segs) && s.nextSeq == NextSeq(Replay(crc, segs))
    ensures AllFit(Replay(crc, segs))
  {
    hide Parse, NextSeq;
    if segs == [] {
      StartsEmpty(crc);
      EmptyNextSeq();
      EmptyReplay(crc);
    } else {
      OpenTruncates(crc, segs);
    }
    ReplayFits(crc, segs);
  }

  lemma EmptyReplay(crc: Checksum)
    ensures Replay(crc, []) == []
  {
  }

  lemma {:induction false} ReplayFits(crc: Checksum, segs: seq<Bytes>)
    ensures AllFit(Replay(crc, segs))
  {
    hide Parse;
    if segs != [] {
      ReplayFits(crc, segs[..|segs| - 1]);
      ParsePrints(crc, segs[|segs| - 1]);
    }
  }

  lemma AppendNext(crc: Checksum, max: nat, s: LogState, ops: seq<LogOp>)
    ensures Append(crc, max, s, ops).nextSeq == s.nextSeq + |ops|
  {
  }

  lemma StampOne(op: LogOp, n: nat)
    ensures Stamp([op], n) == [ToRecord(op, n)]
  {
    assert [op][..0] == [];
  }

  class Log {
    const crc: Checksum
    const maxBytes: nat

    var sealed: seq<Bytes>
    var active: Bytes
    var nextSeq: nat

    function State(): LogState
      reads this
    {
      LogState(sealed, active, nextSeq)
    }

    constructor (crc: Checksum, maxBytes: nat, s: LogState)
      ensures this.crc == crc && this.maxBytes == maxBytes && State() == s
    {
      this.crc, this.maxBytes := crc, maxBytes;
      sealed, active, nextSeq := s.sealed, s.active, s.nextSeq;
    }

    /** Replays every segment and truncates a torn tail of the last one; a torn tail anywhere else
        is an error. */
    static method Open(crc: Checksum, maxBytes: nat, segs: seq<Bytes>)
      returns (log: Option<Log>, records: seq<Record>, recoveredFromTornTail: bool)
      ensures log.Some? <==> OpenLog(crc, segs).Some?
      ensures log.Some? ==> fresh(log.value) && log.value.crc == crc && log.value.maxBytes == maxBytes
      ensures log.Some? ==> log.value.State() == OpenLog(crc, segs).value && records == Replay(crc, segs)
      ensures log.Some? ==> (recoveredFromTornTail <==> segs != [] && !Untorn(crc, segs[|segs| - 1]))
    {
      hide Parse, EncodeAll, NextSeq;
      log, records, recoveredFromTornTail := None, [], false;
      var next, active := 0, [];
      assert segs[..0] == [] && NextSeq([]) == 0 by { EmptyNextSeq(); }
      for i := 0 to |segs|
        invariant records == Replay(crc, segs[..i]) && next == NextSeq(records)
        invariant forall j :: 0 <= j < i && j < |segs| - 1 ==> Untorn(crc, segs[j])
        invariant log.None? && (recoveredFromTornTail <==> i == |segs| > 0 && !Untorn(crc, segs[|segs| - 1]))
        invariant i == |segs| > 0 ==> |active| == ValidLen(crc, segs[i - 1]) && active <= segs[i - 1]
        invariant i < |segs| || i == 0 ==> active == []
      {
        var r := Recover(crc, segs[i]);
        if r.hadTornTail && i < |segs| - 1 {
          assert !Untorn(crc, segs[i]);
          return;
        }
        if r.hadTornTail {
          recoveredFromTornTail := true;
        }
        next := PastAll(next, r.records);
        NextSeqAppend(records, r.records);
        ReplaySnoc(crc, segs[..i], segs[i]);
        assert segs[..i + 1] == segs[..i] + [segs[i]];
        records := records + r.records;
        if i == |segs| - 1 {
          active := segs[i][..r.validLen];
        }
      }
      assert segs[..|segs|] == segs;
      assert segs != [] ==> active == segs[|segs| - 1][..|active|];
      var sealed := if segs == [] then [] else segs[..|segs| - 1];
      var l := new Log(crc, maxBytes, LogState(sealed, active, next));
      log := Some(l);
    }

    method RollOverIfNeeded(incoming: nat)
      modifies this
      ensures State() == RollOver(maxBytes, old(State()), incoming)
      ensures SealsLate(maxBytes, old(State()), sealed, incoming) && (active == [] || active == old(active))
    {
      if active == [] || |active| + incoming <= maxBytes {
        return;
      }
      sealed := sealed + [active];
      active := [];
    }

    /** Appends every op as its own record with one trailing sync. */
    method AppendBatch(ops: seq<LogOp>) returns (records: seq<Record>)
      modifies this
      ensures State() == Append(crc, maxBytes, old(State()), ops)
      ensures records == Stamp(ops, old(nextSeq))
    {
      hide EncodeAll;
      records := [];
      var next, total := nextSeq, 0;
      EncodeNothing(crc);
      for i := 0 to |ops|
        invariant State() == old(State()) && next == nextSeq + i
        invariant records == Stamp(ops[..i], nextSeq)
        invariant total == |EncodeAll(crc, records)|
      {
        var record := ToRecord(ops[i], next);
        EncodeAllSnoc(crc, records, record);
        total := total + EncodedLen(record);
        next := next + 1;
        records := records + [record];
        assert ops[..i + 1][..i] == ops[..i];
      }
      assert ops[..|ops|] == ops;
      assert records == Stamp(ops, nextSeq);
      RollOverIfNeeded(total);
      var file, offsets := Segments.AppendBatch(crc, active, records);
      active := file;
      nextSeq := next;
    }

    /** Writes records exactly as given, sequence numbers included. */
    method AppendRecordsVerbatim(records: seq<Record>)
      modifies this
      ensures State() == AppendVerbatim(crc, maxBytes, old(State()), records)
    {
      hide EncodeAll, NextSeq;
      if records == [] {
        return;
      }
      var total := 0;
      EncodeNothing(crc);
      for i := 0 to |records|
        invariant State() == old(State()) && total == |EncodeAll(crc, records[..i])|
      {
        EncodeAllSnoc(crc, records[..i], records[i]);
        assert records[..i + 1] == records[..i] + [records[i]];
        total := total + EncodedLen(records[i]);
      }
      assert records[..|records|] == records;
      RollOverIfNeeded(total);
      var file, offsets := Segments.AppendBatch(crc, active, records);
      active := file;
      nextSeq := PastAll(nextSeq, records);
    }
  }

  lemma EmptyNextSeq()
    ensures NextSeq([]) == 0
  {
  }

  /** The larger of `next` and one past the largest sequence number of `rs`. */
  method PastAll(next: nat, rs: seq<Record>) returns (next': nat)
    ensures next' == if NextSeq(rs) > next then NextSeq(rs) else next
  {
    next' := next;
    for i := 0 to |rs|
      invariant next' == if NextSeq(rs[..i]) > next then NextSeq(rs[..i]) else next
    {
      if rs[i].seqNo + 1 > next' {
        next' := rs[i].seqNo + 1;
      }
      assert rs[..i + 1][..i] == rs[..i];
    }
    assert rs[..|rs|] == rs;
  }
}
