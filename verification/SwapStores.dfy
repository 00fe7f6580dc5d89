/** The compaction swap seen from the store: whatever crashes it meets, reopening answers as before. */
module SwapStores {
  import opened Bytes
  import opened Records
  import opened Segments
  import opened Logs
  import opened Versions
  import opened Scans
  import opened Stores
  import Swaps
  import StoreObjects

  /** The files of a log: segment `i` under name `first + i`. */
  function Named(segs: seq<Bytes>, first: nat): (files: Swaps.Files)
    ensures forall n :: n in files <==> first <= n < first + |segs|
    ensures forall n :: n in files ==> files[n] == segs[n - first]
  {
    if segs == [] then map[] else Named(segs[..|segs| - 1], first)[first + |segs| - 1 := segs[|segs| - 1]]
  }

  /** The segments a directory holds, in the order of their names. */
  function InOrder(files: Swaps.Files): seq<Bytes>
    decreases |files|
  {
    if files == map[] then []
    else
      assert exists n :: n in files;
      LeastExists(files.Keys);
      var n :| IsLeast(n, files.Keys);
      [files[n]] + InOrder(files - {n})
  }

  lemma InOrderHead(files: Swaps.Files, n: nat)
    requires IsLeast(n, files.Keys)
    ensures InOrder(files) == [files[n]] + InOrder(files - {n})
  {
    assert n in files.Keys;
    forall m: nat | IsLeast(m, files.Keys) ensures m == n {
      assert m in files.Keys;
    }
  }

  lemma NamedTail(segs: seq<Bytes>, first: nat)
    requires segs != []
    ensures Named(segs, first) - {first} == Named(segs[1..], first + 1) && IsLeast(first, Named(segs, first).Keys)
    ensures Named(segs, first)[first] == segs[0]
  {
    hide Named;
    var rest, files := Named(segs[1..], first + 1), Named(segs, first) - {first};
    assert forall n :: n in files <==> n in rest;
    assert forall n :: n in rest ==> rest[n] == segs[1..][n - (first + 1)] == segs[n - first];
    assert files == rest;
  }

  /** Listing the files of a log gives back its segments. */
  lemma {:induction false} InOrderNamed(segs: seq<Bytes>, first: nat)
    ensures InOrder(Named(segs, first)) == segs
    decreases |segs|
  {
    hide IsLeast;
    if segs != [] {
      NamedTail(segs, first);
      InOrderHead(Named(segs, first), first);
      InOrderNamed(segs[1..], first + 1);
    }
  }

  /** The files of the replacement log: the retained records in one segment. */
  ghost function Replacement(crc: Checksum, s: StoreState): Swaps.Files {
    Named([EncodeAll(crc, Compacted(s.history, Oldest(s.held)))], 0)
  }

  lemma ReplacementReplays(crc: Checksum, s: StoreState)
    requires AllFit(s.history)
    ensures Replay(crc, InOrder(Replacement(crc, s))) == Compacted(s.history, Oldest(s.held))
    ensures OpenLog(crc, InOrder(Replacement(crc, s))).Some?
  {
    hide Parse, EncodeAll, Compacted, NextSeq;
    var rs := Compacted(s.history, Oldest(s.held));
    StoreObjects.CompactedFits(s.history, Oldest(s.held));
    ParseClean(crc, rs);
    InOrderNamed([EncodeAll(crc, rs)], 0);
    ReplayOne(crc, EncodeAll(crc, rs));
    OpenTruncates(crc, [EncodeAll(crc, rs)]);
  }

  /** What opening a directory makes of the segments in it. */
  ghost function Opened(crc: Checksum, files: Swaps.Files): StoreState {
    var rs := Replay(crc, InOrder(files));
    StoreState(rs, rs, NextSeq(rs), map[])
  }

  /** A compaction of a store whose log has these files, interrupted by any number of covered crashes:
      once a reopening completes, the store it opens answers every get and scan as before the
      compaction began. */
  lemma SwapKeepsPresent(crc: Checksum, log: LogState, s: StoreState, tr: seq<Swaps.State>, prefix: Bytes)
    requires LogOk(crc, log) && Coherent(s) && AllFit(s.history) && s.durable == Replay(crc, SegmentsOf(log))
    requires tr != [] && tr[0] == Swaps.Start(Named(SegmentsOf(log), 0))
    requires Swaps.Run(tr, Replacement(crc, s)) && tr[|tr| - 1].phase == Swaps.Done
    ensures var files := tr[|tr| - 1].dir.main;
            && OpenLog(crc, InOrder(files)).Some?
            && (forall k: Bytes :: Get(Opened(crc, files), k) == Get(s, k))
            && Scan(Opened(crc, files), prefix) == Scan(s, prefix)
  {
    hide Swaps.Run, Swaps.Committed, InOrder, Named, OpenLog, Replay, Replacement, Get, Scan, NextSeq, Compacted;
    var before := Named(SegmentsOf(log), 0);
    Swaps.SwapIsAtomic(tr, before, Replacement(crc, s));
    if Swaps.Committed(tr, Replacement(crc, s)) {
      ReplacementReplays(crc, s);
      CompactionKeepsPresent(s, prefix);
    } else {
      InOrderNamed(SegmentsOf(log), 0);
      LogReopens(crc, log);
      CoherentRecoverable(s);
      ReopenRecoverable(s, prefix);
    }
  }

  /** For a log of one segment, no crash needs to be excluded. */
  lemma OneSegmentSwapCovered(crc: Checksum, log: LogState, s: StoreState)
    ensures (forall tr: seq<Swaps.State> ::
              Swaps.AnyRun(tr, Named(SegmentsOf(log), 0), Replacement(crc, s)) ==> Swaps.Covered(tr[|tr| - 1]))
            <==> log.sealed == []
  {
    hide Swaps.AnyRun, Swaps.Covered, EncodeAll, Compacted;
    var before, after := Named(SegmentsOf(log), 0), Replacement(crc, s);
    Swaps.AlwaysCoveredIff(before, after);
    assert before.Keys <= after.Keys <==> |SegmentsOf(log)| <= 1 by {
      assert |SegmentsOf(log)| > 1 ==> 1 in before && 1 !in after;
    }
  }

  /** What an uncovered crash does to the store. One key is written three times, in three segments. The
      crash leaves the middle one behind, and replay puts its value after that of the compacted log: the
      reopened store answers with a value that was overwritten. */
  lemma UncoveredCrashReadsStale(crc: Checksum, key: Bytes)
    returns (log: LogState, s: StoreState, tr: seq<Swaps.State>)
    requires |key| < 0x1_0000_0000
    ensures LogOk(crc, log) && Coherent(s) && AllFit(s.history) && s.durable == Replay(crc, SegmentsOf(log))
    ensures Swaps.AnyRun(tr, Named(SegmentsOf(log), 0), Replacement(crc, s)) && tr[|tr| - 1].phase == Swaps.Done
    ensures Get(s, key) == Some([2]) && Get(Opened(crc, tr[|tr| - 1].dir.main), key) == Some([1])
  {
    hide EncodeAll, Parse, Compacted, Swaps.AnyRun, InOrder, Named, Swaps.Committed, NextSeq;
    var rs := ThreeWrites(key);
    var segs := seq(3, i requires 0 <= i < 3 => EncodeAll(crc, [rs[i]]));
    log := LogState(segs[..2], segs[2], 3);
    s := StoreState(rs, rs, 3, map[]);
    assert SegmentsOf(log) == segs;
    ThreeSegments(crc, rs, segs);
    var new' := EncodeAll(crc, Compacted(rs, None));
    var old', after := Named(segs, 0), Replacement(crc, s);
    tr := Swaps.MixedRun(old', after, {1});
    Swaps.AnyRunNonEmpty(tr, old', after);
    var main := tr[|tr| - 1].dir.main;
    assert Oldest(s.held) == None;
    assert main == Named([new', segs[1]], 0);
    InOrderNamed([new', segs[1]], 0);
    StaleReplay(crc, rs, new', segs[1], key);
  }

  lemma ThreeWrites(key: Bytes) returns (rs: seq<Record>)
    requires |key| < 0x1_0000_0000
    ensures rs == [PutRecord(0, key, [0]), PutRecord(1, key, [1]), PutRecord(2, key, [2])]
    ensures AllFit(rs) && Increasing(rs) && NextSeq(rs) == 3 && Latest(VersionsOf(rs, key)) == Some([2])
    ensures Coherent(StoreState(rs, rs, 3, map[]))
  {
    rs := [PutRecord(0, key, [0]), PutRecord(1, key, [1]), PutRecord(2, key, [2])];
    NextSeqOf(rs);
    ReopenCoherent(StoreState(rs, rs, 3, map[]));
  }

  lemma ThreeSegments(crc: Checksum, rs: seq<Record>, segs: seq<Bytes>)
    requires AllFit(rs) && |rs| == |segs| == 3 && NextSeq(rs) == 3
    requires forall i :: 0 <= i < 3 ==> segs[i] == EncodeAll(crc, [rs[i]])
    ensures LogOk(crc, LogState(segs[..2], segs[2], 3)) && Replay(crc, segs) == rs
  {
    hide EncodeAll, Parse, NextSeq, Replay, ValidLen, Fits;
    forall i | 0 <= i < 3 ensures Parse(crc, segs[i]) == [rs[i]] && Untorn(crc, segs[i]) {
      assert rs[i] in rs;
      ParseClean(crc, [rs[i]]);
    }
    ReplayThree(crc, segs[0], segs[1], segs[2]);
    assert segs == [segs[0]] + [segs[1]] + [segs[2]] && segs[..2] + [segs[2]] == segs;
    assert rs == [rs[0]] + [rs[1]] + [rs[2]];
  }

  lemma ReplayThree(crc: Checksum, a: Bytes, b: Bytes, c: Bytes)
    ensures Replay(crc, [a] + [b] + [c]) == Parse(crc, a) + Parse(crc, b) + Parse(crc, c)
  {
    hide Parse, Replay;
    ReplayOne(crc, a);
    ReplaySnoc(crc, [a], b);
    ReplaySnoc(crc, [a] + [b], c);
  }

  lemma StaleReplay(crc: Checksum, rs: seq<Record>, new': Bytes, left: Bytes, key: Bytes)
    requires |rs| == 3 && AllFit(rs) && rs[1] == PutRecord(1, key, [1])
    requires new' == EncodeAll(crc, Compacted(rs, None)) && left == EncodeAll(crc, [rs[1]])
    ensures Latest(VersionsOf(Replay(crc, [new', left]), key)) == Some([1])
  {
    hide EncodeAll, Parse, Compacted, VersionsOf;
    var c := Compacted(rs, None);
    StoreObjects.CompactedFits(rs, None);
    ParseClean(crc, c);
    assert rs[1] in rs;
    ParseClean(crc, [rs[1]]);
    ReplayOne(crc, new');
    ReplaySnoc(crc, [new'], left);
    assert [new', left] == [new'] + [left];
    VersionsAppend(c, [rs[1]], key);
    OneRecord(rs[1], key);
  }
}
