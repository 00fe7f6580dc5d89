/** The compaction swap: a marker, a backup and moves between directories, resumed after crashes.
    A directory is a set of named segment files; create, rename and remove are atomic. */
module Swaps {
  import opened Bytes

  type Name = nat // the number in seg-<n>.log
  type Files = map<Name, Bytes>

  datatype Dir = Dir(main: Files, tmp: Option<Files>, backup: Option<Files>, marker: bool)

  /** Where the program stands. `Open` is the start of recovery, and also what a crash falls back to. */
  datatype Phase = Building | Open | BackingUp | Moving | DroppingTmp | DroppingBackup | DroppingMarker | Done

  datatype State = State(dir: Dir, phase: Phase)

  function FilesIn(d: Option<Files>): Files {
    if d.Some? then d.value else map[]
  }

  // ---------------------------------------------------------------------------
  // Atomic steps

  ghost predicate Build(s: State, s': State) { // any progress on the replacement log
    s.phase == Building && s'.phase == Building && exists t: Option<Files> :: s'.dir == s.dir.(tmp := t)
  }

  ghost predicate Commit(s: State, s': State, compacted: Files) { // the replacement is complete: write the marker
    s.phase == Building && s.dir.tmp == Some(compacted) && s' == State(s.dir.(marker := true), Open)
  }

  ghost predicate Discard(s: State, s': State) { // no marker: the scratch directory goes, file by file
    s.phase == Open && !s.dir.marker &&
    if FilesIn(s.dir.tmp) == map[] then s' == State(s.dir.(tmp := None), Done)
    else exists n :: n in s.dir.tmp.value && s' == s.(dir := s.dir.(tmp := Some(s.dir.tmp.value - {n})))
  }

  ghost predicate Resume(s: State, s': State) { // the marker stands: pick up the swap
    s.phase == Open && s.dir.marker &&
    s' == (if s.dir.tmp.None? && s.dir.backup.None? then State(s.dir, DroppingMarker)
           else if s.dir.backup.None? then State(s.dir.(backup := Some(map[])), BackingUp)
           else State(s.dir, Moving))
  }

  ghost predicate MoveOld(s: State, s': State) { // one old segment into the backup
    s.phase == BackingUp && s.dir.backup.Some? &&
    if s.dir.main == map[] then s' == s.(phase := Moving)
    else exists n ::
      n in s.dir.main &&
      s' == s.(dir := s.dir.(main := s.dir.main - {n}, backup := Some(s.dir.backup.value[n := s.dir.main[n]])))
  }

  ghost predicate MoveNew(s: State, s': State) { // one compacted segment into place
    s.phase == Moving &&
    if FilesIn(s.dir.tmp) == map[] then s' == s.(phase := DroppingTmp)
    else exists n ::
      n in s.dir.tmp.value &&
      s' == s.(dir := s.dir.(main := s.dir.main[n := s.dir.tmp.value[n]], tmp := Some(s.dir.tmp.value - {n})))
  }

  ghost predicate CleanUp(s: State, s': State) {
    match s.phase
    case DroppingTmp => s' == State(s.dir.(tmp := None), DroppingBackup)
    case DroppingBackup =>
      if FilesIn(s.dir.backup) == map[] then s' == State(s.dir.(backup := None), DroppingMarker)
      else exists n :: n in s.dir.backup.value && s' == s.(dir := s.dir.(backup := Some(s.dir.backup.value - {n})))
    case DroppingMarker => s' == State(s.dir.(marker := false), Done)
    case _ => false
  }

  ghost predicate Step(s: State, s': State) {
    Build(s, s') || Discard(s, s') || Resume(s, s') || MoveOld(s, s') || MoveNew(s, s') || CleanUp(s, s')
  }

  ghost predicate Crash(s: State, s': State) {
    s' == s.(phase := Open)
  }

  // ---------------------------------------------------------------------------
  // What the run is heading for

  /** The segments that opening leaves, as a function of the directory found. */
  function Outcome(d: Dir): Files {
    if !d.marker || (d.tmp.None? && d.backup.None?) then d.main
    else if d.backup.None? then FilesIn(d.tmp)
    else d.main + FilesIn(d.tmp)
  }

  /** The segments the run ends with if nothing interrupts it any more. */
  function Final(s: State): Files {
    match s.phase
    case Building => s.dir.main
    case Open => Outcome(s.dir)
    case BackingUp => FilesIn(s.dir.tmp)
    case Moving => s.dir.main + FilesIn(s.dir.tmp)
    case _ => s.dir.main
  }

  ghost predicate WellFormed(s: State) {
    match s.phase
    case Building => !s.dir.marker && s.dir.backup.None?
    case Open => s.dir.marker || s.dir.backup.None?
    case BackingUp => s.dir.marker && s.dir.tmp.Some? && s.dir.backup.Some?
    case Moving => s.dir.marker && s.dir.backup.Some?
    case DroppingTmp => s.dir.marker && FilesIn(s.dir.tmp) == map[] && s.dir.backup.Some?
    case DroppingBackup => s.dir.marker && s.dir.tmp.None? && s.dir.backup.Some?
    case DroppingMarker => s.dir.marker && s.dir.tmp.None? && s.dir.backup.None?
    case Done => !s.dir.marker && s.dir.tmp.None? && s.dir.backup.None?
  }

  /** A crash here is harmless: outside the backup loop, or with nothing left to move that the
      compacted log will not overwrite. */
  predicate Covered(s: State) {
    s.phase != BackingUp || s.dir.main.Keys <= FilesIn(s.dir.tmp).Keys
  }

  lemma StepKeepsFinal(s: State, s': State)
    requires WellFormed(s) && Step(s, s')
    ensures WellFormed(s') && Final(s') == Final(s)
  {
    if MoveNew(s, s') && FilesIn(s.dir.tmp) != map[] {
      assert s'.dir.main + s'.dir.tmp.value == s.dir.main + s.dir.tmp.value;
    } else if MoveNew(s, s') {
      assert s.dir.main + map[] == s.dir.main;
    }
  }

  /** Exactly when a crash keeps the outcome: the backup loop must not be left with an old segment
      whose name the compacted log does not reuse. */
  lemma CrashSafeIff(s: State)
    requires WellFormed(s)
    ensures Final(s.(phase := Open)) == Final(s) <==> Covered(s)
  {
    var rest, new' := s.dir.main, FilesIn(s.dir.tmp);
    if s.phase == BackingUp {
      assert (rest + new').Keys == rest.Keys + new'.Keys;
      if Covered(s) {
        assert rest + new' == new';
      }
    } else if s.phase == DroppingTmp || s.phase == DroppingBackup {
      assert rest + new' == rest;
    }
  }

  // ---------------------------------------------------------------------------
  // Whole runs

  /** One move of a run: a step, the commit, or a covered crash. */
  ghost predicate Next(s: State, s': State, compacted: Files) {
    Step(s, s') || Commit(s, s', compacted) || (Crash(s, s') && Covered(s))
  }

  /** A run of a compaction that builds `compacted`, interrupted and reopened any number of times. */
  ghost predicate Run(tr: seq<State>, compacted: Files) {
    tr != [] && forall i :: 0 <= i < |tr| - 1 ==> Next(tr[i], tr[i + 1], compacted)
  }

  /** The marker was written at some point of the run. */
  ghost predicate Committed(tr: seq<State>, compacted: Files) {
    exists i :: 0 <= i < |tr| - 1 && Commit(tr[i], tr[i + 1], compacted)
  }

  /** The store directory a compaction starts from. */
  function Start(old': Files): State {
    State(Dir(old', None, None, false), Building)
  }

  /** The state is sound and heads for the old log or, once committed, for the compacted one. */
  ghost predicate Heading(s: State, old': Files, compacted: Files, committed: bool) {
    && WellFormed(s) && Final(s) == (if committed then compacted else old')
    && (s.phase == Building ==> !committed)
  }

  lemma NextKeepsHeading(s: State, s': State, old': Files, compacted: Files, committed: bool)
    requires Heading(s, old', compacted, committed) && Next(s, s', compacted)
    ensures Heading(s', old', compacted, committed || Commit(s, s', compacted))
  {
    if Step(s, s') {
      StepKeepsFinal(s, s');
    } else if Crash(s, s') && Covered(s) {
      CrashSafeIff(s);
    }
  }

  lemma CommittedSnoc(tr: seq<State>, compacted: Files)
    requires |tr| > 1
    ensures var n := |tr| - 1;
            Committed(tr, compacted) <==> Committed(tr[..n], compacted) || Commit(tr[n - 1], tr[n], compacted)
  {
    hide Commit;
    var n := |tr| - 1;
    var front := tr[..n];
    if Committed(front, compacted) {
      var i :| 0 <= i < |front| - 1 && Commit(front[i], front[i + 1], compacted);
      assert front[i] == tr[i] && front[i + 1] == tr[i + 1];
    }
    if Committed(tr, compacted) && !Commit(tr[n - 1], tr[n], compacted) {
      var i :| 0 <= i < |tr| - 1 && Commit(tr[i], tr[i + 1], compacted);
      assert i + 1 < n;
      assert front[i] == tr[i] && front[i + 1] == tr[i + 1];
    }
  }

  lemma {:induction false} RunInvariant(tr: seq<State>, old': Files, compacted: Files)
    requires Run(tr, compacted) && tr[0] == Start(old')
    ensures Heading(tr[|tr| - 1], old', compacted, Committed(tr, compacted))
    decreases |tr|
  {
    hide Next, Commit;
    var n := |tr| - 1;
    if n > 0 {
      assert Run(tr[..n], compacted);
      RunInvariant(tr[..n], old', compacted);
      assert Next(tr[n - 1], tr[n], compacted);
      NextKeepsHeading(tr[n - 1], tr[n], old', compacted, Committed(tr[..n], compacted));
      CommittedSnoc(tr, compacted);
    }
  }

  /** Whenever a reopening completes, the store holds exactly the old log if the marker was never
      written and exactly the compacted log otherwise, with nothing else left behind. */
  lemma SwapIsAtomic(tr: seq<State>, old': Files, compacted: Files)
    requires Run(tr, compacted) && tr[0] == Start(old') && tr[|tr| - 1].phase == Done
    ensures tr[|tr| - 1].dir == Dir(if Committed(tr, compacted) then compacted else old', None, None, false)
  {
    RunInvariant(tr, old', compacted);
  }

  /** When the compacted log reuses the name of every old segment, as it does for a log of one
      segment, no crash is uncovered. */
  ghost predicate Overwriting(s: State, old': Files, compacted: Files) {
    && (s.phase == Building ==> s.dir.main == old')
    && ((s.phase == Open && s.dir.marker && s.dir.backup.None? && s.dir.tmp.Some?) || s.phase == BackingUp ==>
          s.dir.main.Keys <= old'.Keys && s.dir.tmp == Some(compacted))
  }

  lemma OverwritingKept(s: State, s': State, old': Files, compacted: Files)
    requires WellFormed(s) && Overwriting(s, old', compacted) && old'.Keys <= compacted.Keys
    requires Step(s, s') || Commit(s, s', compacted) || Crash(s, s')
    ensures Next(s, s', compacted) && Overwriting(s', old', compacted) && WellFormed(s')
  {
    if Step(s, s') {
      StepKeepsFinal(s, s');
    }
  }

  /** For a one-segment log, then, crashes may strike anywhere. */
  lemma {:induction false} OneSegmentNeedsNoCare(tr: seq<State>, old': Files, compacted: Files)
    requires tr != [] && tr[0] == Start(old') && old'.Keys <= compacted.Keys
    requires forall i :: 0 <= i < |tr| - 1 ==>
               Step(tr[i], tr[i + 1]) || Commit(tr[i], tr[i + 1], compacted) || Crash(tr[i], tr[i + 1])
    ensures Run(tr, compacted) && WellFormed(tr[|tr| - 1]) && Overwriting(tr[|tr| - 1], old', compacted)
    decreases |tr|
  {
    hide Step, Commit, Crash, Next;
    var n := |tr| - 1;
    if n > 0 {
      OneSegmentNeedsNoCare(tr[..n], old', compacted);
      assert tr[..n][n - 1] == tr[n - 1];
      OverwritingKept(tr[n - 1], tr[n], old', compacted);
      forall i | 0 <= i < n ensures Next(tr[i], tr[i + 1], compacted) {
        if i < n - 1 {
          assert Next(tr[..n][i], tr[..n][i + 1], compacted);
        }
      }
    }
  }

  /** Without that, a crash right after the backup directory appears makes a mix: the leftover old
      segment survives next to the compacted ones, and the store is neither log. */
  lemma CrashInBackupMixes(old': Files, compacted: Files, left: Name, changed: Name)
    requires left in old' && left !in compacted
    requires changed in compacted && (changed !in old' || old'[changed] != compacted[changed])
    ensures var s := State(Dir(old', Some(compacted), Some(map[]), true), BackingUp);
            && Resume(State(Dir(old', Some(compacted), None, true), Open), s)
            && !Covered(s) && WellFormed(s)
            && var mixed := Final(s.(phase := Open));
               mixed != old' && mixed != compacted && left in mixed && mixed[left] == old'[left]
               && changed in mixed && mixed[changed] == compacted[changed]
  {
    assert left in (old' + compacted).Keys;
  }

  /** A run with crashes anywhere. */
  ghost predicate AnyRun(tr: seq<State>, old': Files, compacted: Files) {
    && tr != [] && tr[0] == Start(old')
    && forall i :: 0 <= i < |tr| - 1 ==>
         Step(tr[i], tr[i + 1]) || Commit(tr[i], tr[i + 1], compacted) || Crash(tr[i], tr[i + 1])
  }

  /** What can be checked before the swap starts: every point of every run is covered exactly if the
      compacted log reuses the name of every old segment. */
  lemma AlwaysCoveredIff(old': Files, compacted: Files)
    ensures (forall tr: seq<State> :: AnyRun(tr, old', compacted) ==> Covered(tr[|tr| - 1])) <==>
            old'.Keys <= compacted.Keys
  {
    if old'.Keys <= compacted.Keys {
      forall tr: seq<State> | AnyRun(tr, old', compacted) ensures Covered(tr[|tr| - 1]) {
        OneSegmentNeedsNoCare(tr, old', compacted);
      }
    } else {
      var tr := UncoveredRun(old', compacted);
    }
  }

  /** The run that builds the compacted log, commits, and has just made the backup directory. */
  lemma UncoveredRun(old': Files, compacted: Files) returns (tr: seq<State>)
    ensures AnyRun(tr, old', compacted) && Committed(tr, compacted)
    ensures tr[|tr| - 1] == State(Dir(old', Some(compacted), Some(map[]), true), BackingUp)
    ensures WellFormed(tr[|tr| - 1])
    ensures !(old'.Keys <= compacted.Keys) ==> !Covered(tr[|tr| - 1])
  {
    var built := State(Dir(old', Some(compacted), None, false), Building);
    var ready := State(Dir(old', Some(compacted), None, true), Open);
    var moving := State(Dir(old', Some(compacted), Some(map[]), true), BackingUp);
    tr := [Start(old'), built, ready, moving];
    assert built.dir == Start(old').dir.(tmp := Some(compacted));
    assert Build(Start(old'), built) && Commit(built, ready, compacted) && Resume(ready, moving);
    assert tr[1] == built && tr[2] == ready;
  }

  /** How far a phase is from the end. */
  function Rank(p: Phase): nat {
    match p
    case Building => 7
    case Open => 6
    case BackingUp => 5
    case Moving => 4
    case DroppingTmp => 3
    case DroppingBackup => 2
    case DroppingMarker => 1
    case Done => 0
  }

  /** The files the phase still has to deal with. */
  function FilesLeft(s: State): nat {
    match s.phase
    case BackingUp => |s.dir.main|
    case DroppingBackup => |FilesIn(s.dir.backup)|
    case _ => |FilesIn(s.dir.tmp)|
  }

  /** Recovery is never stuck, and each step brings it closer to its end. */
  lemma StepsOn(s: State) returns (s': State)
    requires WellFormed(s) && s.phase != Building && s.phase != Done
    ensures Step(s, s') && s'.phase != Building
    ensures Rank(s'.phase) < Rank(s.phase) || (s'.phase == s.phase && FilesLeft(s') < FilesLeft(s))
  {
    var d := s.dir;
    match s.phase {
      case Open =>
        if d.marker {
          s' := if d.tmp.None? && d.backup.None? then State(d, DroppingMarker)
                else if d.backup.None? then State(d.(backup := Some(map[])), BackingUp) else State(d, Moving);
          assert Resume(s, s');
        } else if FilesIn(d.tmp) == map[] {
          s' := State(d.(tmp := None), Done);
          assert Discard(s, s');
        } else {
          var n :| n in d.tmp.value;
          s' := s.(dir := d.(tmp := Some(d.tmp.value - {n})));
          assert Discard(s, s');
        }
      case BackingUp =>
        if d.main == map[] {
          s' := s.(phase := Moving);
        } else {
          var n :| n in d.main;
          s' := s.(dir := d.(main := d.main - {n}, backup := Some(d.backup.value[n := d.main[n]])));
        }
        assert MoveOld(s, s');
      case Moving =>
        if FilesIn(d.tmp) == map[] {
          s' := s.(phase := DroppingTmp);
        } else {
          var n :| n in d.tmp.value;
          s' := s.(dir := d.(main := d.main[n := d.tmp.value[n]], tmp := Some(d.tmp.value - {n})));
        }
        assert MoveNew(s, s');
      case DroppingTmp =>
        s' := State(d.(tmp := None), DroppingBackup);
      case DroppingBackup =>
        if FilesIn(d.backup) == map[] {
          s' := State(d.(backup := None), DroppingMarker);
        } else {
          var n :| n in d.backup.value;
          s' := s.(dir := d.(backup := Some(d.backup.value - {n})));
        }
        assert CleanUp(s, s');
      case DroppingMarker =>
        s' := State(d.(marker := false), Done);
    }
  }

  /** Left alone, recovery completes, and ends where it was heading. */
  lemma {:induction false} Finishes(s: State) returns (tr: seq<State>)
    requires WellFormed(s) && s.phase != Building
    ensures Path(tr) && tr[0] == s && tr[|tr| - 1].phase == Done
    ensures WellFormed(tr[|tr| - 1]) && Final(tr[|tr| - 1]) == Final(s)
    decreases Rank(s.phase), FilesLeft(s)
  {
    hide Step, FilesLeft, WellFormed, Final;
    if s.phase == Done {
      tr := [s];
    } else {
      var s' := StepsOn(s);
      StepKeepsFinal(s, s');
      var rest := Finishes(s');
      tr := [s] + rest;
      assert forall i :: 0 < i < |tr| ==> tr[i] == rest[i - 1];
    }
  }

  /** A run may crash, reopen and complete. */
  lemma CrashedRun(tr: seq<State>, rest: seq<State>, old': Files, compacted: Files)
    requires AnyRun(tr, old', compacted) && Committed(tr, compacted)
    requires Path(rest) && Crash(tr[|tr| - 1], rest[0])
    ensures AnyRun(tr + rest, old', compacted) && Committed(tr + rest, compacted)
  {
    hide Step, Commit, Crash;
    var all := tr + rest;
    var i :| 0 <= i < |tr| - 1 && Commit(tr[i], tr[i + 1], compacted);
    assert all[i] == tr[i] && all[i + 1] == tr[i + 1];
    forall j | 0 <= j < |all| - 1
      ensures Step(all[j], all[j + 1]) || Commit(all[j], all[j + 1], compacted) || Crash(all[j], all[j + 1])
    {
      if j < |tr| - 1 {
        assert all[j] == tr[j] && all[j + 1] == tr[j + 1];
      } else if j >= |tr| {
        assert all[j] == rest[j - |tr|] && all[j + 1] == rest[j - |tr| + 1];
      }
    }
  }

  lemma AnyRunSnoc(tr: seq<State>, s: State, old': Files, compacted: Files)
    requires AnyRun(tr, old', compacted) && Committed(tr, compacted) && Step(tr[|tr| - 1], s)
    ensures AnyRun(tr + [s], old', compacted) && Committed(tr + [s], compacted)
  {
    hide Step, Commit, Crash;
    var all := tr + [s];
    var i :| 0 <= i < |tr| - 1 && Commit(tr[i], tr[i + 1], compacted);
    assert all[i] == tr[i] && all[i + 1] == tr[i + 1];
    assert forall j :: 0 <= j < |tr| ==> all[j] == tr[j];
  }

  /** The backup loop when it has moved just these segments. */
  lemma {:induction false} LeftBehindRun(old': Files, compacted: Files, moved: set<Name>) returns (tr: seq<State>)
    requires moved <= old'.Keys
    ensures AnyRun(tr, old', compacted) && Committed(tr, compacted) && tr[|tr| - 1].phase == BackingUp
    ensures tr[|tr| - 1].dir.main == old' - moved && tr[|tr| - 1].dir.tmp == Some(compacted)
    ensures WellFormed(tr[|tr| - 1])
    decreases |moved|
  {
    hide AnyRun, Committed, Step, WellFormed;
    if moved == {} {
      tr := UncoveredRun(old', compacted);
      assert old' - {} == old';
    } else {
      var n :| n in moved;
      var front := LeftBehindRun(old', compacted, moved - {n});
      AnyRunNonEmpty(front, old', compacted);
      assert n in old'.Keys;
      assert n in front[|front| - 1].dir.main;
      var s' := BacksUpOne(front[|front| - 1], n);
      AnyRunSnoc(front, s', old', compacted);
      tr := front + [s'];
      assert tr[|tr| - 1] == s';
      DropsOne(old', moved, n);
    }
  }

  lemma DropsOne(files: Files, moved: set<Name>, n: Name)
    requires n in moved
    ensures files - (moved - {n}) - {n} == files - moved
  {
  }

  lemma BacksUpOne(s: State, n: Name) returns (s': State)
    requires WellFormed(s) && s.phase == BackingUp && n in s.dir.main
    ensures Step(s, s') && WellFormed(s') && s'.phase == BackingUp
    ensures s'.dir.main == s.dir.main - {n} && s'.dir.tmp == s.dir.tmp
  {
    hide Build, Discard, Resume, MoveNew, CleanUp;
    var backup := Some(s.dir.backup.value[n := s.dir.main[n]]);
    s' := s.(dir := s.dir.(main := s.dir.main - {n}, backup := backup));
    assert MoveOld(s, s');
  }

  /** What a completed run leaves if the swap did its job. */
  ghost predicate Settled(tr: seq<State>, old': Files, compacted: Files)
    requires tr != []
  {
    tr[|tr| - 1].dir == Dir(if Committed(tr, compacted) then compacted else old', None, None, false)
  }

  /** In terms of what a reopening finds: whatever crashes there were, every completed run holds exactly
      the old or exactly the compacted log, if and only if the compacted log reuses every old name. */
  lemma AlwaysAtomicIff(old': Files, compacted: Files)
    ensures (forall tr: seq<State> :: AnyRun(tr, old', compacted) && tr[|tr| - 1].phase == Done ==>
              Settled(tr, old', compacted)) <==> old'.Keys <= compacted.Keys
  {
    hide Committed;
    if old'.Keys <= compacted.Keys {
      forall tr: seq<State> | AnyRun(tr, old', compacted) && tr[|tr| - 1].phase == Done
        ensures Settled(tr, old', compacted)
      {
        OneSegmentNeedsNoCare(tr, old', compacted);
        SwapIsAtomic(tr, old', compacted);
      }
    } else {
      var left :| left in old'.Keys && left !in compacted.Keys;
      var tr := MixedRun(old', compacted, {left});
      assert left in tr[|tr| - 1].dir.main.Keys;
    }
  }

  /** After such a crash the completed run holds the segments left behind next to the compacted ones. */
  lemma MixedRun(old': Files, compacted: Files, left: set<Name>) returns (tr: seq<State>)
    requires left <= old'.Keys
    ensures AnyRun(tr, old', compacted) && Committed(tr, compacted) && tr[|tr| - 1].phase == Done
    ensures tr[|tr| - 1].dir.main == (old' - (old'.Keys - left)) + compacted
  {
    hide AnyRun, Committed, Path;
    var before := LeftBehindRun(old', compacted, old'.Keys - left);
    AnyRunNonEmpty(before, old', compacted);
    var crashed := before[|before| - 1].(phase := Open);
    var rest := Finishes(crashed);
    CrashedRun(before, rest, old', compacted);
    tr := before + rest;
    PathNonEmpty(rest);
    assert tr[|tr| - 1] == rest[|rest| - 1];
  }

  lemma AnyRunNonEmpty(tr: seq<State>, old': Files, compacted: Files)
    requires AnyRun(tr, old', compacted)
    ensures tr != []
  {
  }

  lemma PathNonEmpty(tr: seq<State>)
    requires Path(tr)
    ensures tr != []
  {
  }

  // ---------------------------------------------------------------------------
  // The order of the cleanup

  datatype Item = Scratch | Backup | Marker

  function Removed(d: Dir, item: Item): Dir {
    match item
    case Scratch => d.(tmp := None)
    case Backup => d.(backup := None)
    case Marker => d.(marker := false)
  }

  function AllRemoved(d: Dir, items: seq<Item>): Dir {
    if items == [] then d else Removed(AllRemoved(d, items[..|items| - 1]), items[|items| - 1])
  }

  /** What opening makes of a directory: with the marker it finishes the swap, without it only the
      scratch directory goes. */
  function Recovered(d: Dir): Dir {
    if d.marker then Dir(Outcome(d), None, None, false) else d.(tmp := None)
  }

  /** Once every compacted segment is in place, three things are removed. A crash after any number of
      them is harmless in one order only: scratch directory, backup, marker. */
  lemma CleanUpOrderIff(old': Files, compacted: Files, order: seq<Item>)
    requires compacted != map[] && multiset(order) == multiset{Scratch, Backup, Marker}
    ensures (forall k :: 0 <= k <= |order| ==>
              Recovered(AllRemoved(Dir(compacted, Some(map[]), Some(old'), true), order[..k]))
              == Dir(compacted, None, None, false))
            <==> order == [Scratch, Backup, Marker]
  {
    var d := Dir(compacted, Some(map[]), Some(old'), true);
    assert |order| == |multiset(order)| == 3;
    var a, b, c := order[0], order[1], order[2];
    assert order == [a, b, c];
    assert multiset(order) == multiset{a, b, c};
    assert order[..0] == [] && order[..1] == [a] && order[..2] == [a, b] && order[..3] == [a, b, c];
    assert [a][..0] == [] && [a, b][..1] == [a] && [a, b, c][..2] == [a, b];
    assert compacted + map[] == compacted;
    var d1, d2 := Removed(d, a), Removed(Removed(d, a), b);
    assert AllRemoved(d, order[..1]) == d1 && AllRemoved(d, order[..2]) == d2;
    assert AllRemoved(d, order[..3]) == Removed(d2, c);
    if order == [Scratch, Backup, Marker] {
      forall k | 0 <= k <= |order|
        ensures Recovered(AllRemoved(d, order[..k])) == Dir(compacted, None, None, false)
      {
        assert k == 0 || k == 1 || k == 2 || k == 3;
      }
    } else {
      var clean := Dir(compacted, None, None, false);
      assert Recovered(d1) != clean || Recovered(d2) != clean by {
        assert Marker in multiset{a, b, c} && Scratch in multiset{a, b, c} && Backup in multiset{a, b, c};
      }
    }
  }

  // ---------------------------------------------------------------------------
  // The program

  ghost predicate Path(tr: seq<State>) {
    tr != [] && forall i :: 0 <= i < |tr| - 1 ==> Step(tr[i], tr[i + 1])
  }

  lemma PathSnoc(tr: seq<State>, s: State)
    requires Path(tr) && Step(tr[|tr| - 1], s)
    ensures Path(tr + [s])
  {
    hide Step;
  }

  lemma MovesOne(s: State, n: Name)
    requires s.phase == Moving && s.dir.tmp.Some? && n in s.dir.tmp.value
    ensures Step(s, s.(dir := s.dir.(main := s.dir.main[n := s.dir.tmp.value[n]], tmp := Some(s.dir.tmp.value - {n}))))
  {
    hide Build, Discard, Resume, MoveOld, CleanUp;
  }

  lemma MovesDone(s: State)
    requires s.phase == Moving && FilesIn(s.dir.tmp) == map[]
    ensures Step(s, s.(phase := DroppingTmp))
  {
    hide Build, Discard, Resume, MoveOld, CleanUp;
  }

  class Directory {
    var main: Files
    var tmp: Option<Files>
    var backup: Option<Files>
    var marker: bool

    ghost var phase: Phase
    /** Every state the directory has been in since recovery started. */
    ghost var trace: seq<State>

    ghost function Here(): State
      reads this
    {
      State(Dir(main, tmp, backup, marker), phase)
    }

    /** The trace leads from `first` to here, and the run is still heading where it was. */
    ghost predicate OnTrack(first: State)
      reads this
    {
      && Path(trace) && trace[0] == first && trace[|trace| - 1] == Here()
      && WellFormed(Here()) && Final(Here()) == Final(first)
    }

    constructor (d: Dir)
      requires d.marker || d.backup.None?
      ensures Here() == State(d, Open) && trace == [Here()] && OnTrack(Here())
    {
      main, tmp, backup, marker := d.main, d.tmp, d.backup, d.marker;
      phase := Open;
      trace := [State(d, Open)];
    }

    /** Notes the state just reached. */
    ghost method Reached(p: Phase, before: State, first: State)
      requires Path(trace) && trace[0] == first && trace[|trace| - 1] == before
      requires WellFormed(before) && Final(before) == Final(first)
      requires Step(before, State(Dir(main, tmp, backup, marker), p))
      modifies this`phase, this`trace
      ensures OnTrack(first) && phase == p && trace == old(trace) + [Here()]
    {
      hide Step;
      phase := p;
      StepKeepsFinal(before, Here());
      PathSnoc(trace, Here());
      trace := trace + [Here()];
    }

    /** Removes the scratch directory of a compaction that was never committed. */
    method DiscardTmp(ghost first: State)
      requires OnTrack(first) && phase == Open && !marker
      modifies this
      ensures OnTrack(first) && phase == Done
    {
      while tmp.Some? && tmp.value != map[]
        invariant OnTrack(first) && phase == Open && !marker
        decreases if tmp.Some? then |tmp.value| else 0
      {
        hide Path, Final, WellFormed;
        ghost var before := Here();
        var n :| n in tmp.value;
        tmp := Some(tmp.value - {n});
        Reached(Open, before, first);
      }
      ghost var before := Here();
      tmp := None;
      Reached(Done, before, first);
    }

    /** Moves every current segment into the backup directory. */
    method BackUpOld(ghost first: State)
      requires OnTrack(first) && phase == BackingUp
      modifies this
      ensures OnTrack(first) && phase == Moving
    {
      while main != map[]
        invariant OnTrack(first) && phase == BackingUp
        decreases |main|
      {
        hide Path, Final;
        ghost var before := Here();
        var n :| n in main;
        backup := Some(backup.value[n := main[n]]);
        main := main - {n};
        Reached(BackingUp, before, first);
      }
      Reached(Moving, Here(), first);
    }

    /** Moves every compacted segment into place. */
    method MoveIn(ghost first: State)
      requires OnTrack(first) && phase == Moving
      modifies this
      ensures OnTrack(first) && phase == DroppingTmp
    {
      hide Path, Final, WellFormed, Step;
      while tmp.Some? && tmp.value != map[]
        invariant OnTrack(first) && phase == Moving
        decreases |FilesIn(tmp)|
      {
        MoveOneIn(first);
      }
      MovesDone(Here());
      Reached(DroppingTmp, Here(), first);
    }

    method MoveOneIn(ghost first: State)
      requires OnTrack(first) && phase == Moving && tmp.Some? && tmp.value != map[]
      modifies this
      ensures OnTrack(first) && phase == Moving && |FilesIn(tmp)| < |FilesIn(old(tmp))|
    {
      hide Path, Final, WellFormed, Step;
      ghost var before := Here();
      var n :| n in tmp.value;
      MovesOne(before, n);
      main := main[n := tmp.value[n]];
      tmp := Some(tmp.value - {n});
      Reached(Moving, before, first);
    }

    /** Removes the backup directory, file by file. */
    method DropBackup(ghost first: State)
      requires OnTrack(first) && phase == DroppingBackup
      modifies this
      ensures OnTrack(first) && phase == DroppingMarker
    {
      while backup.Some? && backup.value != map[]
        invariant OnTrack(first) && phase == DroppingBackup
        decreases if backup.Some? then |backup.value| else 0
      {
        hide Path, Final, WellFormed;
        ghost var before := Here();
        var n :| n in backup.value;
        backup := Some(backup.value - {n});
        Reached(DroppingBackup, before, first);
      }
      ghost var before := Here();
      backup := None;
      Reached(DroppingMarker, before, first);
    }

    method DropMarker(ghost first: State)
      requires OnTrack(first) && phase == DroppingMarker
      modifies this
      ensures OnTrack(first) && phase == Done
    {
      ghost var before := Here();
      marker := false;
      Reached(Done, before, first);
    }

    /** Performs a committed swap: back up the old segments unless a backup exists, move the new ones
        in, then remove the scratch directory, the backup and the marker, in that order. */
    method FinishPendingCompaction(ghost first: State)
      requires OnTrack(first) && phase == Open && marker
      modifies this
      ensures OnTrack(first) && phase == Done
    {
      ghost var before := Here();
      if tmp.None? && backup.None? {
        Reached(DroppingMarker, before, first);
        DropMarker(first);
        return;
      }
      if backup.None? {
        backup := Some(map[]);
        Reached(BackingUp, before, first);
        BackUpOld(first);
      } else {
        Reached(Moving, before, first);
      }
      MoveIn(first);
      before := Here();
      tmp := None;
      Reached(DroppingBackup, before, first);
      DropBackup(first);
      DropMarker(first);
    }

    /** Finishes a committed swap, or discards an uncommitted one. Started in any directory a crash
        can leave, it ends with exactly the segments that directory stands for. Its trace is a path
        of atomic steps, so each state of it is a point where a crash may strike. */
    method FinishOrDiscard()
      requires phase == Open && trace == [Here()] && (marker || backup.None?)
      modifies this
      ensures Path(trace) && trace[0] == old(Here()) && trace[|trace| - 1] == Here() && phase == Done
      ensures Here().dir == Dir(Outcome(old(Here()).dir), None, None, false)
    {
      ghost var first := Here();
      if marker {
        FinishPendingCompaction(first);
      } else {
        DiscardTmp(first);
      }
    }
  }
}
