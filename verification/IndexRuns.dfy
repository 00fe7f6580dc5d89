/** The indexed store over whole runs: appends, index updates, checkpoints, stops and reopens as atomic
    steps, what every reopening finds, and how many records it replays. */
module IndexRuns {
  import opened Bytes
  import opened Records
  import opened Logs
  import opened Stores
  import opened IndexMaps

  const U64_LIMIT: nat := 0x1_0000_0000_0000_0000

  /** Between calls; a record is in the log but not in the index; a checkpoint is due; not running. */
  datatype Phase = Idle | Logged | Due | Down

  /** `image` is the index the page store holds since the last flush, `live` the one clients read. */
  datatype State = State(log: seq<Record>, live: Index, image: Index, pending: nat, phase: Phase)

  /** The steps of a call, in the order it takes them. The store may stop between any two. */
  datatype Action = Append(op: LogOp) | Apply | Checkpoint | Stop | Reopen

  predicate Enabled(w: State, a: Action) {
    match a
    case Append(_) => w.phase == Idle && NextSeq(w.log) + 1 < U64_LIMIT
    case Apply => w.phase == Logged && w.log != []
    case Checkpoint => w.phase == Idle || w.phase == Due
    case Stop => w.phase != Down
    case Reopen => w.phase == Down
  }

  function Do(interval: nat, w: State, a: Action): State
    requires a.Apply? ==> w.log != []
  {
    match a
    case Append(op) => w.(log := w.log + [ToRecord(op, NextSeq(w.log))], phase := Logged)
    case Apply =>
      w.(live := ApplyRecord(w.live, w.log[|w.log| - 1]), pending := w.pending + 1,
         phase := if w.pending + 1 >= interval then Due else Idle)
    case Checkpoint =>
      var m := SetSentinel(w.live, NextSeq(w.log));
      State(w.log, m, m, 0, Idle)
    case Stop => w.(phase := Down)
    case Reopen =>
      var m := Reconciled(w.image, w.log);
      State(w.log, m, if Tail(w.log, Sentinel(w.image)) == [] then w.image else m, 0, Idle)
  }

  /** A whole put or delete: append, apply, and a checkpoint when one is due. */
  function Write(interval: nat, w: State, op: LogOp): State {
    var w' := Do(interval, Do(interval, w, Append(op)), Apply);
    if w'.phase == Due then Do(interval, w', Checkpoint) else w'
  }

  /** What a reopening would replay if the store stopped here. */
  function Replayed(w: State): nat {
    |Tail(w.log, Sentinel(w.image))|
  }

  // ---------------------------------------------------------------------------
  // Invariant

  /** Consecutive sequence numbers from 0: the log of an indexed store is never compacted. */
  predicate Numbered(log: seq<Record>) {
    forall i :: 0 <= i < |log| ==> log[i].seqNo == i
  }

  /** How far the index lags behind the log by design. */
  function Lag(w: State): nat {
    w.pending + if w.phase == Logged then 1 else 0
  }

  ghost predicate LiveOk(interval: nat, w: State) {
    && Sentinel(w.live) == Sentinel(w.image) && Sentinel(w.image) + Lag(w) == |w.log|
    && (w.phase == Logged ==> w.log != [] && Reflects(w.live, w.log[..|w.log| - 1]))
    && (w.phase != Logged ==> Reflects(w.live, w.log))
    && (if w.phase == Due then w.pending == interval else w.pending < interval)
  }

  ghost predicate Inv(interval: nat, w: State) {
    && Numbered(w.log) && |w.log| < U64_LIMIT
    && Sentinel(w.image) <= |w.log| <= Sentinel(w.image) + interval && Reflects(w.image, w.log[..Sentinel(w.image)])
    && (w.phase != Down ==> LiveOk(interval, w))
  }

  lemma NumberedNext(log: seq<Record>)
    requires Numbered(log)
    ensures Increasing(log) && NextSeq(log) == |log|
  {
    NextSeqOf(log);
  }

  /** With consecutive numbers, exactly the records from the sentinel on are replayed. */
  lemma NumberedTail(log: seq<Record>, from: nat)
    requires Numbered(log) && from <= |log|
    ensures |Tail(log, from)| == |log| - from
  {
    TailOf(log, from, from);
  }

  lemma ImageCaughtUp(interval: nat, w: State)
    requires Inv(interval, w)
    ensures CaughtUp(w.image, w.log, Sentinel(w.image))
  {
    hide Reflects, Sentinel;
    NumberedNext(w.log);
  }

  lemma AppendKeeps(interval: nat, w: State, op: LogOp)
    requires Inv(interval, w) && Enabled(w, Append(op))
    ensures Inv(interval, Do(interval, w, Append(op)))
  {
    hide Reflects, Sentinel, NextSeq;
    var w' := Do(interval, w, Append(op));
    NumberedNext(w.log);
    assert w'.log[..Sentinel(w.image)] == w.log[..Sentinel(w.image)] && w'.log[..|w'.log| - 1] == w.log;
  }

  lemma ApplyKeeps(interval: nat, w: State)
    requires Inv(interval, w) && Enabled(w, Apply)
    ensures Inv(interval, Do(interval, w, Apply))
  {
    hide Reflects, Sentinel, ApplyRecord;
    var front, r := w.log[..|w.log| - 1], w.log[|w.log| - 1];
    ApplyReflects(w.live, front, r);
    assert front + [r] == w.log;
  }

  lemma CheckpointKeeps(interval: nat, w: State)
    requires Inv(interval, w) && Enabled(w, Checkpoint) && interval >= 1
    ensures Inv(interval, Do(interval, w, Checkpoint))
  {
    hide Reflects, Sentinel, SetSentinel, NextSeq;
    NumberedNext(w.log);
    SentinelReflects(w.live, w.log, NextSeq(w.log));
    assert w.log[..|w.log|] == w.log;
  }

  lemma ReopenKeeps(interval: nat, w: State)
    requires Inv(interval, w) && interval >= 1
    ensures Inv(interval, Do(interval, w, Reopen))
  {
    hide Reflects, Sentinel, NextSeq, Reconciled, Tail;
    NumberedNext(w.log);
    NumberedTail(w.log, Sentinel(w.image));
    ImageCaughtUp(interval, w);
    ReconciledReflects(w.image, w.log, Sentinel(w.image));
    assert w.log[..|w.log|] == w.log;
  }

  lemma ActionKeeps(interval: nat, w: State, a: Action)
    requires Inv(interval, w) && Enabled(w, a) && interval >= 1
    ensures Inv(interval, Do(interval, w, a))
  {
    hide Reflects, Sentinel, NextSeq, Reconciled, ApplyRecord, SetSentinel;
    match a {
      case Append(op) => AppendKeeps(interval, w, op);
      case Apply => ApplyKeeps(interval, w);
      case Checkpoint => CheckpointKeeps(interval, w);
      case Stop =>
      case Reopen => ReopenKeeps(interval, w);
    }
  }

  // ---------------------------------------------------------------------------
  // Whole runs

  const START: State := State([], map[], map[], 0, Idle)

  predicate Legal(interval: nat, actions: seq<Action>)
    decreases |actions|, 0
  {
    actions == [] ||
    (Legal(interval, actions[..|actions| - 1]) &&
      Enabled(Run(interval, actions[..|actions| - 1]), actions[|actions| - 1]))
  }

  function Run(interval: nat, actions: seq<Action>): State
    requires Legal(interval, actions)
    decreases |actions|
  {
    if actions == [] then START else Do(interval, Run(interval, actions[..|actions| - 1]), actions[|actions| - 1])
  }

  /** Everything the run appended to the log. */
  function Appends(actions: seq<Action>): seq<LogOp> {
    if actions == [] then []
    else
      var ops, a := Appends(actions[..|actions| - 1]), actions[|actions| - 1];
      if a.Append? then ops + [a.op] else ops
  }

  lemma {:induction false} RunKeeps(interval: nat, actions: seq<Action>)
    requires interval >= 1 && Legal(interval, actions)
    ensures Inv(interval, Run(interval, actions)) && Run(interval, actions).log == Stamp(Appends(actions), 0)
  {
    hide Inv, Do, Stamp, Enabled;
    if actions == [] {
      StartOk(interval);
    } else {
      var front, a := actions[..|actions| - 1], actions[|actions| - 1];
      var w := Run(interval, front);
      RunKeeps(interval, front);
      ApplyNeedsLog(w, a);
      ActionKeeps(interval, w, a);
      LogAfter(interval, w, a);
      NextSeqOfStamp(Appends(front));
      if a.Append? {
        StampAppend(Appends(front), [a.op], 0);
        StampOne(a.op, |Appends(front)|);
      }
    }
  }

  lemma StartOk(interval: nat)
    requires interval >= 1
    ensures Inv(interval, START) && START.log == Stamp([], 0)
  {
    EmptyReflects();
    assert START.log[..0] == [];
  }

  lemma ApplyNeedsLog(w: State, a: Action)
    requires Enabled(w, a)
    ensures a.Apply? ==> w.log != []
  {
  }

  lemma LogAfter(interval: nat, w: State, a: Action)
    requires a.Apply? ==> w.log != []
    ensures Do(interval, w, a).log == if a.Append? then w.log + [ToRecord(a.op, NextSeq(w.log))] else w.log
  {
  }

  /** However often the store stopped and reopened, whenever no append is in flight it answers as the
      plain store over every record ever appended. */
  lemma RunServes(interval: nat, actions: seq<Action>, key: Bytes)
    requires interval >= 1 && Legal(interval, actions)
    requires var phase := Run(interval, actions).phase; phase == Idle || phase == Due
    ensures var w, rs := Run(interval, actions), Stamp(Appends(actions), 0);
            && Reflects(w.live, rs)
            && (UserKey(key) in w.live ==> w.live[UserKey(key)] != [] && w.live[UserKey(key)][0] <= 1)
            && IndexGet(w.live, key) == Get(StoreState(rs, rs, |rs|, map[]), key)
  {
    hide Stamp, Legal, Run, Reflects, Sentinel;
    RunKeeps(interval, actions);
    var rs := Stamp(Appends(actions), 0);
    GetAgrees(Run(interval, actions).live, StoreState(rs, rs, |rs|, map[]), key);
  }

  /** The interval-th record since the last checkpoint is in the log, and the checkpoint it brings
      about has not finished. */
  predicate Unsettled(interval: nat, w: State) {
    w.phase == Due || (w.phase == Logged && w.pending + 1 == interval)
  }

  /** Wherever the store stops, a reopening replays at most `interval` records, and that many exactly
      if it stopped between the append of the interval-th record and the end of its checkpoint. */
  lemma RunReplays(interval: nat, actions: seq<Action>)
    requires interval >= 1 && Legal(interval, actions)
    ensures var w := Run(interval, actions);
            && Replayed(w) <= interval
            && (w.phase != Down ==> Replayed(w) == Lag(w) && (Replayed(w) == interval <==> Unsettled(interval, w)))
  {
    hide Stamp, Legal, Run, Reflects, Sentinel, Tail;
    RunKeeps(interval, actions);
    var w := Run(interval, actions);
    NumberedTail(w.log, Sentinel(w.image));
  }

  /** The smallest case: with an interval of 1, a store that stops right after its first append replays
      one record, not zero. */
  lemma FullIntervalReplayed(op: LogOp)
    ensures Legal(1, [Append(op)]) && Replayed(Run(1, [Append(op)])) == 1
  {
    hide Stamp, Sentinel, Tail;
    assert [Append(op)][..0] == [];
    assert Run(1, []) == START && NextSeq([]) == 0;
    RunReplays(1, [Append(op)]);
  }
}
