/** Held snapshots over whole runs: the registry of guards and the stability of their reads. */
module Guards {
  import opened Bytes
  import opened Logs
  import opened Versions
  import opened Stores

  /** A store and the guards alive on it, one occurrence per guard. */
  datatype World = World(store: StoreState, guards: multiset<nat>)

  datatype Action = Write(ops: seq<LogOp>) | TakeGuard | DropGuard(snapshot: nat) | CompactNow

  /** A guard can only be dropped while it is alive; compactions are safe ones. */
  ghost predicate Enabled(w: World, a: Action) {
    match a
    case DropGuard(n) => n in w.guards
    case CompactNow => SafeToCompact(w.store)
    case _ => true
  }

  function Do(w: World, a: Action): World {
    match a
    case Write(ops) => w.(store := ApplyBatch(w.store, ops))
    case TakeGuard => World(Hold(w.store), w.guards + multiset{w.store.nextSeq})
    case DropGuard(n) => World(Release(w.store, n), w.guards - multiset{n})
    case CompactNow => w.(store := Compact(w.store))
  }

  /** The registry counts exactly the live guards. */
  ghost predicate Registered(w: World) {
    forall n: nat :: HeldCount(w.store.held, n) == w.guards[n] && (n in w.store.held <==> n in w.guards)
  }

  ghost predicate WorldOk(w: World) {
    Coherent(w.store) && Registered(w)
  }

  /** A compaction's threshold is the smallest snapshot any live guard holds. */
  lemma ThresholdIsOldestGuard(w: World)
    requires Registered(w)
    ensures Oldest(w.store.held).None? <==> w.guards == multiset{}
    ensures Oldest(w.store.held).Some? ==>
              var t := Oldest(w.store.held).value; t in w.guards && forall n :: n in w.guards ==> t <= n
  {
    if w.guards != multiset{} {
      var n :| n in w.guards;
      assert n in w.store.held;
    }
  }

  /** Every action keeps the store coherent and the registry exact, never moves the next sequence
      number back past a held snapshot, and changes nothing a live guard reads. */
  lemma ActionKeeps(w: World, a: Action)
    requires WorldOk(w) && Enabled(w, a)
    ensures WorldOk(Do(w, a)) && w.store.nextSeq <= Do(w, a).store.nextSeq
    ensures forall n, key: Bytes :: n in w.guards ==>
              n <= Do(w, a).store.nextSeq && GetAt(Do(w, a).store, key, n) == GetAt(w.store, key, n)
  {
    hide VersionsOf, NextSeq, ReadAt, Increasing, Compacted, Registered, Serves;
    RegistryKept(w, a);
    GuardsBounded(w);
    match a {
      case Write(ops) =>
        ApplyKeeps(w.store, ops);
      case TakeGuard =>
        HoldKeeps(w.store);
      case DropGuard(n) =>
        ReleaseKeeps(w.store, n);
      case CompactNow =>
        CompactCoherentIff(w.store);
    }
  }

  lemma RegistryKept(w: World, a: Action)
    requires Registered(w) && Enabled(w, a)
    ensures Registered(Do(w, a))
  {
    hide ApplyBatch, Compacted;
    var w' := Do(w, a);
    forall n: nat ensures HeldCount(w'.store.held, n) == w'.guards[n] && (n in w'.store.held <==> n in w'.guards) {
      assert HeldCount(w.store.held, n) == w.guards[n] && (n in w.store.held <==> n in w.guards);
      HistoryOnly(w.store, a);
    }
  }

  lemma HistoryOnly(s: StoreState, a: Action)
    ensures a.Write? ==> ApplyBatch(s, a.ops).held == s.held
    ensures Compact(s).held == s.held
  {
  }

  lemma GuardsBounded(w: World)
    requires WorldOk(w)
    ensures forall n :: n in w.guards ==> n <= w.store.nextSeq
  {
  }

  function RunWorld(w: World, actions: seq<Action>): World
    decreases |actions|
  {
    if actions == [] then w else RunWorld(Do(w, actions[0]), actions[1..])
  }

  /** Every action of the run is enabled when its turn comes, and guard `n` is alive all along. */
  ghost predicate HeldThroughout(w: World, actions: seq<Action>, n: nat)
    decreases |actions|
  {
    n in w.guards && (actions != [] ==> Enabled(w, actions[0]) && HeldThroughout(Do(w, actions[0]), actions[1..], n))
  }

  /** A read through a live guard keeps returning its first answer over any run. */
  lemma {:induction false} HeldSnapshotStable(w: World, actions: seq<Action>, n: nat, key: Bytes)
    requires WorldOk(w) && HeldThroughout(w, actions, n)
    ensures WorldOk(RunWorld(w, actions)) && n <= RunWorld(w, actions).store.nextSeq
    ensures GetAt(RunWorld(w, actions).store, key, n) == GetAt(w.store, key, n)
    decreases |actions|
  {
    hide Enabled, Do, Coherent, Registered;
    if actions == [] {
      GuardBound(w, n);
    } else {
      ActionKeeps(w, actions[0]);
      HeldSnapshotStable(Do(w, actions[0]), actions[1..], n, key);
    }
  }

  lemma GuardBound(w: World, n: nat)
    requires WorldOk(w) && n in w.guards
    ensures n <= w.store.nextSeq
  {
  }
}
