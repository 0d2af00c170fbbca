/**
 The staged restore (app/backup.py): a private copy of the live database is merged with
 the archive, the live database is locked, the tables the merge did not touch are
 copied over once more, and the copy replaces the live file. Other writers commit, create
 tables, and the worker may die, between any two steps.
 */
module Restore {
  import opened Wrappers
  import opened Tables

  type Database = map<string, Table>

  // ----- processes -----

  /** The running boot and its processes: pid to start ticks. Ticks and boots never come again. */
  datatype World = World(boot: string, procs: map<nat, nat>, clock: nat, oldBoots: set<string>)

  /** What a worker records about itself; an unreadable /proc leaves no ticks or an empty boot id. */
  datatype Worker = Worker(pid: nat, ticks: Option<nat>, boot: string)

  /**
   _worker_alive: whether the row's process still runs, judged by the boot id and the start
   ticks that the reaper reads ("" and None when it cannot read them).
   */
  predicate JudgedAlive(w: Worker, boot: string, ticks: Option<nat>) {
    && w.pid > 0
    && w.boot != ""
    && w.boot == boot
    && ticks.Some?
    && (w.ticks.Some? ==> ticks == w.ticks)
  }

  /** What can be read under /proc about a process: the truth, or nothing. */
  predicate Readable(world: World, pid: nat, boot: string, ticks: Option<nat>) {
    && (boot == world.boot || boot == "")
    && (ticks.Some? ==> pid in world.procs && world.procs[pid] == ticks.value)
  }

  // ----- states and steps -----

  datatype Status = Running | Interrupted | Finished

  /** The row of restore_history: a table like any other, never merged from an archive. */
  datatype History = History(status: Status, worker: Worker, promoted: bool)

  datatype Phase = Starting | Merging | Validated | Locked | Promoted | Unlocked | Ended | Dead

  datatype State = State(
    live: Database,
    history: History,
    archive: Database,
    selected: set<string>,
    phase: Phase,
    working: Database,
    workingHistory: History,
    merged: set<string>,
    resynced: set<string>,
    historyResynced: bool,
    locked: bool,
    swapped: bool,
    startTicks: nat,
    world: World)

  datatype Event =
    // the restore worker
    | Snapshot
    | PartialMerge(table: string, rows: seq<Row>)
    | Merge(table: string)
    | Validate
    | Lock
    | Resync(table: string)
    | ResyncHistory
    | Swap
    | Unlock
    | Mark
    | Finish
    | Fail
    | Crash
    // everyone else
    | Commit(table: string, rows: seq<Row>)
    | Create(table: string, data: Table)
    | Reap(boot: string, ticks: Option<nat>)
    | Spawn(pid: nat)
    | Exit(pid: nat)
    | Reboot(boot: string)

  /** The tables _merge_database copies: selected, in both databases, with a common column. */
  function Plan(s: State): set<string> {
    set t | t in s.selected && t in s.working && t in s.archive && SharesColumns(s.working[t], s.archive[t])
  }

  predicate WorkerRuns(s: State) { !s.phase.Ended? && !s.phase.Dead? }

  predicate Enabled(s: State, e: Event) {
    match e
    case Snapshot => s.phase.Starting?
    case PartialMerge(t, _) => s.phase.Merging? && t in Plan(s) - s.merged
    case Merge(t) => s.phase.Merging? && t in Plan(s) - s.merged
    case Validate => s.phase.Merging? && s.merged == Plan(s) && s.merged != {}
    case Lock => s.phase.Validated?
    case Resync(t) => s.phase.Locked? && t in s.live && t in s.working && t !in s.merged
    case ResyncHistory => s.phase.Locked?
    case Swap => s.phase.Locked? && s.historyResynced
      && forall t :: t in s.live && t in s.working && t !in s.merged ==> t in s.resynced
    case Unlock => s.phase.Promoted?
    case Mark => s.phase.Unlocked?
    case Finish => s.phase.Unlocked? || (s.phase.Merging? && s.merged == Plan(s) == {})
    case Fail => WorkerRuns(s)
    case Crash => WorkerRuns(s)
    // a writer's commit waits for the lock and then opens the file that is live by then
    case Commit(t, _) => !s.locked && t in s.live
    case Create(t, _) => !s.locked && t !in s.live
    case Reap(boot, ticks) =>
      && !s.locked && s.history.status.Running?
      && Readable(s.world, s.history.worker.pid, boot, ticks) && !JudgedAlive(s.history.worker, boot, ticks)
    case Spawn(pid) => pid > 0 && pid !in s.world.procs
    case Exit(pid) => pid in s.world.procs && !(WorkerRuns(s) && pid == s.history.worker.pid)
    case Reboot(b) => !WorkerRuns(s) && b != "" && b != s.world.boot && b !in s.world.oldBoots
  }

  function Apply(s: State, e: Event): State
    requires Enabled(s, e)
  {
    match e
    case Snapshot => s.(phase := Merging, working := s.live, workingHistory := s.history)
    case PartialMerge(t, rows) => s.(working := s.working[t := s.working[t].(rows := rows)])
    case Merge(t) => s.(working := s.working[t := Restored(s.working[t], s.archive[t])], merged := s.merged + {t})
    case Validate => s.(phase := Validated)
    case Lock => s.(phase := Locked, locked := true)
    case Resync(t) => s.(working := s.working[t := s.live[t]], resynced := s.resynced + {t})
    case ResyncHistory => s.(workingHistory := s.history, historyResynced := true)
    case Swap => s.(phase := Promoted, live := s.working, history := s.workingHistory, swapped := true)
    case Unlock => s.(phase := Unlocked, locked := false)
    case Mark => s.(history := s.history.(promoted := true))
    case Finish => s.(phase := Ended, history := s.history.(status := Finished))
    case Fail => s.(phase := Ended, locked := false, history := s.history.(status := Finished))
    case Crash => s.(phase := Dead, locked := false, world := s.world.(procs := s.world.procs - {s.history.worker.pid}))
    case Commit(t, rows) => s.(live := s.live[t := s.live[t].(rows := rows)])
    case Create(t, data) => s.(live := s.live[t := data])
    case Reap(_, _) => s.(history := s.history.(status := Interrupted))
    case Spawn(pid) => s.(world := s.world.(procs := s.world.procs[pid := s.world.clock], clock := s.world.clock + 1))
    case Exit(pid) => s.(world := s.world.(procs := s.world.procs - {pid}))
    case Reboot(b) => s.(world := World(b, map[], s.world.clock, s.world.oldBoots + {s.world.boot}))
  }

  /** A restore that has just recorded its row. */
  predicate Initial(s: State) {
    && s.phase.Starting? && !s.locked && !s.swapped && s.merged == {} && s.resynced == {} && !s.historyResynced
    && s.history.status.Running? && !s.history.promoted
    && s.history.worker.pid in s.world.procs && s.history.worker.pid > 0
    && s.world.procs[s.history.worker.pid] == s.startTicks
    && s.world.boot != "" && s.world.boot !in s.world.oldBoots
    && (s.history.worker.ticks.Some? ==> s.history.worker.ticks.value == s.startTicks)
    && (s.history.worker.boot == s.world.boot || s.history.worker.boot == "")
    && forall p :: p in s.world.procs ==> s.world.procs[p] < s.world.clock
  }

  function Run(s: State, es: seq<Event>): Option<State> {
    if es == [] then Some(s) else
    match Run(s, es[..|es| - 1])
    case None => None
    case Some(s') => if Enabled(s', es[|es| - 1]) then Some(Apply(s', es[|es| - 1])) else None
  }

  // ----- what the live database should be -----

  /** The tables a restore replaces: selected, at the snapshot and in the archive, with a common column. */
  function Chosen(s0: State, snapshot: Database): set<string> {
    set t | t in s0.selected && t in snapshot && t in s0.archive && SharesColumns(snapshot[t], s0.archive[t])
  }

  /** The tables a restore of a snapshot replaces, by their columns. */
  predicate Replaceable(s0: State, snapshot: Database, t: string) {
    && t in s0.selected && t in snapshot && t in s0.archive
    && exists c :: c in snapshot[t].defaults && c in s0.archive[t].defaults
  }

  lemma ChosenIff(s0: State, snapshot: Database, t: string)
    ensures t in Chosen(s0, snapshot) <==> Replaceable(s0, snapshot, t)
  {
    if t in snapshot && t in s0.archive && SharesColumns(snapshot[t], s0.archive[t]) {
      var c :| c in snapshot[t].defaults.Keys * s0.archive[t].defaults.Keys;
      assert c in snapshot[t].defaults && c in s0.archive[t].defaults;
    }
    if Replaceable(s0, snapshot, t) {
      var c :| c in snapshot[t].defaults && c in s0.archive[t].defaults;
      assert c in snapshot[t].defaults.Keys * s0.archive[t].defaults.Keys;
    }
  }

  /** What the reference keeps track of: the live tables and those of the snapshot. */
  datatype Ledger = Ledger(live: Database, snapshot: Database)

  function Committed(db: Database, t: string, rows: seq<Row>): Database {
    if t in db then db[t := db[t].(rows := rows)] else db
  }

  /**
   The reference: the live database by the commits alone. Only the swap intervenes: a
   chosen table becomes the archive's rows in the current schema, a table created since
   the snapshot is gone, every other table stays as committed.
   */
  function Reference(s0: State, es: seq<Event>): Ledger {
    if |es| == 0 then Ledger(s0.live, map[]) else
    var r := Reference(s0, es[..|es| - 1]);
    match es[|es| - 1]
    case Snapshot => r.(snapshot := r.live)
    case Commit(t, rows) => r.(live := Committed(r.live, t, rows))
    case Create(t, data) => r.(live := r.live[t := data])
    case Swap => r.(live := Swapped(s0, r))
    case _ => r
  }

  function Swapped(s0: State, r: Ledger): Database {
    map t | t in r.live && t in r.snapshot ::
      if t in Chosen(s0, r.snapshot) then Restored(r.live[t], s0.archive[t]) else r.live[t]
  }

  predicate SameSchema(a: Table, b: Table) { a.defaults == b.defaults }

  ghost predicate Consistent(s: State) {
    && (s.swapped ==> s.phase.Promoted? || s.phase.Unlocked? || s.phase.Ended? || s.phase.Dead?)
    && (s.phase.Promoted? || s.phase.Unlocked? ==> s.swapped)
    && (s.locked ==> s.phase.Locked? || s.phase.Promoted?)
    && (s.phase.Starting? ==> s.merged == {})
    && (s.phase.Starting? || s.phase.Merging? || s.phase.Validated? ==> s.resynced == {} && !s.historyResynced)
    && (Copying(s) ==> CopyConsistent(s) && RowConsistent(s))
    && (s.history.promoted ==> s.swapped)
  }

  /** The private copy: current schemas, archive rows where merged, live rows where copied again. */
  ghost predicate CopyConsistent(s: State) { CopySchemas(s) && CopyContents(s) }

  ghost predicate CopySchemas(s: State) {
    && s.working.Keys <= s.live.Keys
    && s.merged <= s.working.Keys && s.merged <= s.archive.Keys && s.resynced <= s.working.Keys
    && (forall t :: t in s.working ==> SameSchema(s.working[t], s.live[t]))
  }

  ghost predicate CopyContents(s: State)
    requires CopySchemas(s)
  {
    && (forall t :: t in s.merged ==> s.working[t] == Restored(s.live[t], s.archive[t]))
    && (forall t :: t in s.resynced ==> t !in s.merged && s.working[t] == s.live[t])
  }

  /** The private copy of the row, and the lock that keeps both rows still. */
  ghost predicate RowConsistent(s: State) {
    && (s.phase.Locked? ==> s.locked)
    && !s.workingHistory.promoted && s.workingHistory.worker == s.history.worker
    && (s.historyResynced ==> s.workingHistory == s.history)
  }

  predicate Copying(s: State) { s.phase.Merging? || s.phase.Validated? || s.phase.Locked? }

  lemma CopySchemasStep(s: State, e: Event)
    requires Consistent(s) && Enabled(s, e) && Copying(Apply(s, e))
    ensures CopySchemas(Apply(s, e))
  {
  }

  lemma CopyConsistentStep(s: State, e: Event)
    requires Consistent(s) && Enabled(s, e) && Copying(Apply(s, e))
    ensures CopyConsistent(Apply(s, e))
  {
    CopySchemasStep(s, e);
  }

  lemma RowConsistentStep(s: State, e: Event)
    requires Consistent(s) && Enabled(s, e) && Copying(Apply(s, e))
    ensures RowConsistent(Apply(s, e))
  {
  }

  lemma ConsistentStep(s: State, e: Event)
    requires Consistent(s) && Enabled(s, e)
    ensures Consistent(Apply(s, e))
  {
    if Copying(Apply(s, e)) {
      CopyConsistentStep(s, e);
      RowConsistentStep(s, e);
    }
  }

  /** What the swap does to each table. */
  lemma SwapInstalls(s: State, t: string)
    requires Consistent(s) && Enabled(s, Swap)
    ensures Lookup(Apply(s, Swap).live, t)
            == if t !in s.working then None
               else if t in s.merged then Some(Restored(s.live[t], s.archive[t]))
               else Some(s.live[t])
  {
  }

  /** The run agrees with the reference, and merges exactly the chosen tables. */
  ghost predicate Tracked(s0: State, s: State, r: Ledger) {
    && s.live == r.live && s.archive == s0.archive && s.selected == s0.selected
    && (!s.phase.Starting? && !s.phase.Dead? && !s.phase.Ended? ==> s.working.Keys == r.snapshot.Keys)
    && (s.phase.Merging? || s.phase.Validated? || s.phase.Locked? ==>
          forall t :: t in s.working ==> SameSchema(s.working[t], r.snapshot[t]))
    && (s.phase.Validated? || s.phase.Locked? ==> s.merged == Chosen(s0, r.snapshot))
  }

  lemma PlanIsChosen(s0: State, s: State, r: Ledger)
    requires Tracked(s0, s, r) && s.phase.Merging?
    ensures Plan(s) == Chosen(s0, r.snapshot)
  {
    forall t | t in s.working
      ensures t in r.snapshot && s.working[t].defaults == r.snapshot[t].defaults
    {
      assert SameSchema(s.working[t], r.snapshot[t]);
    }
  }

  lemma SwapTracked(s0: State, s: State, r: Ledger)
    requires Consistent(s) && Tracked(s0, s, r) && Enabled(s, Swap)
    ensures Apply(s, Swap).live == Swapped(s0, r)
  {
    forall t
      ensures Lookup(Apply(s, Swap).live, t) == Lookup(Swapped(s0, r), t)
    {
      SwapInstalls(s, t);
    }
    SameTables(Apply(s, Swap).live, Swapped(s0, r));
  }

  lemma SameTables(a: Database, b: Database)
    requires forall t :: Lookup(a, t) == Lookup(b, t)
    ensures a == b
  {
    forall t
      ensures t in a <==> t in b
      ensures t in a ==> a[t] == b[t]
    {
      assert Lookup(a, t) == Lookup(b, t);
    }
  }

  lemma LiveTrackedStep(s0: State, s: State, r: Ledger, init: seq<Event>, e: Event)
    requires Consistent(s) && Tracked(s0, s, r) && r == Reference(s0, init) && Enabled(s, e)
    ensures Apply(s, e).live == Reference(s0, init + [e]).live
    ensures Reference(s0, init + [e]).snapshot == if e == Snapshot then s.live else r.snapshot
  {
    assert (init + [e])[..|init|] == init;
    if e == Swap { SwapTracked(s0, s, r); }
  }

  lemma TrackedStep(s0: State, init: seq<Event>, s: State, e: Event)
    requires Consistent(s) && Tracked(s0, s, Reference(s0, init)) && Enabled(s, e)
    ensures Tracked(s0, Apply(s, e), Reference(s0, init + [e]))
  {
    var r := Reference(s0, init);
    LiveTrackedStep(s0, s, r, init, e);
    if e == Validate { PlanIsChosen(s0, s, r); }
  }

  /** In every run the live database is exactly what the reference makes of the events. */
  lemma {:induction false} LiveAsExpected(s0: State, es: seq<Event>)
    requires Initial(s0) && Run(s0, es).Some?
    ensures Consistent(Run(s0, es).value) && Tracked(s0, Run(s0, es).value, Reference(s0, es))
    ensures Run(s0, es).value.live == Reference(s0, es).live
  {
    if |es| > 0 {
      var init, e := es[..|es| - 1], es[|es| - 1];
      LiveAsExpected(s0, init);
      var s := Run(s0, init).value;
      ConsistentStep(s, e);
      assert es == init + [e];
      TrackedStep(s0, init, s, e);
    }
  }

  // ----- which events have happened -----

  lemma HappenedNext(init: seq<Event>, e: Event, x: Event)
    ensures x in init + [e] <==> x in init || x == e
  {
  }

  lemma SwappedStep(s: State, e: Event)
    requires Enabled(s, e)
    ensures Apply(s, e).swapped <==> s.swapped || e == Swap
  {
  }

  lemma {:induction false} SwappedIff(s0: State, es: seq<Event>)
    requires Initial(s0) && Run(s0, es).Some?
    ensures Run(s0, es).value.swapped <==> Swap in es
  {
    if |es| > 0 {
      var init, e := es[..|es| - 1], es[|es| - 1];
      SwappedIff(s0, init);
      SwappedStep(Run(s0, init).value, e);
      assert es == init + [e];
      HappenedNext(init, e, Swap);
    }
  }

  lemma PromotedStep(s: State, e: Event)
    requires Consistent(s) && Enabled(s, e)
    ensures Apply(s, e).history.promoted <==> s.history.promoted || e == Mark
  {
  }

  lemma {:induction false} PromotedIff(s0: State, es: seq<Event>)
    requires Initial(s0) && Run(s0, es).Some?
    ensures Run(s0, es).value.history.promoted <==> Mark in es
  {
    if |es| > 0 {
      var init, e := es[..|es| - 1], es[|es| - 1];
      PromotedIff(s0, init);
      LiveAsExpected(s0, init);
      PromotedStep(Run(s0, init).value, e);
      assert es == init + [e];
      HappenedNext(init, e, Mark);
    }
  }

  lemma RunPrefix(s0: State, es: seq<Event>, e: Event)
    requires Run(s0, es + [e]).Some?
    ensures Run(s0, es).Some? && Enabled(Run(s0, es).value, e) && Run(s0, es + [e]) == Some(Apply(Run(s0, es).value, e))
  {
    assert (es + [e])[..|es|] == es;
  }

  /** There is one snapshot, and it is the live database of that moment. */
  lemma {:induction false} SnapshotTaken(s0: State, pre: seq<Event>, es: seq<Event>)
    requires Initial(s0) && Run(s0, pre + [Snapshot] + es).Some?
    ensures Run(s0, pre).Some? && Swap !in pre
    ensures Reference(s0, pre + [Snapshot] + es).snapshot == Run(s0, pre).value.live
    ensures !Run(s0, pre + [Snapshot] + es).value.phase.Starting?
  {
    if |es| == 0 {
      assert pre + [Snapshot] + es == pre + [Snapshot];
      RunPrefix(s0, pre, Snapshot);
      LiveAsExpected(s0, pre);
      SwappedIff(s0, pre);
      assert (pre + [Snapshot])[..|pre|] == pre;
    } else {
      var all, init, e := pre + [Snapshot] + es, pre + [Snapshot] + es[..|es| - 1], es[|es| - 1];
      assert all == init + [e] && all[..|all| - 1] == init;
      RunPrefix(s0, init, e);
      SnapshotTaken(s0, pre, es[..|es| - 1]);
    }
  }

  // ----- what becomes of commits -----

  /** The database by the commits alone, as if there were no restore. */
  function Written(s0: State, es: seq<Event>): Database {
    if |es| == 0 then s0.live else
    var before := Written(s0, es[..|es| - 1]);
    match es[|es| - 1]
    case Commit(t, rows) => Committed(before, t, rows)
    case Create(t, data) => before[t := data]
    case _ => before
  }

  lemma {:induction false} ReferenceUnlessSwapped(s0: State, es: seq<Event>)
    requires Swap !in es
    ensures Reference(s0, es).live == Written(s0, es)
  {
    if |es| > 0 {
      var init, e := es[..|es| - 1], es[|es| - 1];
      assert es == init + [e];
      ReferenceUnlessSwapped(s0, init);
    }
  }

  /** Until the swap the live database is the old one plus every commit, wherever the restore stops. */
  lemma {:induction false} UntouchedBeforeSwap(s0: State, es: seq<Event>)
    requires Initial(s0) && Run(s0, es).Some? && Swap !in es
    ensures Run(s0, es).value.live == Written(s0, es)
  {
    LiveAsExpected(s0, es);
    ReferenceUnlessSwapped(s0, es);
  }

  /** Both ledgers hold the table, and hold the same. */
  predicate Agree(a: Database, b: Database, t: string) { t in a && t in b && a[t] == b[t] }

  /** One event keeps an unchosen table of the snapshot as the commits leave it. */
  lemma CommitKept(s0: State, init: seq<Event>, e: Event, t: string)
    requires Agree(Reference(s0, init).live, Written(s0, init), t) && e != Snapshot
    requires var snapshot := Reference(s0, init).snapshot; t in snapshot && t !in Chosen(s0, snapshot)
    ensures Agree(Reference(s0, init + [e]).live, Written(s0, init + [e]), t)
    ensures Reference(s0, init + [e]).snapshot == Reference(s0, init).snapshot
  {
    assert (init + [e])[..|init|] == init;
  }

  lemma {:induction false} CommitsKept(s0: State, pre: seq<Event>, es: seq<Event>, t: string)
    requires Initial(s0) && Run(s0, pre + [Snapshot] + es).Some? && Run(s0, pre).Some?
    requires t in Run(s0, pre).value.live && t !in Chosen(s0, Run(s0, pre).value.live)
    ensures Agree(Reference(s0, pre + [Snapshot] + es).live, Written(s0, pre + [Snapshot] + es), t)
  {
    if |es| == 0 {
      assert pre + [Snapshot] + es == pre + [Snapshot] && (pre + [Snapshot])[..|pre|] == pre;
      SnapshotTaken(s0, pre, es);
      LiveAsExpected(s0, pre);
      ReferenceUnlessSwapped(s0, pre);
    } else {
      var init, e := pre + [Snapshot] + es[..|es| - 1], es[|es| - 1];
      assert pre + [Snapshot] + es == init + [e];
      RunPrefix(s0, init, e);
      SnapshotTaken(s0, pre, es[..|es| - 1]);
      CommitsKept(s0, pre, es[..|es| - 1], t);
      CommitKept(s0, init, e, t);
    }
  }

  /**
   A table that existed at the snapshot and is not one the restore replaces holds every
   commit, before and after the swap.
   */
  lemma NoCommitLost(s0: State, pre: seq<Event>, es: seq<Event>, t: string)
    requires Initial(s0) && Run(s0, pre + [Snapshot] + es).Some? && Run(s0, pre).Some?
    requires t in Run(s0, pre).value.live && !Replaceable(s0, Run(s0, pre).value.live, t)
    ensures Agree(Run(s0, pre + [Snapshot] + es).value.live, Written(s0, pre + [Snapshot] + es), t)
  {
    ChosenIff(s0, Run(s0, pre).value.live, t);
    LiveAsExpected(s0, pre + [Snapshot] + es);
    CommitsKept(s0, pre, es, t);
  }

  lemma RestoredAtSwap(s0: State, pre: seq<Event>, es: seq<Event>, t: string)
    requires Initial(s0) && Run(s0, pre + [Snapshot] + es + [Swap]).Some? && Run(s0, pre).Some?
    requires Run(s0, pre + [Snapshot] + es).Some? && Replaceable(s0, Run(s0, pre).value.live, t)
    ensures var s, after := Run(s0, pre + [Snapshot] + es).value, Run(s0, pre + [Snapshot] + es + [Swap]).value;
            t in s.live && Lookup(after.live, t) == Some(Restored(s.live[t], s0.archive[t]))
  {
    ChosenIff(s0, Run(s0, pre).value.live, t);
    SwapOutcome(s0, pre, es);
    var s := Run(s0, pre + [Snapshot] + es).value;
    LiveAsExpected(s0, pre + [Snapshot] + es);
    assert t in s.working;
  }

  /**
   At the swap every selected table of the snapshot that shares a column with the archive's has the
   live schema and, row by row, the archive's values in the shared columns and defaults elsewhere.
   */
  lemma MergedAtSwap(s0: State, pre: seq<Event>, es: seq<Event>, t: string)
    requires Initial(s0) && Run(s0, pre + [Snapshot] + es + [Swap]).Some? && Run(s0, pre).Some?
    requires Run(s0, pre + [Snapshot] + es).Some? && Replaceable(s0, Run(s0, pre).value.live, t)
    ensures var s, after := Run(s0, pre + [Snapshot] + es).value, Run(s0, pre + [Snapshot] + es + [Swap]).value;
            && t in s.live && t in after.live
            && var archived, merged := s0.archive[t], after.live[t];
               && merged.defaults == s.live[t].defaults && |merged.rows| == |archived.rows|
               && forall i :: 0 <= i < |archived.rows| ==>
                                CopyOf(merged.rows[i], s.live[t], archived, archived.rows[i])
  {
    RestoredAtSwap(s0, pre, es, t);
    RestoredRows(Run(s0, pre + [Snapshot] + es).value.live[t], s0.archive[t]);
  }

  lemma SwapOutcome(s0: State, pre: seq<Event>, es: seq<Event>)
    requires Initial(s0) && Run(s0, pre + [Snapshot] + es + [Swap]).Some?
    ensures Run(s0, pre).Some? && Run(s0, pre + [Snapshot] + es).Some?
    ensures var s := Run(s0, pre + [Snapshot] + es).value;
            && s.working.Keys == Run(s0, pre).value.live.Keys && s.working.Keys <= s.live.Keys
            && Run(s0, pre + [Snapshot] + es + [Swap]).value.live
               == Swapped(s0, Ledger(s.live, Run(s0, pre).value.live))
  {
    var all := pre + [Snapshot] + es;
    RunPrefix(s0, all, Swap);
    SnapshotTaken(s0, pre, es);
    LiveAsExpected(s0, all);
    SwapTracked(s0, Run(s0, all).value, Reference(s0, all));
  }

  /** A table survives the swap exactly when it existed at the snapshot. */
  lemma SwapDropsLateTables(s0: State, pre: seq<Event>, es: seq<Event>, t: string)
    requires Initial(s0) && Run(s0, pre + [Snapshot] + es + [Swap]).Some? && Run(s0, pre).Some?
    ensures t in Run(s0, pre + [Snapshot] + es + [Swap]).value.live <==> t in Run(s0, pre).value.live
  {
    SwapOutcome(s0, pre, es);
  }

  /** promoted_at is only ever set once the swap has happened. */
  lemma PromotedImpliesSwapped(s0: State, es: seq<Event>)
    requires Initial(s0) && Run(s0, es).Some?
    ensures Run(s0, es).value.history.promoted ==> Run(s0, es).value.swapped
  {
    LiveAsExpected(s0, es);
  }

  // ----- the reaper -----

  ghost predicate WorldConsistent(w: World) {
    && w.boot != "" && w.boot !in w.oldBoots
    && forall p :: p in w.procs ==> w.procs[p] < w.clock
  }

  ghost predicate WorkerConsistent(s: State) {
    var w := s.history.worker;
    && WorldConsistent(s.world)
    && w.pid > 0 && s.startTicks < s.world.clock
    && (w.ticks.Some? ==> w.ticks.value == s.startTicks)
    && (w.boot != "" ==> w.boot == s.world.boot || w.boot in s.world.oldBoots)
    && (WorkerRuns(s) ==> w.pid in s.world.procs && s.world.procs[w.pid] == s.startTicks
                          && (w.boot != "" ==> w.boot == s.world.boot))
    && (s.phase.Dead? && w.pid in s.world.procs ==> s.world.procs[w.pid] > s.startTicks)
  }

  lemma WorldStep(s: State, e: Event)
    requires WorldConsistent(s.world) && Enabled(s, e)
    ensures WorldConsistent(Apply(s, e).world) && s.world.clock <= Apply(s, e).world.clock
  {
  }

  lemma SameWorker(s: State, e: Event)
    requires Consistent(s) && Enabled(s, e)
    ensures Apply(s, e).history.worker == s.history.worker
  {
  }

  lemma WorkerStep(s: State, e: Event)
    requires Consistent(s) && WorkerConsistent(s) && Enabled(s, e)
    ensures WorkerConsistent(Apply(s, e)) && Apply(s, e).history.worker == s.history.worker
  {
    WorldStep(s, e);
    SameWorker(s, e);
  }

  lemma {:induction false} WorkerTracked(s0: State, es: seq<Event>)
    requires Initial(s0) && Run(s0, es).Some?
    ensures WorkerConsistent(Run(s0, es).value)
    ensures Run(s0, es).value.history.worker == s0.history.worker
  {
    if es != [] {
      WorkerTracked(s0, es[..|es| - 1]);
      LiveAsExpected(s0, es[..|es| - 1]);
      WorkerStep(Run(s0, es[..|es| - 1]).value, es[|es| - 1]);
    }
  }

  /**
   A running worker's row is reaped exactly when the row has no boot id, or the reaper cannot
   read the boot id or the worker's start ticks.
   */
  lemma ReapedAliveIff(s0: State, es: seq<Event>, boot: string, ticks: Option<nat>)
    requires Initial(s0) && Run(s0, es).Some?
    requires var s := Run(s0, es).value;
             WorkerRuns(s) && s.history.status.Running? && !s.locked
                 && Readable(s.world, s0.history.worker.pid, boot, ticks)
    ensures Enabled(Run(s0, es).value, Reap(boot, ticks)) <==> s0.history.worker.boot == "" || boot == "" || ticks.None?
  {
    WorkerTracked(s0, es);
  }

  /**
   A dead worker's row is reaped by whatever the reaper can read, pid reuse and reboots included,
   unless the row has a boot id but no start ticks and, in that same boot, another process has the
   worker's pid: then the reaper reads that process's ticks and has nothing to compare them with.
   */
  lemma DeadWorkerReapableIff(s0: State, es: seq<Event>, boot: string, ticks: Option<nat>)
    requires Initial(s0) && Run(s0, es).Some?
    requires var s := Run(s0, es).value;
             s.phase.Dead? && s.history.status.Running? && Readable(s.world, s0.history.worker.pid, boot, ticks)
    ensures var w := s0.history.worker;
            Enabled(Run(s0, es).value, Reap(boot, ticks))
            <==> w.ticks.Some? || w.boot == "" || boot != w.boot || ticks.None?
  {
    WorkerTracked(s0, es);
    LiveAsExpected(s0, es);
  }

  /** "The live database was NOT modified": what the reaper reports when promoted_at is empty. */
  predicate ReportsUntouched(h: History) { !h.promoted }

  /** The report is wrong exactly in the runs that swapped and have not marked it. */
  lemma UntouchedReportWrongIff(s0: State, es: seq<Event>)
    requires Initial(s0) && Run(s0, es).Some?
    ensures var s := Run(s0, es).value;
            ReportsUntouched(s.history) != !s.swapped <==> Swap in es && Mark !in es
  {
    SwappedIff(s0, es);
    PromotedIff(s0, es);
    PromotedImpliesSwapped(s0, es);
  }

  lemma RunToLock(s0: State, t: string, data: Table, archived: Table) returns (es: seq<Event>, s: State)
    requires Initial(s0) && s0.live == map[t := data] && s0.archive == map[t := archived] && s0.selected == {t}
    requires SharesColumns(data, archived)
    ensures es == [Snapshot, Merge(t), Validate, Lock] && Run(s0, es) == Some(s)
    ensures s.phase.Locked? && s.merged == {t} && s.live.Keys == {t} && s.history == s0.history && s.world == s0.world
            && s.locked
  {
    var s1 := Apply(s0, Snapshot);
    var s2 := Apply(s1, Merge(t));
    assert Plan(s1) == {t} == Plan(s2);
    var s3 := Apply(s2, Validate);
    RunOne(s0, [], Snapshot, s0);
    var e1: seq<Event> := [] + [Snapshot];
    RunOne(s0, e1, Merge(t), s1);
    var e2 := e1 + [Merge(t)];
    RunOne(s0, e2, Validate, s2);
    var e3 := e2 + [Validate];
    RunOne(s0, e3, Lock, s3);
    es, s := e3 + [Lock], Apply(s3, Lock);
  }

  /** Such a run exists for every table that can be restored. */
  lemma UntouchedReportCanBeWrong(s0: State, t: string, data: Table, archived: Table)
    requires Initial(s0) && s0.live == map[t := data] && s0.archive == map[t := archived] && s0.selected == {t}
    requires SharesColumns(data, archived)
    ensures var es := [Snapshot, Merge(t), Validate, Lock, ResyncHistory, Swap, Crash, Reap(s0.world.boot, None)];
            var r := Run(s0, es);
            r.Some? && r.value.swapped && r.value.history.status.Interrupted? && ReportsUntouched(r.value.history)
  {
    var e4, s4 := RunToLock(s0, t, data, archived);
    RunOne(s0, e4, ResyncHistory, s4);
    var s5 := Apply(s4, ResyncHistory);
    var s6 := Apply(s5, Swap);
    var s7 := Apply(s6, Crash);
    var e5 := e4 + [ResyncHistory];
    RunOne(s0, e5, Swap, s5);
    var e6 := e5 + [Swap];
    RunOne(s0, e6, Crash, s6);
    var e7 := e6 + [Crash];
    RunOne(s0, e7, Reap(s0.world.boot, None), s7);
    assert e7 + [Reap(s0.world.boot, None)]
           == [Snapshot, Merge(t), Validate, Lock, ResyncHistory, Swap, Crash, Reap(s0.world.boot, None)];
  }

  lemma RunOne(s0: State, es: seq<Event>, e: Event, s: State)
    requires Run(s0, es) == Some(s) && Enabled(s, e)
    ensures Run(s0, es + [e]) == Some(Apply(s, e))
  {
    assert (es + [e])[..|es|] == es;
  }
}
