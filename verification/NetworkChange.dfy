/**
 The confirm-or-rollback protocol for network configuration (app/network_config.py):
 a change is staged with a snapshot and a watchdog timer, and is either confirmed or
 rolled back. Timers can outlive their change. NetworkManager is not part of this model.
 */
module NetworkChange {
  import opened Strings
  import opened Wrappers

  datatype Backend = Networkd | Netplan | Ifupdown

  /** The files the three backends read, by directory. */
  datatype Path = NetworkdUnit(name: string) | NetplanYaml(name: string) | Interfaces | InterfacesD(name: string)
    | Elsewhere(name: string)

  type Files = map<Path, string>

  /** _snapshot_paths_for_backend */
  predicate InScope(b: Backend, p: Path) {
    match b
    case Networkd => p.NetworkdUnit?
    case Netplan => p.NetplanYaml?
    case Ifupdown => p.Interfaces? || p.InterfacesD?
  }

  function ScopeOf(b: Backend, files: Files): Files {
    map p | p in files && InScope(b, p) :: files[p]
  }

  /** The one file a change of this interface writes. */
  function StagedPath(b: Backend, interface: string): Path {
    match b
    case Networkd => NetworkdUnit("90-alderpointdns-" + interface + ".network")
    case Netplan => NetplanYaml("90-alderpointdns.yaml")
    case Ifupdown => InterfacesD("90-alderpointdns-" + interface + ".cfg")
  }

  /** stage_networkd, stage_netplan, stage_ifupdown; the last also sources interfaces.d if the main file does not. */
  function Staged(files: Files, b: Backend, interface: string, content: string): Files {
    var written := files[StagedPath(b, interface) := content];
    if b.Ifupdown? && Interfaces in written && !Sources(written[Interfaces])
    then written[Interfaces := WithLine(written[Interfaces], SOURCE_FILES)]
    else written
  }

  const SOURCE_FILES := "source /etc/network/interfaces.d/*"
  const SOURCE_DIRECTORY := "source-directory /etc/network/interfaces.d"

  predicate Sources(text: string) { Contains(text, SOURCE_FILES) || Contains(text, SOURCE_DIRECTORY) }

  function WithLine(text: string, line: string): string { text + "\n" + line + "\n" }

  // ----- which files are whose -----

  /** A file belongs to one backend at most; files elsewhere to none. */
  lemma ScopesApart(a: Backend, b: Backend, p: Path)
    ensures InScope(a, p) && InScope(b, p) ==> a == b
    ensures p.Elsewhere? ==> !InScope(a, p)
    ensures p.NetworkdUnit? ==> InScope(Networkd, p)
    ensures p.NetplanYaml? ==> InScope(Netplan, p)
    ensures p.Interfaces? || p.InterfacesD? ==> InScope(Ifupdown, p)
  {
  }

  /** A change's file is its backend's; changes of two interfaces write two files, except under netplan. */
  lemma StagedPathIff(b: Backend, i: string, c: Backend, j: string)
    ensures InScope(b, StagedPath(b, i))
    ensures StagedPath(b, i) == StagedPath(c, j) <==> b == c && (b.Netplan? || i == j)
  {
    match b
    case Networkd => SameMiddle("90-alderpointdns-", i, j, ".network");
    case Ifupdown => SameMiddle("90-alderpointdns-", i, j, ".cfg");
    case Netplan =>
  }

  lemma SameMiddle(left: string, i: string, j: string, right: string)
    ensures left + i + right == left + j + right <==> i == j
  {
    if left + i + right == left + j + right {
      assert (left + i + right)[|left|..|left| + |i|] == i;
      assert (left + j + right)[|left|..|left| + |j|] == j;
      assert |i| == |j|;
    }
  }

  /**
   Staging writes the content to the change's file and leaves every other file alone, except that
   the main ifupdown file, if there is one, keeps its text and names the directory of the others.
   */
  lemma StagingWritesOnly(files: Files, b: Backend, i: string, content: string, p: Path)
    ensures var after := Staged(files, b, i, content);
            && Lookup(after, StagedPath(b, i)) == Some(content)
            && (p != StagedPath(b, i) && !(b.Ifupdown? && p == Interfaces) ==> Lookup(after, p) == Lookup(files, p))
            && (b.Ifupdown? ==> (Interfaces in after <==> Interfaces in files))
            && (b.Ifupdown? && Interfaces in files ==>
                  Sources(after[Interfaces]) && StartsWith(after[Interfaces], files[Interfaces]))
  {
    if b.Ifupdown? && Interfaces in files { WithLineHolds(files[Interfaces], SOURCE_FILES); }
  }

  lemma WithLineHolds(text: string, line: string)
    ensures StartsWith(text, text) && StartsWith(WithLine(text, line), text) && Contains(WithLine(text, line), line)
  {
    var after := WithLine(text, line);
    assert after[..|text|] == text;
    assert after[|text| + 1..|text| + 1 + |line|] == line;
    assert OccursAt(after, line, |text| + 1);
  }

  /** rollback-state.json */
  datatype Change = Change(backend: Backend, interface: string, snapshot: Files, watchdog: string)

  datatype Net = Net(files: Files, pending: Option<Change>, armed: set<string>)

  function Put(files: Files, p: Path, text: Option<string>): Files {
    if text.Some? then files[p := text.value] else files - {p}
  }

  /** What a write that fails leaves at its path: text, or no file. */
  type Damage = map<Path, Option<string>>

  /**
   How far perform_rollback gets. A restoring write that fails is logged and passed over. An error
   after the writes (the staged file cannot be removed, a command cannot be run) ends it with the
   change still pending.
   */
  datatype Rollback =
    | Finishes(damage: Damage)
    | StopsBeforeRemoval(damage: Damage)
    | StopsAfterRemoval(damage: Damage)

  /**
   How far apply_change gets: a staging write fails, the timer does not start, the state file is
   not written once the timer is armed, the live apply exits with an error and is rolled back, or
   another error interrupts it with the change pending.
   */
  datatype ApplyOutcome =
    | Applied
    | StagingFails(partial: Files)
    | TimerFails
    | StateNotWritten
    | LiveApplyFails(rollback: Rollback)
    | Interrupted

  /** A confirmation stops the timer, if it can, and then removes the state file, if it can. */
  datatype Event =
    | Apply(backend: Backend, interface: string, content: string, timer: string, outcome: ApplyOutcome)
    | Confirm(cancels: bool, clears: bool)
    | Fire(timer: string, rollback: Rollback)
    | Edit(path: Path, text: Option<string>)

  /** What the restoring write leaves at a snapshotted path. */
  function Written(c: Change, damage: Damage, p: Path): Option<string>
    requires p in c.snapshot
  {
    if p in damage then damage[p] else Some(c.snapshot[p])
  }

  function WrittenBack(files: Files, c: Change, damage: Damage): Files {
    map p | p in files.Keys + c.snapshot.Keys && (p in c.snapshot ==> Written(c, damage, p).Some?) ::
      if p in c.snapshot then Written(c, damage, p).value else files[p]
  }

  /** perform_rollback: writes every snapshotted file, removes the staged one if it is new. */
  function RolledBack(files: Files, c: Change, r: Rollback): Files {
    var written := WrittenBack(files, c, r.damage);
    var staged := StagedPath(c.backend, c.interface);
    if staged in c.snapshot || r.StopsBeforeRemoval? then written else written - {staged}
  }

  /** The files a stage_* function writes. */
  predicate StagingWrites(b: Backend, interface: string, p: Path) {
    p == StagedPath(b, interface) || (b.Ifupdown? && p == Interfaces)
  }

  /** A timer fires once, later; a timer name still in use cannot be started again. */
  predicate Enabled(n: Net, e: Event) {
    match e
    case Apply(b, i, _, t, outcome) =>
      && (t in n.armed ==> outcome.TimerFails? || outcome.StagingFails?)
      && (outcome.StagingFails? ==> forall p :: p in outcome.partial ==> StagingWrites(b, i, p))
    case Fire(t, _) => t in n.armed
    case Confirm(_, _) => true
    case Edit(_, _) => true
  }

  /** A change of an idle helper. */
  function Attempt(n: Net, b: Backend, i: string, content: string, t: string, outcome: ApplyOutcome): Net {
    var c := Change(b, i, ScopeOf(b, n.files), t);
    var staged := Staged(n.files, b, i, content);
    match outcome
    case StagingFails(partial) => n.(files := n.files + partial)
    case TimerFails => n.(files := staged)
    case StateNotWritten => Net(staged, None, n.armed + {t})
    case LiveApplyFails(r) => Net(RolledBack(staged, c, r), if r.Finishes? then None else Some(c), n.armed + {t})
    case Interrupted => Net(staged, Some(c), n.armed + {t})
    case Applied => Net(staged, Some(c), n.armed + {t})
  }

  function Step(n: Net, e: Event): Net {
    match e
    case Apply(b, i, content, t, outcome) =>
      if n.pending.Some? then n else Attempt(n, b, i, content, t, outcome)
    case Confirm(cancels, clears) =>
      if n.pending.None? then n
      else Net(n.files,
               if clears then None else n.pending,
               if cancels then n.armed - {n.pending.value.watchdog} else n.armed)
    case Fire(t, r) =>
      if n.pending.None? then n.(armed := n.armed - {t})
      else Net(RolledBack(n.files, n.pending.value, r), if r.Finishes? then None else n.pending, n.armed - {t})
    case Edit(p, text) => n.(files := Put(n.files, p, text))
  }

  predicate Allowed(n: Net, es: seq<Event>)
    decreases |es|
  {
    es != [] ==> Enabled(n, es[0]) && Allowed(Step(n, es[0]), es[1..])
  }

  function Run(n: Net, es: seq<Event>): Net
    decreases |es|
  {
    if es == [] then n else Run(Step(n, es[0]), es[1..])
  }

  lemma {:induction false} RunLast(n: Net, es: seq<Event>, e: Event)
    ensures Run(n, es + [e]) == Step(Run(n, es), e)
    ensures Allowed(n, es + [e]) <==> Allowed(n, es) && Enabled(Run(n, es), e)
    decreases |es|
  {
    if |es| == 0 {
      assert es + [e] == [e] && [e][1..] == [];
    } else {
      assert (es + [e])[0] == es[0] && (es + [e])[1..] == es[1..] + [e];
      RunLast(Step(n, es[0]), es[1..], e);
    }
  }

  /** The files by the administrator's edits alone. */
  function Edited(files: Files, es: seq<Event>): Files
    decreases |es|
  {
    if |es| == 0 then files
    else
      var next := match es[0]
        case Edit(p, text) => Put(files, p, text)
        case _ => files;
      Edited(next, es[1..])
  }

  // ----- the watchdog -----

  predicate Watched(n: Net) { n.pending.Some? ==> n.pending.value.watchdog in n.armed }

  predicate FiresTimer(e: Event, t: string) { e.Fire? && e.timer == t }

  /** The events that leave the pending change without its watchdog: its rollback or its confirmation stops halfway. */
  predicate Unwatches(n: Net, e: Event) {
    n.pending.Some? && n.pending.value.watchdog in n.armed &&
    match e
    case Fire(t, r) => t == n.pending.value.watchdog && !r.Finishes?
    case Confirm(cancels, clears) => cancels && !clears
    case _ => false
  }

  lemma WatchedStep(n: Net, e: Event)
    ensures !Watched(Step(n, e)) <==> Unwatches(n, e) || (!Watched(n) && Step(n, e).pending.Some?)
  {
  }

  /** The k-th event left the pending change unwatched, and it has been pending ever since. */
  predicate UnwatchedAt(n: Net, es: seq<Event>, k: nat)
    requires k < |es|
  {
    Unwatches(Run(n, es[..k]), es[k]) && forall j :: k < j <= |es| ==> Run(n, es[..j]).pending.Some?
  }

  /** In a run from an idle helper, a change is pending without its watchdog exactly when an event stopped halfway. */
  lemma {:induction false} UnwatchedIff(n: Net, es: seq<Event>)
    requires n.pending.None?
    ensures !Watched(Run(n, es)) <==> exists k: nat :: k < |es| && UnwatchedAt(n, es, k)
    decreases |es|
  {
    if |es| > 0 {
      var init, e := es[..|es| - 1], es[|es| - 1];
      assert es == init + [e];
      RunLast(n, init, e);
      UnwatchedIff(n, init);
      WatchedStep(Run(n, init), e);
      assert es[..|init|] == init && es[..|es|] == es;
      assert UnwatchedAt(n, es, |init|) <==> Unwatches(Run(n, init), e) && Run(n, es).pending.Some?;
      forall k: nat | k < |init|
        ensures UnwatchedAt(n, es, k) <==> UnwatchedAt(n, init, k) && Run(n, es).pending.Some?
      {
        assert es[..k] == init[..k] && es[k] == init[k];
        assert forall j :: k < j <= |init| ==> es[..j] == init[..j];
      }
    }
  }

  /** The events that stop halfway. */
  predicate StopsHalfway(e: Event) { (e.Fire? && !e.rollback.Finishes?) || (e.Confirm? && e.cancels && !e.clears) }

  /** In every run without them, a pending change has its watchdog armed. */
  lemma {:induction false} PendingIsWatched(n: Net, es: seq<Event>)
    requires Watched(n) && forall k :: 0 <= k < |es| ==> !StopsHalfway(es[k])
    ensures Watched(Run(n, es))
    decreases |es|
  {
    if es != [] {
      assert !StopsHalfway(es[0]);
      WatchedStep(n, es[0]);
      PendingIsWatched(Step(n, es[0]), es[1..]);
    }
  }

  predicate NoneClears(es: seq<Event>) { forall i :: 0 <= i < |es| ==> !(es[i].Confirm? && es[i].clears) }

  /**
   With no timer armed a pending change stays pending, and every further apply is refused, until a
   confirmation clears it; the files change only by edits.
   */
  lemma {:induction false} UnwatchedStays(n: Net, es: seq<Event>)
    requires n.pending.Some? && n.armed == {} && Allowed(n, es) && NoneClears(es)
    ensures Run(n, es) == Net(Edited(n.files, es), n.pending, {})
    decreases |es|
  {
    if es != [] {
      assert !(es[0].Confirm? && es[0].clears);
      UnwatchedStays(Step(n, es[0]), es[1..]);
    }
  }

  // ----- exact restoration -----

  /** No file of the backend appeared since the snapshot, besides the staged one. */
  predicate NothingAdded(files: Files, c: Change) {
    forall p :: p in files && InScope(c.backend, p) && p !in c.snapshot ==> p == StagedPath(c.backend, c.interface)
  }

  predicate ScopedSnapshot(c: Change) { forall p :: p in c.snapshot ==> InScope(c.backend, p) }

  /** Some write that failed left something else than the snapshotted text. */
  predicate Harmed(snapshot: Files, damage: Damage) {
    exists p :: p in snapshot && p in damage && damage[p] != Some(snapshot[p])
  }

  /** A new staged file is there and stays. */
  predicate StagedRemains(files: Files, c: Change, r: Rollback) {
    var staged := StagedPath(c.backend, c.interface);
    r.StopsBeforeRemoval? && staged in files && staged !in c.snapshot
  }

  lemma RolledBackAt(files: Files, c: Change, r: Rollback, p: Path)
    ensures Lookup(RolledBack(files, c, r), p)
            == if p in c.snapshot then Written(c, r.damage, p)
               else if p == StagedPath(c.backend, c.interface) && !r.StopsBeforeRemoval? then None
               else Lookup(files, p)
  {
  }

  /**
   A rollback brings the backend's files back to the snapshot exactly when nothing else was added
   to them, no failed write left anything else and the staged file was removed.
   */
  lemma RestoredExactlyIff(files: Files, c: Change, r: Rollback)
    requires ScopedSnapshot(c)
    ensures ScopeOf(c.backend, RolledBack(files, c, r)) == c.snapshot
            <==> NothingAdded(files, c) && !Harmed(c.snapshot, r.damage) && !StagedRemains(files, c, r)
    ensures forall p :: !InScope(c.backend, p) ==> Lookup(RolledBack(files, c, r), p) == Lookup(files, p)
    ensures forall p :: p in c.snapshot && p !in r.damage ==>
                          Lookup(RolledBack(files, c, r), p) == Some(c.snapshot[p])
  {
    var scoped := ScopeOf(c.backend, RolledBack(files, c, r));
    forall p
      ensures !InScope(c.backend, p) ==> Lookup(RolledBack(files, c, r), p) == Lookup(files, p)
      ensures p in c.snapshot ==> Lookup(scoped, p) == Written(c, r.damage, p)
      ensures p !in c.snapshot && InScope(c.backend, p) ==>
                Lookup(scoped, p)
                == if p == StagedPath(c.backend, c.interface) && !r.StopsBeforeRemoval? then None else Lookup(files, p)
    {
      RolledBackAt(files, c, r, p);
    }
    if NothingAdded(files, c) && !Harmed(c.snapshot, r.damage) && !StagedRemains(files, c, r) {
      forall p
        ensures Lookup(scoped, p) == Lookup(c.snapshot, p)
      {
      }
      SameEntries(scoped, c.snapshot);
    }
  }

  ghost predicate Restorable(n: Net) {
    n.pending.Some? ==> ScopedSnapshot(n.pending.value) && NothingAdded(n.files, n.pending.value)
  }

  /** An administrator's edit that adds no file to the pending change's backend. */
  predicate Harmless(n: Net, e: Event) {
    e.Edit? && e.text.Some? && n.pending.Some? && InScope(n.pending.value.backend, e.path) ==> e.path in n.files
  }

  predicate AllHarmless(n: Net, es: seq<Event>)
    decreases |es|
  {
    es != [] ==> Harmless(n, es[0]) && AllHarmless(Step(n, es[0]), es[1..])
  }

  lemma RollingBackAddsNothing(files: Files, c: Change, r: Rollback)
    requires NothingAdded(files, c)
    ensures NothingAdded(RolledBack(files, c, r), c)
  {
    forall p | p in RolledBack(files, c, r) && InScope(c.backend, p) && p !in c.snapshot
      ensures p == StagedPath(c.backend, c.interface)
    {
      RolledBackAt(files, c, r, p);
    }
  }

  lemma StagingAddsNothing(files: Files, b: Backend, i: string, content: string, t: string)
    ensures var c := Change(b, i, ScopeOf(b, files), t);
            ScopedSnapshot(c) && NothingAdded(Staged(files, b, i, content), c)
  {
  }

  lemma RestorableStep(n: Net, e: Event)
    requires Restorable(n) && Harmless(n, e)
    ensures Restorable(Step(n, e))
  {
    match e
    case Apply(b, i, content, t, outcome) =>
      if n.pending.None? {
        var c := Change(b, i, ScopeOf(b, n.files), t);
        StagingAddsNothing(n.files, b, i, content, t);
        if outcome.LiveApplyFails? {
          RollingBackAddsNothing(Staged(n.files, b, i, content), c, outcome.rollback);
        }
      }
    case Fire(_, r) => if n.pending.Some? { RollingBackAddsNothing(n.files, n.pending.value, r); }
    case Confirm(_, _) =>
    case Edit(_, _) =>
  }

  lemma {:induction false} PendingIsRestorable(n: Net, es: seq<Event>)
    requires Restorable(n) && AllHarmless(n, es)
    ensures Restorable(Run(n, es))
    decreases |es|
  {
    if es != [] {
      RestorableStep(n, es[0]);
      PendingIsRestorable(Step(n, es[0]), es[1..]);
    }
  }

  predicate KeepsPending(n: Net, es: seq<Event>)
    decreases |es|
  {
    n.pending.Some? && (es != [] ==> KeepsPending(Step(n, es[0]), es[1..]))
  }

  lemma {:induction false} SameChangePending(n: Net, es: seq<Event>)
    requires KeepsPending(n, es)
    ensures Run(n, es).pending == n.pending
    decreases |es|
  {
    if es != [] {
      SameChangePending(Step(n, es[0]), es[1..]);
    }
  }

  lemma RecordedChange(n: Net, apply: Event)
    requires n.pending.None? && apply.Apply? && Step(n, apply).pending.Some?
    ensures Step(n, apply).pending.value
            == Change(apply.backend, apply.interface, ScopeOf(apply.backend, n.files), apply.timer)
  {
  }

  lemma FiringRollsBack(n: Net, c: Change, t: string, r: Rollback)
    requires n.pending == Some(c) && Restorable(n)
    ensures var after := Step(n, Fire(t, r));
            && (after.pending.None? <==> r.Finishes?)
            && (ScopeOf(c.backend, after.files) == c.snapshot
                <==> !Harmed(c.snapshot, r.damage) && !StagedRemains(n.files, c, r))
  {
    RestoredExactlyIff(n.files, c, r);
  }

  /**
   From an idle state, apply a change and let anything happen while it is pending, short of adding
   files to its backend. Whichever timer fires then, its own or a stale one, the backend's files are
   again those from before the change if and only if no failed write left something else and a new
   staged file was removed; the change is over exactly when the rollback finishes.
   */
  lemma FiringRestores(n: Net, apply: Event, es: seq<Event>, t: string, r: Rollback)
    requires n.pending.None? && apply.Apply? && Step(n, apply).pending.Some?
    requires var n1 := Step(n, apply);
             AllHarmless(n1, es) && KeepsPending(n1, es) && t in Run(n1, es).armed
    ensures var last := Run(Step(n, apply), es);
            var after := Step(last, Fire(t, r));
            && last.pending.Some?
            && (after.pending.None? <==> r.Finishes?)
            && (ScopeOf(apply.backend, after.files) == ScopeOf(apply.backend, n.files)
                <==> !Harmed(ScopeOf(apply.backend, n.files), r.damage)
                     && !StagedRemains(last.files, last.pending.value, r))
  {
    var n1 := Step(n, apply);
    RecordedChange(n, apply);
    RestorableStep(n, apply);
    PendingIsRestorable(n1, es);
    SameChangePending(n1, es);
    FiringRollsBack(Run(n1, es), n1.pending.value, t, r);
  }

  // ----- confirmed changes -----

  predicate NoApply(es: seq<Event>) { forall i :: 0 <= i < |es| ==> !es[i].Apply? }

  /** Once confirmed and until the next apply, no firing or confirmation touches the files: only edits do. */
  lemma {:induction false} ConfirmedStays(n: Net, es: seq<Event>)
    requires n.pending.None? && NoApply(es)
    ensures Run(n, es).files == Edited(n.files, es) && Run(n, es).pending.None?
    decreases |es|
  {
    if es != [] {
      assert !es[0].Apply?;
      ConfirmedStays(Step(n, es[0]), es[1..]);
    }
  }

  // ----- timers that outlive their change -----

  /** The armed timers that are not the pending change's own. */
  function Foreign(n: Net): set<string> {
    n.armed - (if n.pending.Some? then {n.pending.value.watchdog} else {})
  }

  /** A timer's firing, with a rollback that finishes, would end the pending change. */
  ghost predicate Ends(n: Net, t: string) {
    n.pending.Some? && exists r :: Enabled(n, Fire(t, r)) && Step(n, Fire(t, r)).pending.None?
  }

  lemma EndsIff(n: Net, t: string)
    ensures Ends(n, t) <==> n.pending.Some? && t in n.armed
  {
    if n.pending.Some? && t in n.armed {
      var e := Fire(t, Finishes(map[]));
      assert Enabled(n, e) && Step(n, e).pending.None?;
    }
  }

  /** A firing can only end a pending change from its own watchdog exactly when no other timer is armed. */
  lemma OnlyOwnWatchdogIff(n: Net)
    requires n.pending.Some?
    ensures (forall t :: Ends(n, t) ==> t == n.pending.value.watchdog) <==> n.armed <= {n.pending.value.watchdog}
  {
    forall t
      ensures Ends(n, t) <==> t in n.armed
    {
      EndsIff(n, t);
    }
  }

  /**
   The events that leave a timer armed behind them: an apply that fails once its timer is armed and
   leaves nothing pending, a confirmation that cannot cancel, and a foreign firing, which the own
   watchdog outlives.
   */
  predicate Leaves(n: Net, e: Event, t: string) {
    match e
    case Apply(_, _, _, u, outcome) => n.pending.None? && LeavesTimer(outcome) && u == t
    case Confirm(cancels, clears) => OwnTimer(n, t) && !cancels && clears
    case Fire(u, r) => OwnTimer(n, t) && u != t && r.Finishes?
    case Edit(_, _) => false
  }

  predicate OwnTimer(n: Net, t: string) { n.pending.Some? && n.pending.value.watchdog == t && t in n.armed }

  /** The state file could not be written, or the live half failed and was rolled back. */
  predicate LeavesTimer(outcome: ApplyOutcome) {
    outcome.StateNotWritten? || (outcome.LiveApplyFails? && outcome.rollback.Finishes?)
  }

  lemma ForeignStep(n: Net, e: Event, t: string)
    requires Enabled(n, e)
    ensures t in Foreign(Step(n, e)) <==> Leaves(n, e, t) || (t in Foreign(n) && !FiresTimer(e, t))
  {
  }

  /** The k-th event left t armed, and t has not fired since. */
  predicate LeftAt(n: Net, es: seq<Event>, t: string, k: nat)
    requires k < |es|
  {
    Leaves(Run(n, es[..k]), es[k], t) && forall j :: k < j < |es| ==> !FiresTimer(es[j], t)
  }

  /** In a run from an idle helper, the foreign timers are exactly those some event left and none has fired since. */
  lemma {:induction false} ForeignIff(n: Net, es: seq<Event>, t: string)
    requires n.pending.None? && n.armed == {} && Allowed(n, es)
    ensures t in Foreign(Run(n, es)) <==> exists k: nat :: k < |es| && LeftAt(n, es, t, k)
    decreases |es|
  {
    if |es| > 0 {
      var init, e := es[..|es| - 1], es[|es| - 1];
      assert es == init + [e];
      RunLast(n, init, e);
      ForeignIff(n, init, t);
      ForeignStep(Run(n, init), e, t);
      assert es[..|init|] == init;
      assert LeftAt(n, es, t, |init|) <==> Leaves(Run(n, init), e, t);
      forall k: nat | k < |init|
        ensures LeftAt(n, es, t, k) <==> LeftAt(n, init, t, k) && !FiresTimer(e, t)
      {
        assert es[..k] == init[..k] && es[k] == init[k];
        assert forall j :: k < j < |init| ==> es[j] == init[j];
        assert es[|init|] == e;
      }
    }
  }

  /**
   A pending change can be ended by a timer that is not its own exactly when an earlier event
   left a timer that has not fired since.
   */
  lemma EarlyRollbackIff(n: Net, es: seq<Event>)
    requires n.pending.None? && n.armed == {} && Allowed(n, es) && Run(n, es).pending.Some?
    ensures var now := Run(n, es);
            (exists t :: t != now.pending.value.watchdog && Ends(now, t))
            <==> exists t: string, k: nat :: k < |es| && LeftAt(n, es, t, k)
  {
    var now := Run(n, es);
    if t :| t != now.pending.value.watchdog && Ends(now, t) {
      EndsIff(now, t);
      ForeignIff(n, es, t);
      var k: nat :| k < |es| && LeftAt(n, es, t, k);
    }
    if t: string, k: nat :| k < |es| && LeftAt(n, es, t, k) {
      ForeignIff(n, es, t);
      EndsIff(now, t);
    }
  }

  /** An apply that leaves its timer, or a confirmation that could not cancel. */
  predicate Leaky(e: Event) {
    (e.Apply? && LeavesTimer(e.outcome)) || (e.Confirm? && !e.cancels && e.clears)
  }

  /** A stale firing only ever follows one of these. */
  lemma {:induction false} WithoutLeaksOwnTimersOnly(n: Net, es: seq<Event>)
    requires Foreign(n) == {} && Allowed(n, es)
    requires forall k :: 0 <= k < |es| ==> !Leaky(es[k])
    ensures Foreign(Run(n, es)) == {}
    decreases |es|
  {
    if |es| > 0 {
      assert !Leaky(es[0]);
      assert es[0].Fire? && n.pending.Some? ==> es[0].timer !in Foreign(n);
      forall t
        ensures t !in Foreign(Step(n, es[0]))
      {
        ForeignStep(n, es[0], t);
      }
      WithoutLeaksOwnTimersOnly(Step(n, es[0]), es[1..]);
    }
  }

  /** A timer left over from an apply that failed rolls back the next change before its own watchdog is due. */
  lemma StaleTimerEndsNextChange(n: Net, b: Backend, i: string, first: string, second: string, t: string, u: string,
                                 outcome: ApplyOutcome)
    requires n.pending.None? && t !in n.armed && u !in n.armed && t != u && LeavesTimer(outcome)
    ensures var es := [Apply(b, i, first, t, outcome), Apply(b, i, second, u, Applied)];
            Allowed(n, es) && Run(n, es).pending.Some? && Ends(Run(n, es), t)
            && forall r :: u in Step(Run(n, es), Fire(t, r)).armed
  {
    var e, f := Apply(b, i, first, t, outcome), Apply(b, i, second, u, Applied);
    var n1 := Step(n, e);
    assert [e, f][1..] == [f] && [f][1..] == [];
    assert Run(n, [e, f]) == Run(n1, [f]) == Run(Step(n1, f), []) == Step(n1, f);
    assert Allowed(Step(n1, f), []);
    EndsIff(Step(n1, f), t);
  }

  // ----- an apply that does not succeed -----

  /** Staging this content would change no file. */
  predicate AlreadyStaged(files: Files, b: Backend, interface: string, content: string) {
    && StagedPath(b, interface) in files && files[StagedPath(b, interface)] == content
    && (b.Ifupdown? && Interfaces in files ==> Sources(files[Interfaces]))
  }

  lemma StagedUnchangedIff(files: Files, b: Backend, interface: string, content: string)
    ensures Staged(files, b, interface, content) == files <==> AlreadyStaged(files, b, interface, content)
  {
    var after := Staged(files, b, interface, content);
    assert StagedPath(b, interface) in after && after[StagedPath(b, interface)] == content;
    if Interfaces in files && after[Interfaces] != files[Interfaces] { assert after != files; }
    if AlreadyStaged(files, b, interface, content) { assert files[StagedPath(b, interface) := content] == files; }
  }

  /** Rolling back what was just staged: the files are as before unless a write failed or the staged file stays. */
  lemma StagedUndoneIff(files: Files, b: Backend, i: string, content: string, t: string, r: Rollback)
    ensures var c := Change(b, i, ScopeOf(b, files), t);
            RolledBack(Staged(files, b, i, content), c, r) == files
            <==> !Harmed(ScopeOf(b, files), r.damage) && !(r.StopsBeforeRemoval? && StagedPath(b, i) !in files)
  {
    var c := Change(b, i, ScopeOf(b, files), t);
    var after := RolledBack(Staged(files, b, i, content), c, r);
    forall p
      ensures p in c.snapshot ==> Lookup(after, p) == Written(c, r.damage, p)
      ensures p !in c.snapshot ==>
                Lookup(after, p)
                == if p == StagedPath(b, i) then if r.StopsBeforeRemoval? then Some(content) else None
                   else Lookup(files, p)
    {
      RolledBackAt(Staged(files, b, i, content), c, r, p);
    }
    if !Harmed(c.snapshot, r.damage) && !(r.StopsBeforeRemoval? && StagedPath(b, i) !in files) {
      forall p
        ensures Lookup(after, p) == Lookup(files, p)
      {
      }
      SameEntries(after, files);
    }
    if r.StopsBeforeRemoval? && StagedPath(b, i) !in files {
      assert StagedPath(b, i) in after;
    }
    if Harmed(c.snapshot, r.damage) {
      var p :| p in c.snapshot && p in r.damage && r.damage[p] != Some(c.snapshot[p]);
      assert Lookup(after, p) != Lookup(files, p);
    }
  }

  /** What it takes for the files to be as before, by how the apply failed. */
  predicate FilesKept(files: Files, b: Backend, i: string, content: string, outcome: ApplyOutcome) {
    match outcome
    case LiveApplyFails(r) =>
      !Harmed(ScopeOf(b, files), r.damage) && !(r.StopsBeforeRemoval? && StagedPath(b, i) !in files)
    case StagingFails(partial) => forall p :: p in partial ==> Lookup(files, p) == Some(partial[p])
    case _ => AlreadyStaged(files, b, i, content)
  }

  /**
   An apply that does not succeed leaves a change pending exactly when something interrupted it, or
   its rollback, once the state file was in place; it leaves the files as they were exactly when
   its rollback restored them, or when nothing it wrote was new.
   */
  lemma FailedApplyUndoneIff(n: Net, b: Backend, i: string, content: string, t: string, outcome: ApplyOutcome)
    requires n.pending.None? && !outcome.Applied?
    ensures var after := Step(n, Apply(b, i, content, t, outcome));
            && (after.pending.Some?
                <==> outcome.Interrupted? || (outcome.LiveApplyFails? && !outcome.rollback.Finishes?))
            && (after.files == n.files <==> FilesKept(n.files, b, i, content, outcome))
  {
    StagedUnchangedIff(n.files, b, i, content);
    if outcome.LiveApplyFails? { StagedUndoneIff(n.files, b, i, content, t, outcome.rollback); }
    if outcome.StagingFails? && FilesKept(n.files, b, i, content, outcome) {
      assert n.files + outcome.partial == n.files;
    }
    if outcome.StagingFails? && n.files + outcome.partial == n.files {
      forall p | p in outcome.partial
        ensures Lookup(n.files, p) == Some(outcome.partial[p])
      {
        assert p in n.files + outcome.partial && (n.files + outcome.partial)[p] == outcome.partial[p];
      }
    }
  }

  lemma {:induction false} EditedElsewhere(files: Files, es: seq<Event>, p: Path)
    requires forall k :: 0 <= k < |es| && es[k].Edit? ==> es[k].path != p
    ensures Lookup(Edited(files, es), p) == Lookup(files, p)
    decreases |es|
  {
    if |es| > 0 {
      var next := match es[0]
        case Edit(q, text) => Put(files, q, text)
        case _ => files;
      assert Lookup(next, p) == Lookup(files, p);
      EditedElsewhere(next, es[1..], p);
    }
  }

  lemma FailureState(n: Net, b: Backend, i: string, content: string, t: string, outcome: ApplyOutcome)
    requires n.pending.None? && (outcome.TimerFails? || outcome.StateNotWritten?)
    ensures var after := Step(n, Apply(b, i, content, t, outcome));
            after.pending.None? && Lookup(after.files, StagedPath(b, i)) == Some(content)
  {
    StagedAt(n.files, b, i, content);
  }

  /**
   An apply whose timer cannot be started, or whose state file cannot be written, leaves the staged
   file behind for good: no later firing or confirmation removes it, until the next apply or an edit
   of that very file.
   */
  lemma FailureLeavesStagedFile(n: Net, b: Backend, i: string, content: string, t: string, outcome: ApplyOutcome,
                                es: seq<Event>)
    requires n.pending.None? && NoApply(es) && (outcome.TimerFails? || outcome.StateNotWritten?)
    requires forall k :: 0 <= k < |es| && es[k].Edit? ==> es[k].path != StagedPath(b, i)
    ensures var later := Run(Step(n, Apply(b, i, content, t, outcome)), es);
            later.pending.None? && Lookup(later.files, StagedPath(b, i)) == Some(content)
  {
    FailureState(n, b, i, content, t, outcome);
    StaysAt(Step(n, Apply(b, i, content, t, outcome)), StagedPath(b, i), es, Some(content));
  }

  lemma StagedAt(files: Files, b: Backend, interface: string, content: string)
    ensures Lookup(Staged(files, b, interface, content), StagedPath(b, interface)) == Some(content)
  {
  }

  lemma StaysAt(n: Net, p: Path, es: seq<Event>, text: Option<string>)
    requires n.pending.None? && NoApply(es) && Lookup(n.files, p) == text
    requires forall k :: 0 <= k < |es| && es[k].Edit? ==> es[k].path != p
    ensures Run(n, es).pending.None? && Lookup(Run(n, es).files, p) == text
  {
    ConfirmedStays(n, es);
    EditedElsewhere(n.files, es, p);
  }

  // ----- a change that is applied and confirmed -----

  /** Nothing that ends a pending change, and no edit of one file. */
  predicate LeavesPending(es: seq<Event>, p: Path) {
    forall k :: 0 <= k < |es| ==>
                  !es[k].Fire? && !(es[k].Confirm? && es[k].clears) && (es[k].Edit? ==> es[k].path != p)
  }

  lemma {:induction false} PendingKeepsFile(n: Net, es: seq<Event>, p: Path, text: Option<string>)
    requires n.pending.Some? && LeavesPending(es, p) && Lookup(n.files, p) == text
    ensures Run(n, es).pending == n.pending && Lookup(Run(n, es).files, p) == text
    decreases |es|
  {
    if |es| > 0 {
      var e := es[0];
      assert !e.Fire? && !(e.Confirm? && e.clears) && (e.Edit? ==> e.path != p);
      PendingKeepsFile(Step(n, e), es[1..], p, text);
    }
  }

  lemma AppliedState(n: Net, b: Backend, i: string, content: string, t: string)
    requires n.pending.None?
    ensures var after := Step(n, Apply(b, i, content, t, Applied));
            && after.pending == Some(Change(b, i, ScopeOf(b, n.files), t)) && after.armed == n.armed + {t}
            && Lookup(after.files, StagedPath(b, i)) == Some(content)
  {
    StagedAt(n.files, b, i, content);
  }

  lemma ClearedState(n: Net, cancels: bool)
    requires n.pending.Some?
    ensures var after := Step(n, Confirm(cancels, true));
            && after.pending.None? && after.files == n.files
            && after.armed == if cancels then n.armed - {n.pending.value.watchdog} else n.armed
  {
  }

  /**
   A change that is applied and then confirmed before any timer fires is there for good: whatever
   happens while it is pending and afterwards, its file keeps the content until the next apply or
   an edit of that file.
   */
  lemma ConfirmedChangeStays(n: Net, b: Backend, i: string, content: string, t: string, es: seq<Event>, cancels: bool,
                             later: seq<Event>)
    requires n.pending.None? && LeavesPending(es, StagedPath(b, i)) && NoApply(later)
    requires forall k :: 0 <= k < |later| && later[k].Edit? ==> later[k].path != StagedPath(b, i)
    ensures var applied := Step(n, Apply(b, i, content, t, Applied));
            var confirmed := Step(Run(applied, es), Confirm(cancels, true));
            && applied.pending.Some? && Run(applied, es).pending == applied.pending
            && Run(confirmed, later).pending.None?
            && Lookup(Run(confirmed, later).files, StagedPath(b, i)) == Some(content)
  {
    var applied := Step(n, Apply(b, i, content, t, Applied));
    AppliedState(n, b, i, content, t);
    PendingKeepsFile(applied, es, StagedPath(b, i), Some(content));
    ClearedState(Run(applied, es), cancels);
    StaysAt(Step(Run(applied, es), Confirm(cancels, true)), StagedPath(b, i), later, Some(content));
  }

  /** Without a pending change a file holds what its last edit put there. */
  lemma {:induction false} LastEditShows(n: Net, es: seq<Event>, k: nat, p: Path, text: Option<string>)
    requires n.pending.None? && NoApply(es) && k < |es| && es[k] == Edit(p, text)
    requires forall j :: k < j < |es| && es[j].Edit? ==> es[j].path != p
    ensures Lookup(Run(n, es).files, p) == text
    decreases k
  {
    var next := Step(n, es[0]);
    assert !es[0].Apply?;
    if k == 0 {
      StaysAt(next, p, es[1..], text);
    } else {
      LastEditShows(next, es[1..], k - 1, p, text);
    }
  }

  // ----- the helper, changing files and state in place -----

  /** All snapshotted files but those of `todo` have been written. */
  predicate WrittenUpTo(before: Files, files: Files, c: Change, damage: Damage, todo: set<Path>) {
    && (forall p :: p in before.Keys + files.Keys && (p !in c.snapshot || p in todo) ==>
          Lookup(files, p) == Lookup(before, p))
    && (forall p :: p in c.snapshot && p !in todo ==> Lookup(files, p) == Written(c, damage, p))
  }

  lemma AllWritten(before: Files, files: Files, c: Change, damage: Damage)
    requires WrittenUpTo(before, files, c, damage, {})
    ensures files == WrittenBack(before, c, damage)
  {
    forall p
      ensures Lookup(files, p) == Lookup(WrittenBack(before, c, damage), p)
    {
    }
    SameEntries(files, WrittenBack(before, c, damage));
  }

  lemma OneMoreWritten(before: Files, files: Files, c: Change, damage: Damage, todo: set<Path>, p: Path)
    requires WrittenUpTo(before, files, c, damage, todo) && p in todo && p in c.snapshot
    ensures WrittenUpTo(before, Put(files, p, Written(c, damage, p)), c, damage, todo - {p})
  {
  }

  class Helper {
    var files: Files
    var pending: Option<Change>
    var armed: set<string>

    constructor (initial: Files)
      ensures View() == Net(initial, None, {})
    {
      files, pending, armed := initial, None, {};
    }

    function View(): Net
      reads this
    {
      Net(files, pending, armed)
    }

    /** Writes the snapshot back file by file, passing over writes that fail. */
    method RestoreFiles(c: Change, damage: Damage)
      modifies `files
      ensures files == WrittenBack(old(files), c, damage)
    {
      var todo := c.snapshot.Keys;
      while todo != {}
        invariant todo <= c.snapshot.Keys && WrittenUpTo(old(files), files, c, damage, todo)
        decreases |todo|
      {
        var p :| p in todo;
        OneMoreWritten(old(files), files, c, damage, todo, p);
        files := Put(files, p, Written(c, damage, p));
        todo := todo - {p};
      }
      AllWritten(old(files), files, c, damage);
    }

    /** Restores the files, then removes a new staged file; false when an error ends it early. */
    method PerformRollback(c: Change, r: Rollback) returns (ok: bool)
      modifies this
      ensures View() == Net(RolledBack(old(files), c, r), if r.Finishes? then None else old(pending), old(armed))
      ensures ok == r.Finishes?
    {
      RestoreFiles(c, r.damage);
      if r.StopsBeforeRemoval? { return false; }
      var staged := StagedPath(c.backend, c.interface);
      if staged !in c.snapshot && staged in files { files := files - {staged}; }
      if r.StopsAfterRemoval? { return false; }
      pending := None;
      ok := true;
    }

    /** False when the change was refused or failed. */
    method ApplyChange(b: Backend, interface: string, content: string, timer: string, outcome: ApplyOutcome)
      returns (ok: bool)
      requires Enabled(View(), Apply(b, interface, content, timer, outcome))
      modifies this
      ensures View() == Step(old(View()), Apply(b, interface, content, timer, outcome))
      ensures ok == (old(pending).None? && outcome.Applied?)
    {
      if pending.Some? { return false; }
      var c := Change(b, interface, ScopeOf(b, files), timer);
      if outcome.StagingFails? {
        files := files + outcome.partial;
        return false;
      }
      files := Staged(files, b, interface, content);
      if outcome.TimerFails? { return false; }
      armed := armed + {timer};
      if outcome.StateNotWritten? { return false; }
      pending := Some(c);
      if outcome.LiveApplyFails? {
        var _ := PerformRollback(c, outcome.rollback);
        return false;
      }
      ok := outcome.Applied?;
    }

    method RollbackCheck(timer: string, r: Rollback)
      requires timer in armed
      modifies this
      ensures View() == Step(old(View()), Fire(timer, r))
    {
      armed := armed - {timer};
      if pending.Some? { var _ := PerformRollback(pending.value, r); }
    }

    /** False when nothing was pending or the state file could not be removed. */
    method ConfirmChange(cancels: bool, clears: bool) returns (ok: bool)
      modifies this
      ensures View() == Step(old(View()), Confirm(cancels, clears)) && ok == (old(pending).Some? && clears)
    {
      if pending.None? { return false; }
      if cancels { armed := armed - {pending.value.watchdog}; }
      if !clears { return false; }
      pending := None;
      ok := true;
    }
  }
}
