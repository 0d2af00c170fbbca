/**
 The file side of a restore (app/backup.py, _replace_path and _rollback_paths): each
 target is moved aside and replaced, and the log of moves is undone in reverse.
 A file system is its files; a directory exists while some file lies at or below it.
 */
module UndoLog {
  import opened Wrappers

  type Path = seq<string>

  type Files = map<Path, string>

  predicate Under(p: Path, root: Path) { |root| <= |p| && p[..|root|] == root }

  predicate Exists(fs: Files, root: Path) { exists p :: p in fs && Under(p, root) }

  function Below(fs: Files, root: Path): Files {
    map p | p in fs && Under(p, root) :: fs[p]
  }

  function Without(fs: Files, root: Path): Files {
    map p | p in fs && !Under(p, root) :: fs[p]
  }

  /** The files below one root, carried to another. */
  function Carried(fs: Files, from: Path, to: Path): Files {
    var places := set p | p in fs && Under(p, from) :: to + p[|from|..];
    CarriedBack(fs, from, to);
    map q | q in places :: fs[from + q[|to|..]]
  }

  lemma CarriedBack(fs: Files, from: Path, to: Path)
    ensures forall q | q in set p | p in fs && Under(p, from) :: to + p[|from|..] ::
              Under(q, to) && from + q[|to|..] in fs
  {
    forall p | p in fs && Under(p, from)
      ensures from + (to + p[|from|..])[|to|..] == p && Under(to + p[|from|..], to)
    {
    }
  }

  /** shutil.move of a file or directory to a place where nothing is. */
  function Moved(fs: Files, from: Path, to: Path): Files {
    Without(fs, from) + Carried(fs, from, to)
  }

  /** One entry of the log: the target, and where its content went, if it had any. */
  datatype Entry = Entry(live: Path, backup: Option<Path>)

  /** Neither lies at or below the other. */
  predicate Apart(a: Path, b: Path) { !Under(a, b) && !Under(b, a) }

  // ----- one replacement and its undoing -----

  /** _replace_path: move the old content aside, then copy `staged` (possibly only part of it) to the target. */
  function Replaced(fs: Files, live: Path, backup: Path, copied: Files): Files {
    (if Exists(fs, live) then Moved(fs, live, backup) else fs) + copied
  }

  function LogEntry(fs: Files, live: Path, backup: Path): Entry {
    Entry(live, if Exists(fs, live) then Some(backup) else None)
  }

  /** One turn of _rollback_paths: remove what is at the target, move the backup back. */
  function Undone(fs: Files, e: Entry): Files {
    var cleared := Without(fs, e.live);
    if e.backup.Some? && Exists(cleared, e.backup.value) then Moved(cleared, e.backup.value, e.live) else cleared
  }

  predicate CopiedBelow(copied: Files, live: Path) {
    forall p :: p in copied ==> Under(p, live)
  }

  lemma CarriedAt(fs: Files, from: Path, to: Path, q: Path)
    ensures Lookup(Carried(fs, from, to), q) == if Under(q, to) then Lookup(fs, from + q[|to|..]) else None
  {
    CarriedBack(fs, from, to);
    if Under(q, to) && from + q[|to|..] in fs {
      var p := from + q[|to|..];
      assert Under(p, from) && to + p[|from|..] == q;
    }
  }

  lemma MovedAt(fs: Files, from: Path, to: Path, q: Path)
    requires Apart(from, to)
    ensures Lookup(Moved(fs, from, to), q)
            == if Under(q, from) then None
               else if Under(q, to) && from + q[|to|..] in fs then Some(fs[from + q[|to|..]])
               else Lookup(fs, q)
  {
    CarriedAt(fs, from, to, q);
    ApartDisjoint(from, to, q);
  }

  lemma UnderComparable(q: Path, a: Path, b: Path)
    requires Under(q, a) && Under(q, b)
    ensures Under(a, b) || Under(b, a)
  {
    if |a| <= |b| {
      assert b[..|a|] == q[..|b|][..|a|] == q[..|a|];
    } else {
      assert a[..|b|] == q[..|a|][..|b|] == q[..|b|];
    }
  }

  lemma ApartDisjoint(a: Path, b: Path, q: Path)
    requires Apart(a, b)
    ensures !(Under(q, a) && Under(q, b))
  {
    if Under(q, a) && Under(q, b) {
      UnderComparable(q, a, b);
    }
  }

  lemma BackAndForth(a: Path, b: Path, q: Path)
    requires Under(q, a)
    ensures Under(b + q[|a|..], b) && a + (b + q[|a|..])[|b|..] == q
  {
  }

  lemma ClearedAt(fs: Files, live: Path, backup: Path, copied: Files, q: Path)
    requires Apart(live, backup) && !Exists(fs, backup) && CopiedBelow(copied, live) && Exists(fs, live)
    ensures Lookup(Without(Replaced(fs, live, backup, copied), live), q)
            == if Under(q, backup) then Lookup(fs, live + q[|backup|..])
               else if Under(q, live) then None else Lookup(fs, q)
  {
    MovedAt(fs, live, backup, q);
    ApartDisjoint(live, backup, q);
    assert q in fs ==> !Under(q, backup);
  }

  lemma UndoneAt(fs: Files, live: Path, backup: Path, copied: Files, q: Path)
    requires Apart(live, backup) && !Exists(fs, backup) && CopiedBelow(copied, live) && Exists(fs, live)
    ensures var cleared := Without(Replaced(fs, live, backup, copied), live);
            Lookup(Moved(cleared, backup, live), q) == Lookup(fs, q)
  {
    var cleared := Without(Replaced(fs, live, backup, copied), live);
    MovedAt(cleared, backup, live, q);
    ClearedAt(fs, live, backup, copied, q);
    ApartDisjoint(live, backup, q);
    assert q in fs ==> !Under(q, backup);
    if Under(q, live) {
      BackAndForth(live, backup, q);
      ClearedAt(fs, live, backup, copied, backup + q[|live|..]);
    }
  }

  lemma BackupSurvives(fs: Files, live: Path, backup: Path, copied: Files)
    requires Apart(live, backup) && !Exists(fs, backup) && CopiedBelow(copied, live) && Exists(fs, live)
    ensures Exists(Without(Replaced(fs, live, backup, copied), live), backup)
  {
    var cleared := Without(Replaced(fs, live, backup, copied), live);
    var p :| p in fs && Under(p, live);
    BackAndForth(live, backup, p);
    ClearedAt(fs, live, backup, copied, backup + p[|live|..]);
    assert Lookup(cleared, backup + p[|live|..]) == Some(fs[p]);
  }

  lemma MovedBack(fs: Files, live: Path, backup: Path, copied: Files)
    requires Apart(live, backup) && !Exists(fs, backup) && CopiedBelow(copied, live) && Exists(fs, live)
    ensures Moved(Without(Replaced(fs, live, backup, copied), live), backup, live) == fs
  {
    var restored := Moved(Without(Replaced(fs, live, backup, copied), live), backup, live);
    forall q
      ensures Lookup(restored, q) == Lookup(fs, q)
    {
      UndoneAt(fs, live, backup, copied, q);
    }
    SameEntries(restored, fs);
  }

  /** Undoing a replacement restores every file, whatever was copied to the target meanwhile. */
  lemma UndoReplaced(fs: Files, live: Path, backup: Path, copied: Files)
    requires Apart(live, backup) && !Exists(fs, backup) && CopiedBelow(copied, live)
    ensures Undone(Replaced(fs, live, backup, copied), LogEntry(fs, live, backup)) == fs
  {
    if Exists(fs, live) {
      BackupSurvives(fs, live, backup, copied);
      MovedBack(fs, live, backup, copied);
    } else {
      assert Without(Replaced(fs, live, backup, copied), live) == fs;
    }
  }

  // ----- what a replacement installs -----

  /** One call: the target, the backup name chosen for it, and what was copied (part of it, if interrupted). */
  datatype Replacement = Replacement(live: Path, backup: Path, copied: Files)

  lemma UnderIff(p: Path, root: Path)
    ensures Under(p, root) <==> exists s: Path :: p == root + s
  {
    if Under(p, root) { assert p == root + p[|root|..]; }
    if s: Path :| p == root + s { assert p[..|root|] == root; }
  }

  /** Neither path is at or below the other. */
  ghost predicate Unrelated(a: Path, b: Path) { forall s: Path :: a != b + s && b != a + s }

  /**
   The target holds what was staged and nothing else, its old content is found at the same places
   under the backup, and every other file is as before.
   */
  ghost predicate Installed(before: Files, after: Files, live: Path, backup: Path, staged: Files) {
    && (forall s: Path :: Lookup(after, live + s) == Lookup(staged, live + s))
    && (forall s: Path :: Lookup(after, backup + s) == Lookup(before, live + s))
    && (forall q: Path ::
          (forall s: Path :: q != live + s && q != backup + s) ==> Lookup(after, q) == Lookup(before, q))
  }

  lemma ReplacedAt(fs: Files, r: Replacement, q: Path)
    requires Apart(r.live, r.backup) && !Exists(fs, r.backup) && CopiedBelow(r.copied, r.live)
    ensures Lookup(Replaced(fs, r.live, r.backup, r.copied), q)
            == if Under(q, r.live) then Lookup(r.copied, q)
               else if Under(q, r.backup) then Lookup(fs, r.live + q[|r.backup|..])
               else Lookup(fs, q)
  {
    MovedAt(fs, r.live, r.backup, q);
    ApartDisjoint(r.live, r.backup, q);
    if Under(q, r.backup) { assert Under(r.live + q[|r.backup|..], r.live); }
  }

  lemma UnrelatedIff(a: Path, b: Path)
    ensures Unrelated(a, b) <==> Apart(a, b)
  {
    UnderIff(a, b);
    UnderIff(b, a);
  }

  lemma ReplacementInstalls(fs: Files, live: Path, backup: Path, staged: Files)
    requires Unrelated(live, backup) && (forall s: Path :: backup + s !in fs)
    requires forall p :: p in staged ==> exists s: Path :: p == live + s
    ensures Installed(fs, Replaced(fs, live, backup, staged), live, backup, staged)
  {
    var r, after := Replacement(live, backup, staged), Replaced(fs, live, backup, staged);
    UnrelatedIff(live, backup);
    forall p | p in fs
      ensures !Under(p, backup)
    {
      UnderIff(p, backup);
    }
    forall p | p in staged
      ensures Under(p, live)
    {
      UnderIff(p, live);
    }
    forall s: Path
      ensures Lookup(after, live + s) == Lookup(staged, live + s)
      ensures Lookup(after, backup + s) == Lookup(fs, live + s)
    {
      ReplacedAt(fs, r, live + s);
      ReplacedAt(fs, r, backup + s);
      ApartDisjoint(live, backup, backup + s);
      assert (backup + s)[|backup|..] == s;
    }
    forall q: Path | forall s: Path :: q != live + s && q != backup + s
      ensures Lookup(after, q) == Lookup(fs, q)
    {
      ReplacedAt(fs, r, q);
      UnderIff(q, live);
      UnderIff(q, backup);
    }
  }

  // ----- a whole restore and its rollback -----


  function ReplacedAll(fs: Files, rs: seq<Replacement>): Files {
    if rs == [] then fs else
    var last := rs[|rs| - 1];
    Replaced(ReplacedAll(fs, rs[..|rs| - 1]), last.live, last.backup, last.copied)
  }

  function Log(fs: Files, rs: seq<Replacement>): (log: seq<Entry>)
    ensures |log| == |rs|
  {
    if rs == [] then [] else
    var init, last := rs[..|rs| - 1], rs[|rs| - 1];
    Log(fs, init) + [LogEntry(ReplacedAll(fs, init), last.live, last.backup)]
  }

  /** The log undone from its last entry to its first. */
  function UndoneAll(fs: Files, log: seq<Entry>): Files
    decreases |log|
  {
    if log == [] then fs else UndoneAll(Undone(fs, log[|log| - 1]), log[..|log| - 1])
  }

  /** Backup names are distinct, unused, and apart from every target; targets may nest and repeat. */
  predicate BackupsDistinct(fs: Files, rs: seq<Replacement>) {
    && (forall i :: 0 <= i < |rs| ==> !Exists(fs, rs[i].backup) && CopiedBelow(rs[i].copied, rs[i].live))
    && (forall i, j :: 0 <= i < |rs| && 0 <= j < |rs| ==> Apart(rs[i].live, rs[j].backup))
    && (forall i, j :: 0 <= i < j < |rs| ==> Apart(rs[i].backup, rs[j].backup))
  }

  /** A replacement leaves another backup's place empty. */
  lemma StillUnused(fs: Files, r: Replacement, backup: Path)
    requires !Exists(fs, backup) && CopiedBelow(r.copied, r.live)
    requires Apart(r.live, backup) && Apart(r.backup, backup) && Apart(r.live, r.backup)
    ensures !Exists(Replaced(fs, r.live, r.backup, r.copied), backup)
  {
    forall q | Under(q, backup)
      ensures Lookup(Replaced(fs, r.live, r.backup, r.copied), q) == None
    {
      MovedAt(fs, r.live, r.backup, q);
      ApartDisjoint(r.live, backup, q);
      ApartDisjoint(r.backup, backup, q);
    }
  }

  lemma {:induction false} BackupUnused(fs: Files, rs: seq<Replacement>, backup: Path)
    requires !Exists(fs, backup)
    requires forall i :: 0 <= i < |rs| ==> Apart(rs[i].live, backup) && Apart(rs[i].backup, backup)
    requires forall i :: 0 <= i < |rs| ==> Apart(rs[i].live, rs[i].backup) && CopiedBelow(rs[i].copied, rs[i].live)
    ensures !Exists(ReplacedAll(fs, rs), backup)
  {
    if rs != [] {
      BackupUnused(fs, rs[..|rs| - 1], backup);
      StillUnused(ReplacedAll(fs, rs[..|rs| - 1]), rs[|rs| - 1], backup);
    }
  }

  /**
   After any number of replacements, nested targets included and the last copy possibly
   partial, rolling back the log gives back exactly the original files.
   */
  lemma {:induction false} RollbackRestores(fs: Files, rs: seq<Replacement>)
    requires BackupsDistinct(fs, rs)
    ensures UndoneAll(ReplacedAll(fs, rs), Log(fs, rs)) == fs
  {
    if rs != [] {
      var init, last := rs[..|rs| - 1], rs[|rs| - 1];
      BackupUnused(fs, init, last.backup);
      UndoReplaced(ReplacedAll(fs, init), last.live, last.backup, last.copied);
      RollbackRestores(fs, init);
      assert Log(fs, rs)[..|Log(fs, rs)| - 1] == Log(fs, init);
    }
  }

  lemma LastReplacedAt(fs: Files, rs: seq<Replacement>, q: Path)
    requires BackupsDistinct(fs, rs) && rs != []
    ensures var before, last := ReplacedAll(fs, rs[..|rs| - 1]), rs[|rs| - 1];
            Lookup(ReplacedAll(fs, rs), q)
            == if Under(q, last.live) then Lookup(last.copied, q)
               else if Under(q, last.backup) then Lookup(before, last.live + q[|last.backup|..])
               else Lookup(before, q)
  {
    var n := |rs| - 1;
    BackupUnused(fs, rs[..n], rs[n].backup);
    ReplacedAt(ReplacedAll(fs, rs[..n]), rs[n], q);
  }

  /** Replacements from the i-th on leave a file alone that lies outside their targets and backups. */
  lemma {:induction false} KeptByLater(fs: Files, rs: seq<Replacement>, i: nat, q: Path)
    requires BackupsDistinct(fs, rs) && i <= |rs|
    requires forall j :: i <= j < |rs| ==> !Under(q, rs[j].live) && !Under(q, rs[j].backup)
    ensures Lookup(ReplacedAll(fs, rs), q) == Lookup(ReplacedAll(fs, rs[..i]), q)
  {
    if i < |rs| {
      var init := rs[..|rs| - 1];
      KeptByLater(fs, init, i, q);
      LastReplacedAt(fs, rs, q);
      assert init[..i] == rs[..i];
    } else {
      assert rs[..i] == rs;
    }
  }

  lemma FirstReplaced(fs: Files, rs: seq<Replacement>, n: nat)
    requires BackupsDistinct(fs, rs) && n < |rs|
    ensures BackupsDistinct(fs, rs[..n + 1]) && rs[..n + 1][n] == rs[n] && rs[..n + 1][..n] == rs[..n]
  {
  }

  /** A file below a target is what the last replacement of a target covering it installed. */
  lemma InstalledByLast(fs: Files, rs: seq<Replacement>, i: nat, q: Path)
    requires BackupsDistinct(fs, rs) && i < |rs| && Under(q, rs[i].live)
    requires forall j :: i < j < |rs| ==> !Under(q, rs[j].live)
    ensures Lookup(ReplacedAll(fs, rs), q) == Lookup(rs[i].copied, q)
  {
    forall j | i < j < |rs|
      ensures !Under(q, rs[j].backup)
    {
      ApartDisjoint(rs[i].live, rs[j].backup, q);
    }
    KeptByLater(fs, rs, i + 1, q);
    FirstReplaced(fs, rs, i);
    LastReplacedAt(fs, rs[..i + 1], q);
  }

  /** What a target held when it was replaced is still under its backup after all later replacements. */
  lemma MovedAsideByAll(fs: Files, rs: seq<Replacement>, i: nat, q: Path)
    requires BackupsDistinct(fs, rs) && i < |rs| && Under(q, rs[i].backup)
    ensures Lookup(ReplacedAll(fs, rs), q) == Lookup(ReplacedAll(fs, rs[..i]), rs[i].live + q[|rs[i].backup|..])
  {
    forall j | i < j < |rs|
      ensures !Under(q, rs[j].live) && !Under(q, rs[j].backup)
    {
      ApartDisjoint(rs[j].live, rs[i].backup, q);
      ApartDisjoint(rs[i].backup, rs[j].backup, q);
    }
    KeptByLater(fs, rs, i + 1, q);
    FirstReplaced(fs, rs, i);
    LastReplacedAt(fs, rs[..i + 1], q);
    ApartDisjoint(rs[i].live, rs[i].backup, q);
  }

  /** A file outside all targets and backups is untouched. */
  lemma UntouchedByAll(fs: Files, rs: seq<Replacement>, q: Path)
    requires BackupsDistinct(fs, rs)
    requires forall j :: 0 <= j < |rs| ==> !Under(q, rs[j].live) && !Under(q, rs[j].backup)
    ensures Lookup(ReplacedAll(fs, rs), q) == Lookup(fs, q)
  {
    KeptByLater(fs, rs, 0, q);
    assert rs[..0] == [];
  }

  // ----- a rollback some of whose steps raise -----

  /** A step of the rollback works, or raises and leaves what it leaves at its target and its backup. */
  datatype Attempt = Works | Raises(left: Files)

  predicate Touches(e: Entry, p: Path) { Under(p, e.live) || (e.backup.Some? && Under(p, e.backup.value)) }

  predicate Confined(e: Entry, a: Attempt) { a.Raises? ==> forall p :: p in a.left ==> Touches(e, p) }

  function Tried(fs: Files, e: Entry, a: Attempt): Files {
    match a
    case Works => Undone(fs, e)
    case Raises(left) => (map p | p in fs && !Touches(e, p) :: fs[p]) + left
  }

  /** The loop goes on after a step that raises. */
  function TriedAll(fs: Files, log: seq<Entry>, attempts: seq<Attempt>): Files
    requires |log| == |attempts|
    decreases |log|
  {
    if log == [] then fs else
    var n := |log| - 1;
    TriedAll(Tried(fs, log[n], attempts[n]), log[..n], attempts[..n])
  }

  lemma TriedLast(fs: Files, log: seq<Entry>, attempts: seq<Attempt>, n: nat)
    requires 0 < n <= |log| == |attempts|
    ensures TriedAll(fs, log[..n], attempts[..n])
            == TriedAll(Tried(fs, log[n - 1], attempts[n - 1]), log[..n - 1], attempts[..n - 1])
  {
    assert log[..n][..n - 1] == log[..n - 1] && attempts[..n][..n - 1] == attempts[..n - 1];
  }

  /** The first replacement, from the n-th on, whose target is at or above q. */
  function FirstCovering(rs: seq<Replacement>, n: nat, q: Path): (k: Option<nat>)
    requires n <= |rs|
    ensures k.Some? ==> n <= k.value < |rs| && Under(q, rs[k.value].live)
    ensures forall j :: n <= j < |rs| && (k.Some? ==> j < k.value) ==> !Under(q, rs[j].live)
    decreases |rs| - n
  {
    if n == |rs| then None else if Under(q, rs[n].live) then Some(n) else FirstCovering(rs, n + 1, q)
  }

  /** The file at q: the one before the n-th replacement, or what the step of the first target covering q left. */
  function FileAt(before: Files, rs: seq<Replacement>, attempts: seq<Attempt>, n: nat, q: Path): Option<string>
    requires n <= |rs| == |attempts|
  {
    var k := FirstCovering(rs, n, q);
    if k.Some? && attempts[k.value].Raises? then Lookup(attempts[k.value].left, q) else Lookup(before, q)
  }

  predicate OutsideBackups(rs: seq<Replacement>, n: nat, q: Path) {
    forall j :: n <= j < |rs| ==> !Under(q, rs[j].backup)
  }

  /** The rollback has come down to the n-th replacement. */
  ghost predicate DownTo(before: Files, rs: seq<Replacement>, attempts: seq<Attempt>, n: nat, s: Files)
    requires n <= |rs| == |attempts|
  {
    forall q :: OutsideBackups(rs, n, q) ==> Lookup(s, q) == FileAt(before, rs, attempts, n, q)
  }

  lemma ReplacedElsewhere(fs: Files, r: Replacement, q: Path)
    requires Apart(r.live, r.backup) && CopiedBelow(r.copied, r.live)
    requires !Under(q, r.live) && !Under(q, r.backup)
    ensures Lookup(Replaced(fs, r.live, r.backup, r.copied), q) == Lookup(fs, q)
  {
    MovedAt(fs, r.live, r.backup, q);
  }

  /** What was moved aside is still there when the rollback comes to it, whatever happened to later steps. */
  lemma MovedAsideKept(before: Files, rs: seq<Replacement>, attempts: seq<Attempt>, n: nat, s: Files, q: Path)
    requires n < |rs| == |attempts| && Under(q, rs[n].backup)
    requires forall i, j :: 0 <= i < |rs| && 0 <= j < |rs| ==> Apart(rs[i].live, rs[j].backup)
    requires forall i, j :: 0 <= i < j < |rs| ==> Apart(rs[i].backup, rs[j].backup)
    requires DownTo(before, rs, attempts, n + 1, s)
    ensures Lookup(s, q) == Lookup(before, q)
  {
    forall j | n < j < |rs|
      ensures !Under(q, rs[j].backup) && !Under(q, rs[j].live)
    {
      ApartDisjoint(rs[n].backup, rs[j].backup, q);
      ApartDisjoint(rs[j].live, rs[n].backup, q);
    }
    assert OutsideBackups(rs, n + 1, q);
  }

  lemma UndoneElsewhere(s: Files, e: Entry, q: Path)
    requires !Touches(e, q) && (e.backup.Some? ==> Apart(e.live, e.backup.value))
    ensures Lookup(Undone(s, e), q) == Lookup(s, q)
  {
    if e.backup.Some? { MovedAt(Without(s, e.live), e.backup.value, e.live, q); }
  }

  /** A step that works restores its whole target from what was moved aside. */
  lemma UndoneBelow(fs: Files, r: Replacement, s: Files, q: Path)
    requires Apart(r.live, r.backup) && !Exists(fs, r.backup) && CopiedBelow(r.copied, r.live) && Under(q, r.live)
    requires forall p :: Under(p, r.backup) ==> Lookup(s, p) == Lookup(Replaced(fs, r.live, r.backup, r.copied), p)
    ensures Lookup(Undone(s, LogEntry(fs, r.live, r.backup)), q) == Lookup(fs, q)
  {
    if Exists(fs, r.live) {
      var cleared := Without(s, r.live);
      MovedAsideAt(fs, r, s, q);
      MovedAt(cleared, r.backup, r.live, q);
      var p :| p in fs && Under(p, r.live);
      MovedAsideAt(fs, r, s, p);
      assert r.backup + p[|r.live|..] in cleared;
      ApartDisjoint(r.live, r.backup, q);
    }
  }

  lemma MovedAsideAt(fs: Files, r: Replacement, s: Files, q: Path)
    requires Apart(r.live, r.backup) && !Exists(fs, r.backup) && CopiedBelow(r.copied, r.live)
    requires Exists(fs, r.live) && Under(q, r.live)
    requires forall p :: Under(p, r.backup) ==> Lookup(s, p) == Lookup(Replaced(fs, r.live, r.backup, r.copied), p)
    ensures Under(r.backup + q[|r.live|..], r.backup)
    ensures Lookup(Without(s, r.live), r.backup + q[|r.live|..]) == Lookup(fs, q)
  {
    var p := r.backup + q[|r.live|..];
    BackAndForth(r.live, r.backup, q);
    ApartDisjoint(r.live, r.backup, p);
    ClearedAt(fs, r.live, r.backup, r.copied, p);
    assert Lookup(Replaced(fs, r.live, r.backup, r.copied), p)
        == Lookup(Without(Replaced(fs, r.live, r.backup, r.copied), r.live), p);
  }

  lemma DownElsewhere(before: Files, rs: seq<Replacement>, attempts: seq<Attempt>, n: nat, s: Files, q: Path)
    requires n < |rs| == |attempts| && Apart(rs[n].live, rs[n].backup) && CopiedBelow(rs[n].copied, rs[n].live)
    requires Confined(LogEntry(before, rs[n].live, rs[n].backup), attempts[n])
    requires DownTo(Replaced(before, rs[n].live, rs[n].backup, rs[n].copied), rs, attempts, n + 1, s)
    requires OutsideBackups(rs, n, q) && !Under(q, rs[n].live)
    ensures Lookup(Tried(s, LogEntry(before, rs[n].live, rs[n].backup), attempts[n]), q)
            == FileAt(before, rs, attempts, n, q)
  {
    var e := LogEntry(before, rs[n].live, rs[n].backup);
    ReplacedElsewhere(before, rs[n], q);
    TriedElsewhere(s, e, attempts[n], q);
    assert OutsideBackups(rs, n + 1, q);
  }

  lemma TriedElsewhere(s: Files, e: Entry, a: Attempt, q: Path)
    requires !Touches(e, q) && (e.backup.Some? ==> Apart(e.live, e.backup.value)) && Confined(e, a)
    ensures Lookup(Tried(s, e, a), q) == Lookup(s, q)
  {
    UndoneElsewhere(s, e, q);
  }

  /** One step of the rollback, whatever happened in the steps before it. */
  lemma DownOne(fs: Files, rs: seq<Replacement>, attempts: seq<Attempt>, n: nat, s: Files)
    requires n < |rs| == |attempts| && BackupsDistinct(fs, rs)
    requires var before := ReplacedAll(fs, rs[..n]);
             Confined(LogEntry(before, rs[n].live, rs[n].backup), attempts[n])
    requires DownTo(ReplacedAll(fs, rs[..n + 1]), rs, attempts, n + 1, s)
    ensures var before := ReplacedAll(fs, rs[..n]);
            DownTo(before, rs, attempts, n, Tried(s, LogEntry(before, rs[n].live, rs[n].backup), attempts[n]))
  {
    var r, before, after := rs[n], ReplacedAll(fs, rs[..n]), ReplacedAll(fs, rs[..n + 1]);
    var e := LogEntry(before, r.live, r.backup);
    assert rs[..n + 1][..n] == rs[..n];
    assert after == Replaced(before, r.live, r.backup, r.copied);
    BackupUnused(fs, rs[..n], r.backup);
    forall q | OutsideBackups(rs, n, q)
      ensures Lookup(Tried(s, e, attempts[n]), q) == FileAt(before, rs, attempts, n, q)
    {
      if !Under(q, r.live) {
        DownElsewhere(before, rs, attempts, n, s, q);
      } else if attempts[n].Works? {
        forall p | Under(p, r.backup)
          ensures Lookup(s, p) == Lookup(after, p)
        {
          MovedAsideKept(after, rs, attempts, n, s, p);
        }
        UndoneBelow(before, r, s, q);
      }
    }
  }

  lemma {:induction false} LogPrefix(fs: Files, rs: seq<Replacement>, n: nat)
    requires n <= |rs|
    ensures Log(fs, rs)[..n] == Log(fs, rs[..n])
  {
    if n < |rs| {
      var init := rs[..|rs| - 1];
      LogPrefix(fs, init, n);
      assert init[..n] == rs[..n];
      assert Log(fs, rs)[..n] == Log(fs, init)[..n];
    } else {
      assert rs[..n] == rs;
      if n > 0 { LogPrefix(fs, rs[..n - 1], n - 1); }
    }
  }

  lemma LogAt(fs: Files, rs: seq<Replacement>, n: nat)
    requires n < |rs|
    ensures Log(fs, rs)[n] == LogEntry(ReplacedAll(fs, rs[..n]), rs[n].live, rs[n].backup)
  {
    LogPrefix(fs, rs, n + 1);
    LogPrefix(fs, rs[..n + 1], n);
    assert rs[..n + 1][..n] == rs[..n];
    assert Log(fs, rs)[n] == Log(fs, rs)[..n + 1][n];
  }

  lemma {:induction false} DownToStart(fs: Files, rs: seq<Replacement>, attempts: seq<Attempt>, n: nat, s: Files)
    requires n <= |rs| == |attempts| && BackupsDistinct(fs, rs)
    requires forall i :: 0 <= i < |rs| ==> Confined(Log(fs, rs)[i], attempts[i])
    requires DownTo(ReplacedAll(fs, rs[..n]), rs, attempts, n, s)
    ensures DownTo(fs, rs, attempts, 0, TriedAll(s, Log(fs, rs)[..n], attempts[..n]))
    decreases n
  {
    if n > 0 {
      var e := Log(fs, rs)[n - 1];
      LogAt(fs, rs, n - 1);
      DownOne(fs, rs, attempts, n - 1, s);
      DownToStart(fs, rs, attempts, n - 1, Tried(s, e, attempts[n - 1]));
      TriedLast(s, Log(fs, rs), attempts, n);
    } else {
      assert rs[..0] == [];
    }
  }

  /**
   A rollback in which any steps raise: outside the backups, a file is again the original one,
   except that below a target whose own step raised it is what that step left. Where targets nest
   or repeat, the step of the first replacement decides.
   */
  lemma RollbackAt(fs: Files, rs: seq<Replacement>, attempts: seq<Attempt>, q: Path)
    requires |rs| == |attempts| && BackupsDistinct(fs, rs)
    requires forall i :: 0 <= i < |rs| ==> Confined(Log(fs, rs)[i], attempts[i])
    requires OutsideBackups(rs, 0, q)
    ensures Lookup(TriedAll(ReplacedAll(fs, rs), Log(fs, rs), attempts), q) == FileAt(fs, rs, attempts, 0, q)
  {
    var n := |rs|;
    assert rs[..n] == rs && Log(fs, rs)[..n] == Log(fs, rs) && attempts[..n] == attempts;
    DownToStart(fs, rs, attempts, n, ReplacedAll(fs, rs));
  }

  predicate AllWork(attempts: seq<Attempt>) { forall i :: 0 <= i < |attempts| ==> attempts[i].Works? }

  lemma {:induction false} AllWorkUndoes(fs: Files, log: seq<Entry>, attempts: seq<Attempt>)
    requires |log| == |attempts| && AllWork(attempts)
    ensures TriedAll(fs, log, attempts) == UndoneAll(fs, log)
    decreases |log|
  {
    if log != [] {
      var n := |log| - 1;
      AllWorkUndoes(Undone(fs, log[n]), log[..n], attempts[..n]);
    }
  }

  // ----- the same on a file system that changes in place -----

  class FileSystem {
    var files: map<Path, string>

    constructor (initial: Files)
      ensures files == initial
    {
      files := initial;
    }

    /**
     Nothing when there is nothing staged. Otherwise moves the target aside if it exists, logs
     it, and copies the staged files; an interruption copies only some.
     */
    method ReplacePath(live: Path, backup: Path, staged: Option<Files>, backups: seq<Entry>)
      returns (backups': seq<Entry>)
      modifies this
      ensures staged.None? ==> files == old(files) && backups' == backups
      ensures staged.Some? ==>
                && files == Replaced(old(files), live, backup, staged.value)
                && backups' == backups + [LogEntry(old(files), live, backup)]
      ensures staged.Some? && Unrelated(live, backup) && (forall s: Path :: backup + s !in old(files))
              && (forall p :: p in staged.value ==> exists s: Path :: p == live + s) ==>
                Installed(old(files), files, live, backup, staged.value)
    {
      if staged.None? { return backups; }
      if Unrelated(live, backup) && (forall s: Path :: backup + s !in files)
         && forall p :: p in staged.value ==> exists s: Path :: p == live + s {
        ReplacementInstalls(files, live, backup, staged.value);
      }
      if Exists(files, live) {
        files := Moved(files, live, backup);
        backups' := backups + [Entry(live, Some(backup))];
      } else {
        backups' := backups + [Entry(live, None)];
      }
      files := files + staged.value;
    }

    /**
     Undoes the log from its end: clears each target, moves its backup back if there is one, and
     goes on to the next entry when a step raises.
     */
    method RollbackPaths(backups: seq<Entry>, attempts: seq<Attempt>)
      requires |backups| == |attempts|
      modifies this
      ensures files == TriedAll(old(files), backups, attempts)
    {
      var i := |backups|;
      assert backups[..i] == backups && attempts[..i] == attempts;
      while i > 0
        invariant 0 <= i <= |backups|
        invariant TriedAll(files, backups[..i], attempts[..i]) == TriedAll(old(files), backups, attempts)
      {
        TriedLast(files, backups, attempts, i);
        i := i - 1;
        var e := backups[i];
        if attempts[i].Raises? {
          files := Tried(files, e, attempts[i]);
          continue;
        }
        if Exists(files, e.live) { files := Without(files, e.live); }
        else { assert files == Without(files, e.live); }
        if e.backup.Some? && Exists(files, e.backup.value) {
          files := Moved(files, e.backup.value, e.live);
        }
      }
    }

    /** The replacements of a restore, one after the other. */
    method ReplacePaths(rs: seq<Replacement>) returns (backups: seq<Entry>)
      modifies this
      ensures files == ReplacedAll(old(files), rs) && backups == Log(old(files), rs)
    {
      backups := [];
      for i := 0 to |rs|
        invariant files == ReplacedAll(old(files), rs[..i]) && backups == Log(old(files), rs[..i])
      {
        assert rs[..i + 1][..i] == rs[..i];
        backups := ReplacePath(rs[i].live, rs[i].backup, Some(rs[i].copied), backups);
      }
      assert rs[..|rs|] == rs;
    }

    /**
     A failed restore: some replacements, then the rollback. When every step works all files are as
     before; otherwise the files outside the backups are, except below the targets whose steps raised.
     */
    method ReplaceThenRollBack(rs: seq<Replacement>, attempts: seq<Attempt>)
      requires BackupsDistinct(files, rs) && |attempts| == |rs|
      requires forall i :: 0 <= i < |rs| ==> Confined(Log(files, rs)[i], attempts[i])
      modifies this
      ensures AllWork(attempts) ==> files == old(files)
      ensures forall q :: OutsideBackups(rs, 0, q) ==> Lookup(files, q) == FileAt(old(files), rs, attempts, 0, q)
    {
      var backups := ReplacePaths(rs);
      RollbackPaths(backups, attempts);
      if AllWork(attempts) {
        AllWorkUndoes(ReplacedAll(old(files), rs), backups, attempts);
        RollbackRestores(old(files), rs);
      }
      forall q | OutsideBackups(rs, 0, q)
        ensures Lookup(files, q) == FileAt(old(files), rs, attempts, 0, q)
      {
        RollbackAt(old(files), rs, attempts, q);
      }
    }
  }
}
