/**
 Database tables as the restore sees them, and the copy of one archived table over a
 working table (app/backup.py, _merge_database): whole, or in committed windows of
 its integer key.
 */
module Tables {
  import opened Wrappers

  datatype Value = Null | Integer(n: int) | Text(s: string)

  /** Column name to value. */
  type Row = map<string, Value>

  /** Columns with their defaults, and the rows. */
  datatype Table = Table(defaults: map<string, Value>, rows: seq<Row>)

  /** INSERT of the named columns of r: the other columns take their default. */
  function Inserted(target: Table, archiveColumns: set<string>, r: Row): Row {
    map c | c in target.defaults :: if c in archiveColumns && c in r then r[c] else target.defaults[c]
  }

  function InsertedAll(target: Table, archiveColumns: set<string>, rows: seq<Row>): seq<Row> {
    seq(|rows|, i requires 0 <= i < |rows| => Inserted(target, archiveColumns, rows[i]))
  }

  /** The target's schema holding exactly the archive's rows, shared columns only. */
  function Restored(target: Table, archive: Table): Table {
    target.(rows := InsertedAll(target, archive.defaults.Keys, archive.rows))
  }

  /** Exactly the target's columns: the shared ones that r holds as r has them, the others at their default. */
  predicate CopyOf(made: Row, target: Table, archive: Table, r: Row) {
    && made.Keys == target.defaults.Keys
    && (forall c :: c in made && c in archive.defaults && c in r ==> made[c] == r[c])
    && (forall c :: c in made && (c !in archive.defaults || c !in r) ==> made[c] == target.defaults[c])
  }

  /** Row by row, a restored table copies the archive's; whole rows when the columns are the same. */
  lemma RestoredRows(target: Table, archive: Table)
    ensures Restored(target, archive).defaults == target.defaults
    ensures |Restored(target, archive).rows| == |archive.rows|
    ensures forall i :: 0 <= i < |archive.rows| ==>
                          CopyOf(Restored(target, archive).rows[i], target, archive, archive.rows[i])
    ensures archive.defaults.Keys == target.defaults.Keys
            && (forall i :: 0 <= i < |archive.rows| ==> archive.rows[i].Keys == archive.defaults.Keys) ==>
              Restored(target, archive).rows == archive.rows
  {
    if archive.defaults.Keys == target.defaults.Keys
       && forall i :: 0 <= i < |archive.rows| ==> archive.rows[i].Keys == archive.defaults.Keys {
      forall i | 0 <= i < |archive.rows|
        ensures Restored(target, archive).rows[i] == archive.rows[i]
      {
        WholeCopy(Restored(target, archive).rows[i], target, archive, archive.rows[i]);
      }
    }
  }

  lemma WholeCopy(made: Row, target: Table, archive: Table, r: Row)
    requires CopyOf(made, target, archive, r) && target.defaults.Keys == archive.defaults.Keys == r.Keys
    ensures made == r
  {
    assert made.Keys == r.Keys;
    forall c | c in r
      ensures made[c] == r[c]
    {
      assert c in r.Keys;
    }
  }

  /** The rows of a table are copies of the archive's, as many as there are and in some order. */
  ghost predicate CopiesAll(rows: seq<Row>, target: Table, archive: Table) {
    exists copies: seq<Row> ::
      && |copies| == |archive.rows| && multiset(rows) == multiset(copies)
      && forall i :: 0 <= i < |copies| ==> CopyOf(copies[i], target, archive, archive.rows[i])
  }

  predicate SharesColumns(target: Table, archive: Table) {
    target.defaults.Keys * archive.defaults.Keys != {}
  }

  // ----- windows of the key -----

  const CHUNK_ROW_THRESHOLD := 50_000
  const CHUNK_SIZE := 200_000

  function Key(r: Row, pk: string): Option<int> {
    if pk in r && r[pk].Integer? then Some(r[pk].n) else None
  }

  /** WHERE pk BETWEEN lo AND hi, in table order. */
  function Between(rows: seq<Row>, pk: string, lo: int, hi: int): seq<Row> {
    if rows == [] then [] else
    var last := rows[|rows| - 1];
    Between(rows[..|rows| - 1], pk, lo, hi)
      + (if Key(last, pk).Some? && lo <= Key(last, pk).value <= hi then [last] else [])
  }

  lemma {:induction false} BetweenSplits(rows: seq<Row>, pk: string, lo: int, mid: int, hi: int)
    requires lo <= mid + 1 && mid <= hi
    ensures multiset(Between(rows, pk, lo, mid)) + multiset(Between(rows, pk, mid + 1, hi))
            == multiset(Between(rows, pk, lo, hi))
  {
    if rows != [] {
      BetweenSplits(rows[..|rows| - 1], pk, lo, mid, hi);
    }
  }

  lemma {:induction false} EmptyWindow(rows: seq<Row>, pk: string, lo: int, hi: int)
    requires hi < lo
    ensures Between(rows, pk, lo, hi) == []
  {
    if rows != [] {
      EmptyWindow(rows[..|rows| - 1], pk, lo, hi);
    }
  }

  predicate NoNullKey(rows: seq<Row>, pk: string) {
    forall i :: 0 <= i < |rows| ==> Key(rows[i], pk).Some?
  }

  predicate KeysWithin(rows: seq<Row>, pk: string, lo: int, hi: int) {
    forall i :: 0 <= i < |rows| && Key(rows[i], pk).Some? ==> lo <= Key(rows[i], pk).value <= hi
  }

  /** The whole key range selects the rows that have a key. */
  lemma {:induction false} BetweenAll(rows: seq<Row>, pk: string, lo: int, hi: int)
    requires KeysWithin(rows, pk, lo, hi)
    ensures |Between(rows, pk, lo, hi)| <= |rows|
    ensures |Between(rows, pk, lo, hi)| == |rows| <==> NoNullKey(rows, pk)
    ensures NoNullKey(rows, pk) ==> Between(rows, pk, lo, hi) == rows
  {
    if rows != [] {
      var init := rows[..|rows| - 1];
      BetweenAll(init, pk, lo, hi);
      assert rows == init + [rows[|rows| - 1]];
      assert forall i :: 0 <= i < |init| ==> init[i] == rows[i];
    }
  }

  lemma WithoutOne(rows: seq<Row>, k: nat)
    requires k < |rows|
    ensures rows == rows[..k] + ([rows[k]] + rows[k + 1..])
    ensures multiset(rows[..k] + rows[k + 1..]) == multiset(rows) - multiset{rows[k]}
  {
  }

  lemma InsertedWithout(target: Table, columns: set<string>, rows: seq<Row>, k: nat)
    requires k < |rows|
    ensures multiset(InsertedAll(target, columns, rows))
            == multiset(InsertedAll(target, columns, [rows[k]]))
               + multiset(InsertedAll(target, columns, rows[..k] + rows[k + 1..]))
  {
    WithoutOne(rows, k);
    InsertedAppend(target, columns, rows[..k], [rows[k]] + rows[k + 1..]);
    InsertedAppend(target, columns, [rows[k]], rows[k + 1..]);
    InsertedAppend(target, columns, rows[..k], rows[k + 1..]);
  }

  lemma {:induction false} InsertedMultiset(target: Table, columns: set<string>, a: seq<Row>, b: seq<Row>)
    requires multiset(a) == multiset(b)
    ensures multiset(InsertedAll(target, columns, a)) == multiset(InsertedAll(target, columns, b))
    decreases |a|
  {
    if a == [] {
      assert |multiset(b)| == |b|;
      assert b == [];
    } else {
      assert a[0] in multiset(b);
      var k :| 0 <= k < |b| && b[k] == a[0];
      WithoutOne(a, 0);
      WithoutOne(b, k);
      InsertedMultiset(target, columns, a[..0] + a[1..], b[..k] + b[k + 1..]);
      InsertedWithout(target, columns, a, 0);
      InsertedWithout(target, columns, b, k);
    }
  }

  lemma InsertedAppend(target: Table, columns: set<string>, a: seq<Row>, b: seq<Row>)
    ensures InsertedAll(target, columns, a + b) == InsertedAll(target, columns, a) + InsertedAll(target, columns, b)
  {
  }

  // ----- the copy -----

  datatype MergeError = NoKeyRange | RowCountMismatch(copied: nat, expected: nat)

  /** SELECT min(pk), max(pk): NULL keys are ignored. */
  method KeyRange(rows: seq<Row>, pk: string) returns (range: Option<(int, int)>)
    ensures range.None? <==> forall i :: 0 <= i < |rows| ==> Key(rows[i], pk).None?
    ensures range.Some? ==> KeysWithin(rows, pk, range.value.0, range.value.1) && range.value.0 <= range.value.1
  {
    range := None;
    for i := 0 to |rows|
      invariant range.None? <==> forall j :: 0 <= j < i ==> Key(rows[j], pk).None?
      invariant range.Some? ==> range.value.0 <= range.value.1
                                && forall j :: 0 <= j < i && Key(rows[j], pk).Some? ==>
                                   range.value.0 <= Key(rows[j], pk).value <= range.value.1
    {
      match Key(rows[i], pk)
      case None =>
      case Some(k) =>
        if range.None? { range := Some((k, k)); }
        else {
          var (lo, hi) := range.value;
          range := Some((if k < lo then k else lo, if k > hi then k else hi));
        }
    }
  }

  /**
   Copies an archived table over the (emptied) target: in one INSERT, or window by
   window when the table is large and has an integer key column. The key column need not
   be unique, only non-null: then both branches leave the same rows, each exactly once.
   A row without a key makes the windowed copy fail.
   */
  method MergeTable(target: Table, archive: Table, pk: Option<string>) returns (r: Result<Table, MergeError>)
    ensures r.Ok? <==> pk.None? || |archive.rows| <= CHUNK_ROW_THRESHOLD || NoNullKey(archive.rows, pk.value)
    ensures r.Ok? ==> r.value.defaults == target.defaults
                      && multiset(r.value.rows) == multiset(Restored(target, archive).rows)
    ensures r.Ok? ==> CopiesAll(r.value.rows, target, archive)
    ensures r.Ok? && archive.defaults.Keys == target.defaults.Keys
            && (forall i :: 0 <= i < |archive.rows| ==> archive.rows[i].Keys == archive.defaults.Keys) ==>
              multiset(r.value.rows) == multiset(archive.rows)
  {
    RestoredRows(target, archive);
    var columns := archive.defaults.Keys;
    if pk.None? || |archive.rows| <= CHUNK_ROW_THRESHOLD {
      return Ok(target.(rows := InsertedAll(target, columns, archive.rows)));
    }
    var range := KeyRange(archive.rows, pk.value);
    if range.None? {
      assert Key(archive.rows[0], pk.value).None?;
      return Err(NoKeyRange);
    }
    var (lo, hi) := range.value;
    var rows := CopyWindows(target, columns, archive.rows, pk.value, lo, hi);
    ghost var copied := Windows(archive.rows, pk.value, lo, hi);
    WindowsCoverRange(archive.rows, pk.value, lo, hi);
    BetweenAll(archive.rows, pk.value, lo, hi);
    SameSize(copied, Between(archive.rows, pk.value, lo, hi));
    if |rows| != |archive.rows| {
      return Err(RowCountMismatch(|rows|, |archive.rows|));
    }
    InsertedMultiset(target, columns, copied, archive.rows);
    r := Ok(target.(rows := rows));
  }

  lemma SameSize(a: seq<Row>, b: seq<Row>)
    requires multiset(a) == multiset(b)
    ensures |a| == |b|
  {
    assert |a| == |multiset(a)| == |multiset(b)| == |b|;
  }

  function WindowEnd(start: int, hi: int): int {
    if start + CHUNK_SIZE - 1 < hi then start + CHUNK_SIZE - 1 else hi
  }

  /** The rows of the windows from start to hi, window by window. */
  function Windows(rows: seq<Row>, pk: string, start: int, hi: int): seq<Row>
    decreases hi - start
  {
    if start > hi then []
    else Between(rows, pk, start, WindowEnd(start, hi)) + Windows(rows, pk, WindowEnd(start, hi) + 1, hi)
  }

  lemma ConcatCovers(a: seq<Row>, b: seq<Row>, c: seq<Row>, all: seq<Row>)
    requires multiset(b) == multiset(c) && multiset(a) + multiset(c) == multiset(all)
    ensures multiset(a + b) == multiset(all)
  {
  }

  lemma OneWindow(rows: seq<Row>, pk: string, start: int, end: int, hi: int, rest: seq<Row>)
    requires start <= end + 1 && end <= hi && multiset(rest) == multiset(Between(rows, pk, end + 1, hi))
    ensures multiset(Between(rows, pk, start, end) + rest) == multiset(Between(rows, pk, start, hi))
  {
    BetweenSplits(rows, pk, start, end, hi);
    ConcatCovers(Between(rows, pk, start, end), rest, Between(rows, pk, end + 1, hi), Between(rows, pk, start, hi));
  }

  lemma {:induction false} WindowsCoverRange(rows: seq<Row>, pk: string, start: int, hi: int)
    requires start <= hi + 1
    ensures multiset(Windows(rows, pk, start, hi)) == multiset(Between(rows, pk, start, hi))
    decreases hi - start
  {
    if start > hi {
      EmptyWindow(rows, pk, start, hi);
    } else {
      var end := WindowEnd(start, hi);
      WindowsCoverRange(rows, pk, end + 1, hi);
      OneWindow(rows, pk, start, end, hi, Windows(rows, pk, end + 1, hi));
    }
  }

  /** The window loop over [lo, hi]. */
  method CopyWindows(target: Table, columns: set<string>, archived: seq<Row>, pk: string, lo: int, hi: int)
    returns (rows: seq<Row>)
    ensures rows == InsertedAll(target, columns, Windows(archived, pk, lo, hi))
  {
    rows := [];
    ghost var copied: seq<Row> := [];
    var windowStart := lo;
    while windowStart <= hi
      invariant rows == InsertedAll(target, columns, copied)
      invariant copied + Windows(archived, pk, windowStart, hi) == Windows(archived, pk, lo, hi)
      decreases hi - windowStart
    {
      var windowEnd := WindowEnd(windowStart, hi);
      var window := Between(archived, pk, windowStart, windowEnd);
      InsertedAppend(target, columns, copied, window);
      rows := rows + InsertedAll(target, columns, window);
      ghost var rest := Windows(archived, pk, windowEnd + 1, hi);
      assert Windows(archived, pk, windowStart, hi) == window + rest;
      assert copied + (window + rest) == (copied + window) + rest;
      copied := copied + window;
      windowStart := windowEnd + 1;
    }
    assert copied + [] == copied;
  }
}
