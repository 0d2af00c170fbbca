/**
 Counting what blocklist sources contribute (app/alderpointdns_compiler.py):
 parse_rule_lines for one source, collect_rules across sources.
 */
module SourceAccounting {
  import opened Wrappers
  import opened Strings
  import opened DomainSyntax
  import opened SourceParser

  /** The sets and counters parse_rule_lines updates. */
  datatype Tally = Tally(
    blocks: set<string>, allows: set<string>,
    downloaded: nat, parsed: nat, accepted: nat, exceptions: nat, invalid: nat, unsupported: nat)

  const EMPTY := Tally({}, {}, 0, 0, 0, 0, 0, 0)

  function Counted(t: Tally, r: Finding): Tally {
    match r
    case Skip => t
    case Refused(invalid) => if invalid then t.(invalid := t.invalid + 1) else t.(unsupported := t.unsupported + 1)
    case Accepted(allow, d) =>
      var u := t.(parsed := t.parsed + 1);
      if d in (if allow then t.allows else t.blocks) then u
      else if allow then u.(allows := t.allows + {d}, accepted := t.accepted + 1, exceptions := t.exceptions + 1)
      else u.(blocks := t.blocks + {d}, accepted := t.accepted + 1)
  }

  function CountedAll(t: Tally, results: seq<Finding>): Tally {
    if |results| == 0 then t else Counted(CountedAll(t, results[..|results| - 1]), results[|results| - 1])
  }

  /** Blank lines, comments and section headers are not entries. */
  predicate Ignored(raw: string) {
    raw == "" || raw[0] == '#' || raw[0] == '!' || StartsWith(raw, "//") || (raw[0] == '[' && raw[|raw| - 1] == ']')
  }

  /** What one line yields; None when it is no entry. */
  function EntryOf(lib: Libraries, line: string): Option<seq<Finding>> {
    var raw := Strip(line);
    if Ignored(raw) then None else Some(LineResults(lib, raw))
  }

  function Read(lib: Libraries, lines: seq<string>): seq<Option<seq<Finding>>> {
    seq(|lines|, k requires 0 <= k < |lines| => EntryOf(lib, lines[k]))
  }

  function Entered(t: Tally, entry: Option<seq<Finding>>): Tally {
    match entry
    case None => t
    case Some(results) => CountedAll(t.(downloaded := t.downloaded + 1), results)
  }

  function TallyLines(entries: seq<Option<seq<Finding>>>): Tally {
    if |entries| == 0 then EMPTY else Entered(TallyLines(entries[..|entries| - 1]), entries[|entries| - 1])
  }

  lemma TallyNext(entries: seq<Option<seq<Finding>>>, k: nat)
    requires k < |entries|
    ensures TallyLines(entries[..k + 1]) == Entered(TallyLines(entries[..k]), entries[k])
  {
    assert entries[..k + 1][..k] == entries[..k];
  }

  /** The inner loop: the results of one line. */
  method CountLine(start: Tally, results: seq<Finding>) returns (t: Tally)
    ensures t == CountedAll(start, results)
  {
    t := start;
    for j := 0 to |results|
      invariant t == CountedAll(start, results[..j])
    {
      assert results[..j + 1][..j] == results[..j];
      t := Counted(t, results[j]);
    }
    assert results[..|results|] == results;
  }

  /** One turn of the outer loop. */
  method EnterLine(lib: Libraries, start: Tally, line: string) returns (t: Tally)
    ensures t == Entered(start, EntryOf(lib, line))
  {
    var raw := Strip(line);
    if Ignored(raw) { return start; }
    var results := ParseSourceLine(lib, raw);
    assert EntryOf(lib, line) == Some(results);
    t := CountLine(start.(downloaded := start.downloaded + 1), results);
  }

  method ParseRuleLines(lib: Libraries, lines: seq<string>) returns (t: Tally)
    ensures t == TallyLines(Read(lib, lines))
  {
    ghost var entries := Read(lib, lines);
    t := EMPTY;
    for k := 0 to |lines|
      invariant t == TallyLines(entries[..k])
    {
      TallyNext(entries, k);
      t := EnterLine(lib, t, lines[k]);
    }
    assert entries[..|lines|] == entries;
  }

  // ----- one source -----

  /** All results in order, and how many lines they come from. */
  function Flat(entries: seq<Option<seq<Finding>>>): seq<Finding> {
    if |entries| == 0 then []
    else Flat(entries[..|entries| - 1]) + entries[|entries| - 1].GetOr([])
  }

  function EntryCount(entries: seq<Option<seq<Finding>>>): nat {
    if |entries| == 0 then 0
    else EntryCount(entries[..|entries| - 1]) + (if entries[|entries| - 1].Some? then 1 else 0)
  }

  function Skips(results: seq<Finding>): nat {
    if |results| == 0 then 0 else Skips(results[..|results| - 1]) + (if results[|results| - 1].Skip? then 1 else 0)
  }

  predicate Balanced(t: Tally) {
    t.accepted == |t.blocks| + |t.allows| && t.exceptions == |t.allows| && t.accepted <= t.parsed
  }

  lemma {:induction false} CountedAllBalanced(t: Tally, results: seq<Finding>)
    requires Balanced(t)
    ensures Balanced(CountedAll(t, results))
  {
    if |results| > 0 { CountedAllBalanced(t, results[..|results| - 1]); }
  }

  /** Every counter of a source at once: each result lands in exactly one of them. */
  lemma {:induction false} CountedAllExact(t: Tally, results: seq<Finding>)
    ensures var u := CountedAll(t, results);
            && u.parsed + u.invalid + u.unsupported + Skips(results) == t.parsed + t.invalid + t.unsupported + |results|
            && u.downloaded == t.downloaded
            && u.invalid == t.invalid + multiset(results)[Refused(true)]
            && u.unsupported == t.unsupported + multiset(results)[Refused(false)]
            && (forall d :: d in u.blocks <==> d in t.blocks || Accepted(false, d) in results)
            && (forall d :: d in u.allows <==> d in t.allows || Accepted(true, d) in results)
  {
    if |results| > 0 {
      var front := results[..|results| - 1];
      CountedAllExact(t, front);
      assert results == front + [results[|results| - 1]];
      assert multiset(results) == multiset(front) + multiset{results[|results| - 1]};
    }
  }

  lemma {:induction false} SkipsSplit(a: seq<Finding>, b: seq<Finding>)
    ensures Skips(a + b) == Skips(a) + Skips(b)
  {
    if |b| == 0 {
      assert a + b == a;
    } else {
      assert (a + b)[..|a + b| - 1] == a + b[..|b| - 1];
      SkipsSplit(a, b[..|b| - 1]);
    }
  }

  /** The sets and counters of a source against all its results and the number of its entries. */
  ghost predicate Exact(t: Tally, all: seq<Finding>, entries: nat) {
    && Balanced(t) && t.downloaded == entries
    && t.parsed + t.invalid + t.unsupported + Skips(all) == |all|
    && t.invalid == multiset(all)[Refused(true)] && t.unsupported == multiset(all)[Refused(false)]
    && (forall d :: d in t.blocks <==> Accepted(false, d) in all)
    && (forall d :: d in t.allows <==> Accepted(true, d) in all)
  }

  lemma ExactNext(t: Tally, all: seq<Finding>, entries: nat, results: seq<Finding>)
    requires Exact(t, all, entries)
    ensures Exact(CountedAll(t.(downloaded := t.downloaded + 1), results), all + results, entries + 1)
  {
    CountedAllExact(t.(downloaded := t.downloaded + 1), results);
    CountedAllBalanced(t.(downloaded := t.downloaded + 1), results);
    SkipsSplit(all, results);
  }

  /** A source's sets hold exactly the domains its lines block and allow, and its counters are exact. */
  lemma {:induction false} SourceExact(entries: seq<Option<seq<Finding>>>)
    ensures Exact(TallyLines(entries), Flat(entries), EntryCount(entries))
  {
    if |entries| > 0 {
      var front, last := entries[..|entries| - 1], entries[|entries| - 1];
      SourceExact(front);
      if last.Some? {
        ExactNext(TallyLines(front), Flat(front), EntryCount(front), last.value);
      } else {
        assert Flat(entries) == Flat(front);
      }
    }
  }

  // ----- across sources -----

  /** An enabled source in id order; no lines when neither a download nor an older copy exists. */
  datatype Source = Source(id: nat, lines: Option<seq<string>>)

  datatype Figures = Figures(parsed: nat, duplicates: int, unique: nat, exceptions: nat)

  function TallyOf(lib: Libraries, s: Source): Tally {
    match s.lines case None => EMPTY case Some(lines) => TallyLines(Read(lib, lines))
  }

  function Tallies(lib: Libraries, sources: seq<Source>): seq<Tally> {
    if |sources| == 0 then [] else Tallies(lib, sources[..|sources| - 1]) + [TallyOf(lib, sources[|sources| - 1])]
  }

  function BlocksOf(tallies: seq<Tally>): seq<set<string>> {
    if |tallies| == 0 then [] else BlocksOf(tallies[..|tallies| - 1]) + [tallies[|tallies| - 1].blocks]
  }

  function AllowsOf(tallies: seq<Tally>): set<string> {
    if |tallies| == 0 then {} else AllowsOf(tallies[..|tallies| - 1]) + tallies[|tallies| - 1].allows
  }

  function Union(sets: seq<set<string>>): set<string> {
    if |sets| == 0 then {} else Union(sets[..|sets| - 1]) + sets[|sets| - 1]
  }

  /** The domains no earlier source already carries. */
  function Contribution(sets: seq<set<string>>, k: nat): set<string>
    requires k < |sets|
  {
    sets[k] - Union(sets[..k])
  }

  function UniqueTotal(sets: seq<set<string>>): nat {
    if |sets| == 0 then 0
    else UniqueTotal(sets[..|sets| - 1]) + |Contribution(sets, |sets| - 1)|
  }

  lemma DisjointCard(a: set<string>, b: set<string>)
    ensures |a + b| == |a| + |b - a|
  {
    assert a + b == a + (b - a);
    assert a !! (b - a);
  }

  /** Unique contributions add up to the number of distinct blocked domains, whatever the order of the sources. */
  lemma {:induction false} UniqueAddsUp(sets: seq<set<string>>)
    ensures UniqueTotal(sets) == |Union(sets)|
  {
    if |sets| > 0 {
      UniqueAddsUp(sets[..|sets| - 1]);
      DisjointCard(Union(sets[..|sets| - 1]), sets[|sets| - 1]);
    }
  }

  lemma {:induction false} InUnion(sets: seq<set<string>>, d: string)
    ensures d in Union(sets) <==> exists k :: 0 <= k < |sets| && d in sets[k]
  {
    if |sets| > 0 {
      var front := sets[..|sets| - 1];
      InUnion(front, d);
      if d in Union(front) {
        var k :| 0 <= k < |front| && d in front[k];
        assert d in sets[k];
      }
      if k :| 0 <= k < |sets| && d in sets[k] {
        if k < |front| { assert d in front[k]; }
      }
    }
  }

  /** A domain counts for the first source that carries it and for no other. */
  lemma OwnedOnce(sets: seq<set<string>>, d: string, j: nat, k: nat)
    requires j < |sets| && k < |sets| && d in Contribution(sets, j)
    ensures d in Contribution(sets, k) <==> j == k
  {
    InUnion(sets[..j], d);
    InUnion(sets[..k], d);
    if j < k { assert sets[..k][j] == sets[j]; }
    if k < j { assert sets[..j][k] == sets[k]; }
  }

  /** The healthy-redundant display: nothing unique exactly when earlier sources carry every domain. */
  lemma RedundantIff(sets: seq<set<string>>, k: nat)
    requires k < |sets|
    ensures |Contribution(sets, k)| == 0 <==> forall d :: d in sets[k] ==> exists j :: 0 <= j < k && d in sets[j]
  {
    forall d
      ensures d in Union(sets[..k]) <==> exists j :: 0 <= j < k && d in sets[j]
    {
      InUnion(sets[..k], d);
      if d in Union(sets[..k]) {
        var j :| 0 <= j < k && d in sets[..k][j];
        assert d in sets[j];
      }
      if j :| 0 <= j < k && d in sets[j] { assert d in sets[..k][j]; }
    }
    assert |Contribution(sets, k)| == 0 <==> Contribution(sets, k) == {};
    if Contribution(sets, k) == {} {
      forall d | d in sets[k]
        ensures exists j :: 0 <= j < k && d in sets[j]
      {
        assert d !in Contribution(sets, k);
      }
    }
  }

  function FiguresOf(t: Tally, unique: nat): Figures {
    Figures(t.parsed, (t.parsed - t.accepted) + (|t.blocks| - unique), unique, t.exceptions)
  }

  lemma SubsetCard(a: set<string>, b: set<string>)
    requires a <= b
    ensures |a| <= |b|
  {
    assert b == a + (b - a);
    DisjointCard(a, b);
  }

  lemma {:induction false} TalliesBalanced(lib: Libraries, sources: seq<Source>)
    ensures |Tallies(lib, sources)| == |sources|
    ensures forall k :: 0 <= k < |sources| ==> Balanced(Tallies(lib, sources)[k])
  {
    if |sources| > 0 {
      TalliesBalanced(lib, sources[..|sources| - 1]);
      var last := sources[|sources| - 1];
      if last.lines.Some? { SourceExact(Read(lib, last.lines.value)); }
    }
  }

  lemma {:induction false} BlocksAt(tallies: seq<Tally>)
    ensures |BlocksOf(tallies)| == |tallies|
    ensures forall k :: 0 <= k < |tallies| ==> BlocksOf(tallies)[k] == tallies[k].blocks
  {
    if |tallies| > 0 { BlocksAt(tallies[..|tallies| - 1]); }
  }

  /** What collect_rules records for each source of a run. */
  predicate Recorded(perSource: map<nat, Figures>, sources: seq<Source>, tallies: seq<Tally>, sets: seq<set<string>>,
      n: nat)
    requires n <= |sources| == |tallies| == |sets|
  {
    forall k :: 0 <= k < n ==>
      (sources[k].id in perSource && perSource[sources[k].id] == FiguresOf(tallies[k], |Contribution(sets, k)|))
  }

  /** A line of the source allows, or blocks, the domain. */
  predicate Says(lib: Libraries, s: Source, allow: bool, d: string) {
    s.lines.Some? && Accepted(allow, d) in Flat(Read(lib, s.lines.value))
  }

  predicate SomeSays(lib: Libraries, sources: seq<Source>, allow: bool, d: string) {
    exists k :: 0 <= k < |sources| && Says(lib, sources[k], allow, d)
  }

  /** The union of the sources' sets: what some line of some source says. */
  lemma {:induction false} UnionSays(lib: Libraries, sources: seq<Source>, d: string)
    ensures d in Union(BlocksOf(Tallies(lib, sources))) <==> SomeSays(lib, sources, false, d)
    ensures d in AllowsOf(Tallies(lib, sources)) <==> SomeSays(lib, sources, true, d)
  {
    if |sources| > 0 {
      var front, last := sources[..|sources| - 1], sources[|sources| - 1];
      UnionSays(lib, front, d);
      TallySays(lib, last, d);
      SomeSaysNext(lib, front, last, false, d);
      SomeSaysNext(lib, front, last, true, d);
      assert sources == front + [last];
      UnionNext(Tallies(lib, front), TallyOf(lib, last));
    }
  }

  lemma UnionNext(tallies: seq<Tally>, t: Tally)
    ensures Union(BlocksOf(tallies + [t])) == Union(BlocksOf(tallies)) + t.blocks
    ensures AllowsOf(tallies + [t]) == AllowsOf(tallies) + t.allows
  {
    assert (tallies + [t])[..|tallies|] == tallies;
    var sets := BlocksOf(tallies);
    assert BlocksOf(tallies + [t]) == sets + [t.blocks] && (sets + [t.blocks])[..|sets|] == sets;
  }

  lemma TallySays(lib: Libraries, s: Source, d: string)
    ensures d in TallyOf(lib, s).blocks <==> Says(lib, s, false, d)
    ensures d in TallyOf(lib, s).allows <==> Says(lib, s, true, d)
  {
    if s.lines.Some? { SourceExact(Read(lib, s.lines.value)); }
  }

  lemma SomeSaysNext(lib: Libraries, front: seq<Source>, last: Source, allow: bool, d: string)
    ensures SomeSays(lib, front + [last], allow, d) <==> SomeSays(lib, front, allow, d) || Says(lib, last, allow, d)
  {
    var sources := front + [last];
    assert forall k :: 0 <= k < |front| ==> sources[k] == front[k];
    if SomeSays(lib, front, allow, d) {
      var k :| 0 <= k < |front| && Says(lib, front[k], allow, d);
      assert Says(lib, sources[k], allow, d);
    }
    if Says(lib, last, allow, d) { assert Says(lib, sources[|front|], allow, d); }
  }

  /** The domains the k-th source blocks and no earlier one does. */
  function New(tallies: seq<Tally>, k: nat): set<string>
    requires k < |tallies|
  {
    set d | d in tallies[k].blocks && forall j :: 0 <= j < k ==> d !in tallies[j].blocks
  }

  lemma NewIsContribution(tallies: seq<Tally>, k: nat)
    requires k < |tallies| == |BlocksOf(tallies)|
    ensures Contribution(BlocksOf(tallies), k) == New(tallies, k)
  {
    BlocksAt(tallies);
    var sets := BlocksOf(tallies);
    forall d
      ensures d in Union(sets[..k]) <==> exists j :: 0 <= j < k && d in tallies[j].blocks
    {
      InUnion(sets[..k], d);
      if d in Union(sets[..k]) {
        var j :| 0 <= j < k && d in sets[..k][j];
        assert d in tallies[j].blocks;
      }
      if j :| 0 <= j < k && d in tallies[j].blocks { assert d in sets[..k][j]; }
    }
  }

  /** Parsed entries are duplicates, unique contributions or exceptions; no figure is negative. */
  lemma SourceConserved(lib: Libraries, sources: seq<Source>, perSource: map<nat, Figures>, k: nat)
    requires |Tallies(lib, sources)| == |BlocksOf(Tallies(lib, sources))| == |sources|
    requires Recorded(perSource, sources, Tallies(lib, sources), BlocksOf(Tallies(lib, sources)), |sources|)
             && k < |sources|
    ensures var f := perSource[sources[k].id]; f.parsed == f.duplicates + f.unique + f.exceptions && f.duplicates >= 0
    ensures var f, t := perSource[sources[k].id], Tallies(lib, sources)[k];
            f.parsed == t.parsed && f.exceptions == |t.allows| && f.unique == |New(Tallies(lib, sources), k)|
  {
    var tallies := Tallies(lib, sources);
    NewIsContribution(tallies, k);
    TalliesBalanced(lib, sources);
    BlocksAt(tallies);
    SubsetCard(Contribution(BlocksOf(tallies), k), tallies[k].blocks);
  }

  function UniqueFigures(perSource: map<nat, Figures>, sources: seq<Source>): nat {
    if |sources| == 0 then 0
    else
      UniqueFigures(perSource, sources[..|sources| - 1])
      + Lookup(perSource, sources[|sources| - 1].id).GetOr(Figures(0, 0, 0, 0)).unique
  }

  lemma {:induction false} FiguresAddUp(perSource: map<nat, Figures>, sources: seq<Source>, tallies: seq<Tally>,
      sets: seq<set<string>>)
    requires |sources| == |tallies| == |sets| && Recorded(perSource, sources, tallies, sets, |sources|)
    ensures UniqueFigures(perSource, sources) == UniqueTotal(sets)
  {
    if |sources| > 0 {
      var n := |sources| - 1;
      forall k | 0 <= k < n
        ensures Contribution(sets[..n], k) == Contribution(sets, k)
      {
        assert sets[..n][..k] == sets[..k];
      }
      FiguresAddUp(perSource, sources[..n], tallies[..n], sets[..n]);
      assert Recorded(perSource, sources, tallies, sets, |sources|);
      assert perSource[sources[n].id] == FiguresOf(tallies[n], |Contribution(sets, n)|);
    }
  }

  predicate DistinctIds(sources: seq<Source>) {
    forall i, j :: 0 <= i < j < |sources| ==> sources[i].id != sources[j].id
  }

  /** The first loop of collect_rules. */
  method ParseSources(lib: Libraries, sources: seq<Source>)
    returns (tallies: seq<Tally>, allBlocks: set<string>, allAllows: set<string>)
    ensures tallies == Tallies(lib, sources)
    ensures allBlocks == Union(BlocksOf(tallies)) && allAllows == AllowsOf(tallies)
  {
    tallies, allBlocks, allAllows := [], {}, {};
    for k := 0 to |sources|
      invariant tallies == Tallies(lib, sources[..k])
      invariant allBlocks == Union(BlocksOf(tallies)) && allAllows == AllowsOf(tallies)
    {
      assert sources[..k + 1][..k] == sources[..k];
      var t := EMPTY;
      if sources[k].lines.Some? {
        t := ParseRuleLines(lib, sources[k].lines.value);
        allBlocks := allBlocks + t.blocks;
        allAllows := allAllows + t.allows;
      }
      assert (tallies + [t])[..|tallies|] == tallies;
      assert BlocksOf(tallies + [t])[..|BlocksOf(tallies)|] == BlocksOf(tallies);
      tallies := tallies + [t];
    }
    assert sources[..|sources|] == sources;
  }

  lemma RecordedNext(perSource: map<nat, Figures>, sources: seq<Source>, tallies: seq<Tally>, sets: seq<set<string>>,
                     k: nat)
    requires DistinctIds(sources) && |sources| == |tallies| == |sets| && k < |sources|
    requires Recorded(perSource, sources, tallies, sets, k)
    ensures Recorded(perSource[sources[k].id := FiguresOf(tallies[k], |Contribution(sets, k)|)],
                     sources, tallies, sets, k + 1)
  {
  }

  /** The second loop of collect_rules: contributions in source order. */
  method Contributions(sources: seq<Source>, tallies: seq<Tally>) returns (perSource: map<nat, Figures>)
    requires DistinctIds(sources) && |sources| == |tallies| == |BlocksOf(tallies)|
    ensures Recorded(perSource, sources, tallies, BlocksOf(tallies), |sources|)
  {
    BlocksAt(tallies);
    ghost var sets := BlocksOf(tallies);
    perSource := map[];
    var seen: set<string> := {};
    for k := 0 to |sources|
      invariant seen == Union(sets[..k]) && Recorded(perSource, sources, tallies, sets, k)
    {
      assert sets[..k + 1][..k] == sets[..k];
      RecordedNext(perSource, sources, tallies, sets, k);
      var blocks := tallies[k].blocks;
      perSource := perSource[sources[k].id := FiguresOf(tallies[k], |blocks - seen|)];
      seen := seen + blocks;
    }
  }

  /** The figures of every source and the domains to block: the whole of collect_rules' arithmetic. */
  method CollectRules(lib: Libraries, sources: seq<Source>)
    returns (activeBlocks: set<string>, allBlocks: set<string>, allAllows: set<string>, perSource: map<nat, Figures>)
    requires DistinctIds(sources)
    ensures activeBlocks == allBlocks - allAllows
    ensures allBlocks == Union(BlocksOf(Tallies(lib, sources))) && allAllows == AllowsOf(Tallies(lib, sources))
    ensures |Tallies(lib, sources)| == |BlocksOf(Tallies(lib, sources))| == |sources|
    ensures Recorded(perSource, sources, Tallies(lib, sources), BlocksOf(Tallies(lib, sources)), |sources|)
    ensures UniqueFigures(perSource, sources) == |allBlocks|
    ensures forall k :: 0 <= k < |sources| ==>
              (sources[k].id in perSource
               && var f, t := perSource[sources[k].id], Tallies(lib, sources)[k];
                  && f.parsed == f.duplicates + f.unique + f.exceptions && f.duplicates >= 0
                  && f.parsed == t.parsed && f.exceptions == |t.allows| && f.unique == |New(Tallies(lib, sources), k)|)
    ensures forall d :: d in activeBlocks <==> SomeSays(lib, sources, false, d) && !SomeSays(lib, sources, true, d)
  {
    var tallies;
    tallies, allBlocks, allAllows := ParseSources(lib, sources);
    TalliesBalanced(lib, sources);
    BlocksAt(tallies);
    perSource := Contributions(sources, tallies);
    FiguresAddUp(perSource, sources, tallies, BlocksOf(tallies));
    UniqueAddsUp(BlocksOf(tallies));
    forall k | 0 <= k < |sources|
      ensures sources[k].id in perSource
      ensures var f, t := perSource[sources[k].id], Tallies(lib, sources)[k];
              && f.parsed == f.duplicates + f.unique + f.exceptions && f.duplicates >= 0
              && f.parsed == t.parsed && f.exceptions == |t.allows| && f.unique == |New(Tallies(lib, sources), k)|
    {
      SourceConserved(lib, sources, perSource, k);
    }
    forall d
      ensures d in allBlocks <==> SomeSays(lib, sources, false, d)
      ensures d in allAllows <==> SomeSays(lib, sources, true, d)
    {
      UnionSays(lib, sources, d);
    }
    activeBlocks := allBlocks - allAllows;
  }
}
