/**
 The text of the dnsdist data files (render_dnsdist_data in app/custom_rules.py), how the
 static Lua loader reads it back, and both layers run on the deployed texts alone.
 */
module DataFiles {
  import opened Wrappers
  import opened Strings
  import opened DomainNames
  import opened CustomRules
  import CompilerCorrectness
  import opened PolicyCompiler
  import DomainSyntax
  import RuleForms
  import RuleParser
  import opened ZoneFile

  // ----- one file -----

  predicate LineSafe(entry: string) { forall i :: 0 <= i < |entry| ==> !RuleParser.Control(entry[i]) }

  predicate AllSafe(entries: seq<string>) { forall k :: 0 <= k < |entries| ==> LineSafe(entries[k]) }

  /** "\n".join */
  function Joined(entries: seq<string>): string {
    if |entries| == 0 then ""
    else if |entries| == 1 then entries[0]
    else entries[0] + "\n" + Joined(entries[1..])
  }

  function Ended(entries: seq<string>): string { Joined(entries) + (if |entries| == 0 then "" else "\n") }

  /** An entry with a control character makes the rendering fail. */
  function FileText(entries: seq<string>): Option<string> {
    if AllSafe(entries) then Some(Ended(entries)) else None
  }

  /** handle:lines(), empty lines skipped. */
  function LuaLines(text: string): seq<string>
    decreases |text|
  {
    match IndexOf(text, '\n')
    case None => if text == "" then [] else [text]
    case Some(i) => (if i == 0 then [] else [text[..i]]) + LuaLines(text[i + 1..])
  }

  function NonEmpty(entries: seq<string>): seq<string> {
    if |entries| == 0 then [] else (if entries[0] == "" then [] else [entries[0]]) + NonEmpty(entries[1..])
  }

  lemma FirstLine(entry: string, more: string)
    requires LineSafe(entry)
    ensures LuaLines(entry + "\n" + more) == (if entry == "" then [] else [entry]) + LuaLines(more)
  {
    var text := entry + "\n" + more;
    assert text[|entry|] == '\n';
    assert forall i :: 0 <= i < |entry| ==> text[i] == entry[i];
    assert IndexOf(text, '\n') == Some(|entry|);
    assert text[..|entry|] == entry && text[|entry| + 1..] == more;
  }

  /** The loader reads back exactly the entries that were written, in order, but for empty ones. */
  lemma {:induction false} LinesReadBack(entries: seq<string>)
    requires AllSafe(entries)
    ensures LuaLines(Ended(entries)) == NonEmpty(entries)
  {
    if |entries| > 0 {
      LinesReadBack(entries[1..]);
      FirstLine(entries[0], Ended(entries[1..]));
      assert Ended(entries) == entries[0] + "\n" + Ended(entries[1..]);
    }
  }

  // ----- lists of names -----

  function NameTexts(names: seq<Name>): seq<string> {
    seq(|names|, i requires 0 <= i < |names| => Text(names[i]))
  }

  predicate Lists(lines: seq<string>, names: set<Name>) {
    && (forall d :: d in names ==> Text(d) in lines)
    && (forall k :: 0 <= k < |lines| ==> exists d :: d in names && lines[k] == Text(d))
  }

  lemma {:induction false} NonEmptyKeeps(entries: seq<string>)
    requires forall k :: 0 <= k < |entries| ==> entries[k] != ""
    ensures NonEmpty(entries) == entries
  {
    if |entries| > 0 {
      NonEmptyKeeps(entries[1..]);
      assert entries == [entries[0]] + entries[1..];
    }
  }

  lemma StoredSafe(n: Name)
    requires Stored(n)
    ensures LineSafe(Text(n)) && Text(n) != ""
  {
    StoredText(n);
  }

  /** A file of names is never refused, and the loader reads exactly those names. */
  lemma NamesReadBack(names: set<Name>, listed: seq<Name>)
    requires forall d :: d in names ==> Stored(d)
    requires forall d :: d in listed <==> d in names
    ensures FileText(NameTexts(listed)).Some? && Lists(LuaLines(FileText(NameTexts(listed)).value), names)
  {
    var lines := NameTexts(listed);
    forall k | 0 <= k < |lines|
      ensures LineSafe(lines[k]) && lines[k] != ""
    {
      assert listed[k] in listed;
      StoredSafe(listed[k]);
    }
    LinesReadBack(lines);
    NonEmptyKeeps(lines);
    forall d | d in names
      ensures Text(d) in lines
    {
      var i :| 0 <= i < |listed| && listed[i] == d;
      assert lines[i] == Text(d);
    }
    forall k | 0 <= k < |lines|
      ensures exists d :: d in names && lines[k] == Text(d)
    {
      assert listed[k] in listed && lines[k] == Text(listed[k]);
    }
  }

  predicate SuffixOnText(lines: seq<string>, qname: string) {
    exists k :: 0 <= k < |lines| && (qname == lines[k] || EndsWith(qname, "." + lines[k]))
  }

  lemma ListedMatch(lines: seq<string>, names: set<Name>, q: Name)
    requires Lists(lines, names) && Stored(q) && forall d :: d in names ==> Stored(d)
    ensures SuffixOnText(lines, Text(q)) <==> SuffixMatch(names, q)
    ensures Text(q) in lines <==> q in names
  {
    if k :| 0 <= k < |lines| && (Text(q) == lines[k] || EndsWith(Text(q), "." + lines[k])) {
      var d :| d in names && lines[k] == Text(d);
      AtOrBelowOnText(q, d);
    }
    if d :| d in names && AtOrBelow(q, d) {
      AtOrBelowOnText(q, d);
      assert Text(d) in lines;
      var k :| 0 <= k < |lines| && lines[k] == Text(d);
    }
    if k :| 0 <= k < |lines| && lines[k] == Text(q) {
      var d :| d in names && lines[k] == Text(d);
      StoredIsDomain(q);
      StoredIsDomain(d);
      TextInjective(q, d);
    }
  }

  // ----- lists of patterns -----

  predicate Usable(pattern: string) { pattern != "" && LineSafe(pattern) }

  /** The parser stores only patterns that can be written and read back. */
  lemma ParsedPatternUsable(lib: DomainSyntax.Libraries, text: string, plain: bool, k: nat)
    requires DomainSyntax.Lawful(lib) && k < |RuleParser.ParseRule(lib, text, plain)|
    requires var r := RuleParser.ParseRule(lib, text, plain)[k]; r.state == RuleParser.Valid && r.pattern.Some?
    ensures Usable(RuleParser.ParseRule(lib, text, plain)[k].pattern.value)
  {
    RuleForms.ParsedForm(lib, text, plain, k);
  }

  function Backslashes(n: nat): string { seq(n, _ => '\\') }

  lemma {:induction false} TrailingCount(stem: string, n: nat)
    requires stem == "" || stem[|stem| - 1] != '\\'
    ensures TrailingBackslashes(stem + Backslashes(n)) == n
  {
    if n == 0 {
      assert stem + Backslashes(0) == stem;
    } else {
      assert (stem + Backslashes(n))[..|stem| + n - 1] == stem + Backslashes(n - 1);
      TrailingCount(stem, n - 1);
    }
  }

  /**
   A pattern that ends in a `$` with an even number of backslashes before it is deployed with `\.?`
   before that anchor; after an odd number the `$` is a character like any other, and the pattern
   is deployed as it is, as is every pattern that does not end in `$`.
   */
  lemma DeployedPatternIs(stem: string, n: nat)
    requires stem == "" || stem[|stem| - 1] != '\\'
    ensures var body := stem + Backslashes(n);
            && DeployedPattern(body + "$") == (if n % 2 == 0 then body + ['\\', '.', '?', '$'] else body + "$")
            && (stem != "" && stem[|stem| - 1] != '$' ==> DeployedPattern(stem) == stem)
            && (n > 0 ==> DeployedPattern(body) == body)
  {
    var body := stem + Backslashes(n);
    TrailingCount(stem, n);
    assert (body + "$")[..|body + "$"| - 1] == body;
    assert "\\.?$" == ['\\', '.', '?', '$'];
  }

  lemma DeployedUsable(pattern: string)
    ensures LineSafe(DeployedPattern(pattern)) <==> LineSafe(pattern)
    ensures DeployedPattern(pattern) == "" <==> pattern == ""
  {
    var deployed := DeployedPattern(pattern);
    if deployed != pattern {
      var body := pattern[..|pattern| - 1];
      assert deployed == body + "\\.?$" && pattern == body + "$";
      assert forall i :: 0 <= i < |body| ==> deployed[i] == body[i] && pattern[i] == body[i];
    }
  }

  lemma PatternsReadBack(patterns: seq<string>)
    ensures FileText(Deployed(patterns)).Some? <==> AllSafe(patterns)
    ensures (forall k :: 0 <= k < |patterns| ==> Usable(patterns[k])) ==>
              FileText(Deployed(patterns)).Some? && LuaLines(FileText(Deployed(patterns)).value) == Deployed(patterns)
  {
    var deployed := Deployed(patterns);
    forall k | 0 <= k < |patterns|
      ensures LineSafe(deployed[k]) <==> LineSafe(patterns[k])
      ensures deployed[k] == "" <==> patterns[k] == ""
    {
      DeployedUsable(patterns[k]);
    }
    if forall k :: 0 <= k < |patterns| ==> Usable(patterns[k]) {
      LinesReadBack(deployed);
      NonEmptyKeeps(deployed);
    }
  }

  // ----- the four files -----

  datatype DataTexts = DataTexts(suffixes: string, exacts: string, regexAllow: string, regexBlock: string)

  /** Read by the loader, the texts are these lists. */
  predicate Reads(d: DataTexts, l: DnsdistLists) {
    && Lists(LuaLines(d.suffixes), l.suffixes)
    && Lists(LuaLines(d.exacts), l.exacts)
    && LuaLines(d.regexAllow) == l.regexAllow
    && LuaLines(d.regexBlock) == l.regexBlock
  }

  predicate StoredLists(l: DnsdistLists) {
    (forall d :: d in l.suffixes ==> Stored(d)) && (forall d :: d in l.exacts ==> Stored(d))
  }

  /** Rules as the parser stores them. */
  predicate ParsedRule(r: Rule) { StoredRule(r) && (r.RegexRule? ==> Usable(r.pattern)) }

  lemma PassIsStored(rules: seq<Rule>, localZones: set<Name>)
    requires forall r :: r in rules ==> StoredRule(r)
    requires forall d :: d in localZones ==> Stored(d)
    ensures StoredLists(ListsOf(rules, localZones))
  {
    var l := ListsOf(rules, localZones);
    forall d: Name | d in l.suffixes && d !in localZones
      ensures Stored(d)
    {
      ClaimedIsStored(rules, d, true);
    }
    forall d: Name | d in l.exacts
      ensures Stored(d)
    {
      ClaimedIsStored(rules, d, false);
    }
  }

  lemma PatternsUsable(rules: seq<Rule>, passes: bool)
    requires forall r :: r in rules ==> ParsedRule(r)
    ensures forall k :: 0 <= k < |Patterns(rules, passes)| ==> Usable(Patterns(rules, passes)[k])
  {
    forall k | 0 <= k < |Patterns(rules, passes)|
      ensures Usable(Patterns(rules, passes)[k])
    {
      CompilerCorrectness.PatternsMember(rules, passes, Patterns(rules, passes)[k]);
      var r :| r in rules && r.RegexRule? && r.passes == passes && r.pattern == Patterns(rules, passes)[k];
      assert ParsedRule(r);
    }
  }

  /** render_dnsdist_data, down to the text; `sorted` is any enumeration of a set of names. */
  method RenderDataTexts(active: ActiveRuleSet, localZones: set<Name>, sorted: set<Name> -> seq<Name>,
                         ghost rules: seq<Rule>)
    returns (data: Option<DataTexts>)
    requires active.CompiledFrom(rules)
    requires forall s, d :: d in sorted(s) <==> d in s
    requires forall r :: r in rules ==> StoredRule(r)
    requires forall d :: d in localZones ==> Stored(d)
    ensures data.Some? <==> AllSafe(Patterns(rules, true)) && AllSafe(Patterns(rules, false))
    ensures (forall r :: r in rules ==> ParsedRule(r)) ==> data.Some? && Reads(data.value, ListsOf(rules, localZones))
  {
    var l := RenderDnsdistData(active, localZones, rules);
    PassIsStored(rules, localZones);
    NamesReadBack(l.suffixes, sorted(l.suffixes));
    NamesReadBack(l.exacts, sorted(l.exacts));
    PatternsReadBack(Patterns(rules, true));
    PatternsReadBack(Patterns(rules, false));
    if forall r :: r in rules ==> ParsedRule(r) {
      PatternsUsable(rules, true);
      PatternsUsable(rules, false);
    }
    var suffixes, exacts := FileText(NameTexts(sorted(l.suffixes))), FileText(NameTexts(sorted(l.exacts)));
    var allow, block := FileText(l.regexAllow), FileText(l.regexBlock);
    if suffixes.None? || exacts.None? || allow.None? || block.None? { return None; }
    data := Some(DataTexts(suffixes.value, exacts.value, allow.value, block.value));
  }

  // ----- both layers on the deployed texts -----

  predicate TextForwards(d: DataTexts, q: Name, rx: Matcher) {
    || SuffixOnText(LuaLines(d.suffixes), Text(q))
    || Text(q) in LuaLines(d.exacts)
    || AnyPattern(LuaLines(d.regexAllow), q, rx)
    || !AnyPattern(LuaLines(d.regexBlock), q, rx)
  }

  predicate ListsPassthru(texts: seq<string>) { "CNAME rpz-passthru." in texts }

  /** dnsdist on the data files, then BIND on the lines of the zone file. */
  function ExecuteTexts(d: DataTexts, lines: seq<string>, localZones: set<Name>, q: Name, rx: Matcher): Outcome {
    if !TextForwards(d, q, rx) then Blocked
    else if SuffixMatch(localZones, q) then Local
    else
      var texts := ListedFor(lines, q);
      if ListsBlock(texts) then Blocked
      else if texts == [] || ListsPassthru(texts) then Resolves
      else Rewritten
  }

  lemma {:induction false} TextsPassthru(rs: seq<Rdata>)
    ensures ListsPassthru(Texts(rs)) <==> Passthru in rs
  {
    if |rs| > 0 {
      var init, last := rs[..|rs| - 1], rs[|rs| - 1];
      TextsPassthru(init);
      assert rs == init + [last];
      assert RdataText(last) == "CNAME rpz-passthru." <==> last == Passthru by {
        if last.A? || last.AAAA? { assert RdataText(last)[0] == 'A'; }
        if last.Nxdomain? { assert |RdataText(last)| == 7; }
      }
    }
  }

  /** Texts that read as a zone and as lists are executed as these are. */
  lemma TextsExecute(d: DataTexts, l: DnsdistLists, lines: seq<string>, zone: Zone, localZones: set<Name>, q: Name,
                     rx: Matcher)
    requires Reads(d, l) && StoredLists(l) && Stored(q)
    requires ListedFor(lines, q) == Texts(RpzAnswer(zone, q))
    ensures ExecuteTexts(d, lines, localZones, q, rx) == Execute(l, zone, localZones, q, rx)
  {
    ListedMatch(LuaLines(d.suffixes), l.suffixes, q);
    ListedMatch(LuaLines(d.exacts), l.exacts, q);
    TextsBlock(RpzAnswer(zone, q));
    TextsPassthru(RpzAnswer(zone, q));
  }

  /** For a rewritten name the file lists the first address of each family stored for its best match, and no other. */
  ghost predicate ListsAddresses(rules: seq<Rule>, lines: seq<string>, q: Name) {
    var m := BestMatch(rules, q, 0);
    && m.Some?
    && (forall t :: "A " + t in ListedFor(lines, q) <==> FirstAddress(rules, q[m.value..], true) == Some(V4(t)))
    && (forall t :: "AAAA " + t in ListedFor(lines, q) <==> FirstAddress(rules, q[m.value..], false) == Some(V6(t)))
  }

  lemma DeployedTextsAgree(rules: seq<Rule>, localZones: set<Name>, external: set<Name>, data: DataTexts,
                           records: seq<Record>, serial: string, q: Name, rx: Matcher)
    requires forall r :: r in rules ==> StoredRule(r)
    requires forall d :: d in localZones ==> Stored(d)
    requires forall d :: d in external ==> Stored(d)
    requires forall o :: RecordsAt(records, o) == ZoneOf(rules, external)(o)
    requires Reads(data, ListsOf(rules, localZones)) && Stored(q)
    ensures var lines := FileLines(HeaderLines(serial), records);
            var evaluated := CompilerCorrectness.Evaluation(rules, localZones, external, q, rx);
            var outcome := ExecuteTexts(data, lines, localZones, q, rx);
            && (outcome == evaluated <==> CompilerCorrectness.Agrees(rules, localZones, external, q, rx))
            && (outcome == evaluated == Rewritten ==> ListsAddresses(rules, lines, q))
  {
    var lines := FileLines(HeaderLines(serial), records);
    PassIsStored(rules, localZones);
    DeployedFileAnswers(rules, external, records, serial, q);
    TextsExecute(data, ListsOf(rules, localZones), lines, ZoneOf(rules, external), localZones, q, rx);
    CompilerCorrectness.DeploymentAgreesIff(rules, localZones, external, q, rx);
    if CompilerCorrectness.Deployment(rules, localZones, external, q, rx)
       == CompilerCorrectness.Evaluation(rules, localZones, external, q, rx) == Rewritten {
      CompilerCorrectness.RewriteAnswer(rules, localZones, external, q, rx);
      forall t: string {
        RewrittenNameListed(rules, localZones, external, records, serial, q, rx, t);
      }
    }
  }

  /**
   One deployment down to its texts: for rules as the parser stores them nothing is refused, what
   the two programs do with the files agrees with the evaluation exactly under `Agrees`, and the
   zone file lists the addresses a rewritten name is answered with.
   */
  method DeployTexts(rules: seq<Rule>, allBlocks: set<Name>, allAllows: set<Name>, localZones: set<Name>,
                     serial: string, sorted: set<Name> -> seq<Name>, ghost rx: Matcher)
    returns (data: Option<DataTexts>, lines: seq<string>)
    requires forall s, d :: d in sorted(s) <==> d in s
    requires forall r :: r in rules ==> ParsedRule(r)
    requires forall d :: d in localZones ==> Stored(d)
    requires forall d :: d in allBlocks ==> Stored(d)
    ensures data.Some?
    ensures forall q: Name :: Stored(q) ==>
              (ExecuteTexts(data.value, lines, localZones, q, rx)
               == CompilerCorrectness.Evaluation(rules, localZones, allBlocks - allAllows, q, rx)
               <==> CompilerCorrectness.Agrees(rules, localZones, allBlocks - allAllows, q, rx))
    ensures forall q: Name |
              && Stored(q)
              && ExecuteTexts(data.value, lines, localZones, q, rx) == Rewritten
              && CompilerCorrectness.Evaluation(rules, localZones, allBlocks - allAllows, q, rx) == Rewritten ::
              ListsAddresses(rules, lines, q)
  {
    var external := allBlocks - allAllows;
    var active := CollectActive(rules);
    var remaining := active.SubtractAllowed(external, rules);
    var records := RenderRpz(remaining, active);
    data := RenderDataTexts(active, localZones, sorted, rules);
    lines := FileLines(HeaderLines(serial), records);
    forall o
      ensures RecordsAt(records, o) == ZoneOf(rules, external)(o)
    {
      assert active.At(o.name) == Compiled(rules, o.name);
    }
    forall q: Name | Stored(q) {
      DeployedTextsAgree(rules, localZones, external, data.value, records, serial, q, rx);
    }
  }
}
