/**
 The policy on dotted text: the lines of the compiled zone file and how `_rpz_status`
 (app/custom_rules.py) reads them back, and the name tests the program makes on strings.
 */
module ZoneFile {
  import opened Wrappers
  import opened Strings
  import opened DomainNames
  import DomainSyntax
  import opened CustomRules
  import CompilerCorrectness
  import opened PolicyCompiler

  // ----- lines -----

  function RdataText(r: Rdata): string {
    match r
    case A(a) => "A " + a.text
    case AAAA(a) => "AAAA " + a.text
    case Passthru => "CNAME rpz-passthru."
    case Nxdomain => "CNAME ."
  }

  function LineText(r: Record): string {
    OwnerText(r.owner) + " " + RdataText(r.rdata)
  }

  /** The file: the header, then one line per record. */
  function FileLines(header: seq<string>, records: seq<Record>): seq<string> {
    if |records| == 0 then header else FileLines(header, records[..|records| - 1]) + [LineText(records[|records| - 1])]
  }

  predicate ListsBlock(texts: seq<string>) { "CNAME ." in texts }

  function Texts(rs: seq<Rdata>): seq<string> {
    if |rs| == 0 then [] else Texts(rs[..|rs| - 1]) + [RdataText(rs[|rs| - 1])]
  }

  /** The lines render_rpz puts before the records. */
  function HeaderLines(serial: string): seq<string> {
    ["$TTL" + " " + "2h", "@" + " " + Soa(serial), "@" + " " + "IN NS localhost.", ""]
  }

  function Soa(serial: string): string { "IN SOA localhost. hostmaster.localhost. " + serial + " 1h 15m 30d 2h" }

  /** split(None, 1): the first word, and what follows it without surrounding blanks. */
  function Halves(line: string): (string, string) {
    var body := Strip(line);
    (body[..WordLength(body)], Strip(body[WordLength(body)..]))
  }

  /** Lines with fewer than two parts, directives and comments are skipped. */
  predicate IsEntry(line: string) {
    var (owner, rest) := Halves(line);
    owner != "" && rest != "" && owner != "@" && owner != "$TTL" && owner[0] != ';'
  }

  /** The entries of one owner, in file order. */
  function TextsAt(lines: seq<string>, owner: string): seq<string> {
    if |lines| == 0 then []
    else
      var last := lines[|lines| - 1];
      TextsAt(lines[..|lines| - 1], owner) + (if IsEntry(last) && Halves(last).0 == owner then [Halves(last).1] else [])
  }

  // ----- names as the compiler stores them -----

  /** The labels of a normalised domain. */
  predicate Stored(n: Name) { forall k :: 0 <= k < |n| ==> DomainSyntax.LabelOk(n[k]) }

  predicate StoredRecord(r: Record) {
    && Stored(r.owner.name)
    && (r.rdata.A? || r.rdata.AAAA? ==>
       r.rdata.address.text != "" && !IsSpace(r.rdata.address.text[|r.rdata.address.text| - 1]))
  }

  lemma {:induction false} TextOfSplit(s: string)
    ensures Text(Split(s, '.')) == s
    decreases |s|
  {
    match IndexOf(s, '.')
    case None =>
    case Some(i) =>
      var rest := Split(s[i + 1..], '.');
      TextOfSplit(s[i + 1..]);
      assert Split(s, '.')[1..] == rest;
      assert s == s[..i] + "." + s[i + 1..];
  }

  /** What the parser stores for a domain is the text of a name as the compiler takes it. */
  lemma NormalizedIsStored(lib: DomainSyntax.Libraries, raw: string, d: string)
    requires DomainSyntax.Normalize(lib, raw) == Some(d)
    ensures Stored(Split(d, '.')) && Text(Split(d, '.')) == d
  {
    TextOfSplit(d);
  }

  lemma StoredIsDomain(n: Name)
    requires Stored(n)
    ensures IsDomain(n)
  {
    forall k | 0 <= k < |n|
      ensures IsLabel(n[k])
    {
      assert DomainSyntax.LabelOk(n[k]);
    }
  }

  lemma {:induction false} StoredText(n: Name)
    requires Stored(n)
    ensures Text(n) != "" && DomainSyntax.Edge(Text(n)[0])
    ensures forall i :: 0 <= i < |Text(n)| ==> '-' <= Text(n)[i] <= 'z' && Text(n)[i] != ';'
    decreases |n|
  {
    assert DomainSyntax.LabelOk(n[0]);
    if |n| > 1 { StoredText(n[1..]); }
  }

  /** The suffix tests on strings are the tests on labels. */
  lemma AtOrBelowOnText(q: Name, d: Name)
    requires Stored(q) && Stored(d)
    ensures Text(q) == Text(d) || EndsWith(Text(q), "." + Text(d)) <==> AtOrBelow(q, d)
  {
    StoredIsDomain(q);
    StoredIsDomain(d);
    EndsWithIsBelow(q, d);
    if Text(q) == Text(d) { TextInjective(q, d); }
    assert q[0..] == q;
  }

  lemma MatchesNameOnText(r: Rule, q: Name)
    requires Stored(q) && (r.DomainRule? ==> Stored(r.domain))
    ensures MatchesName(r, q)
            <==> r.DomainRule?
                 && (Text(q) == Text(r.domain) || (r.subdomains && EndsWith(Text(q), "." + Text(r.domain))))
  {
    if r.DomainRule? {
      StoredIsDomain(q);
      StoredIsDomain(r.domain);
      EndsWithIsBelow(q, r.domain);
      if Text(q) == Text(r.domain) { TextInjective(q, r.domain); }
    }
  }

  // ----- reading the file back -----

  lemma HalvesOf(owner: string, rest: string)
    requires owner != "" && forall i :: 0 <= i < |owner| ==> !IsSpace(owner[i])
    requires rest != "" && !IsSpace(rest[0]) && !IsSpace(rest[|rest| - 1])
    ensures Halves(owner + " " + rest) == (owner, rest)
  {
    var line := owner + " " + rest;
    assert line[0] == owner[0] && line[|line| - 1] == rest[|rest| - 1];
    StripFixed(line);
    assert forall i :: 0 <= i < |owner| ==> line[i] == owner[i];
    assert line[|owner|] == ' ';
    assert WordLength(line) == |owner|;
    assert line[..|owner|] == owner && line[|owner|..] == " " + rest;
    assert (" " + rest)[1..] == rest;
    StripFixed(rest);
  }

  lemma SkippedLine(word: string, rest: string)
    requires word == "@" || word == "$TTL"
    requires rest != "" && !IsSpace(rest[0]) && !IsSpace(rest[|rest| - 1])
    ensures !IsEntry(word + " " + rest)
  {
    HalvesOf(word, rest);
  }

  lemma HeaderHasNoEntries(serial: string)
    ensures forall k :: 0 <= k < |HeaderLines(serial)| ==> !IsEntry(HeaderLines(serial)[k])
  {
    var soa, ns := Soa(serial), "IN NS localhost.";
    assert soa[0] == 'I' && soa[|soa| - 1] == 'h';
    SkippedLine("$TTL", "2h");
    SkippedLine("@", soa);
    SkippedLine("@", ns);
    assert !IsEntry("");
    var header := HeaderLines(serial);
    assert !IsEntry(header[0]) && !IsEntry(header[1]) && !IsEntry(header[2]) && !IsEntry(header[3]);
  }

  lemma LineHalves(r: Record)
    requires StoredRecord(r)
    ensures IsEntry(LineText(r)) && Halves(LineText(r)) == (OwnerText(r.owner), RdataText(r.rdata))
  {
    StoredText(r.owner.name);
    var owner, rest := OwnerText(r.owner), RdataText(r.rdata);
    if r.owner.Wildcard? { assert owner == "*." + Text(r.owner.name); }
    if r.rdata.A? { assert rest == "A " + r.rdata.address.text; }
    if r.rdata.AAAA? { assert rest == "AAAA " + r.rdata.address.text; }
    HalvesOf(owner, rest);
  }

  lemma {:induction false} NoEntries(lines: seq<string>, owner: string)
    requires forall k :: 0 <= k < |lines| ==> !IsEntry(lines[k])
    ensures TextsAt(lines, owner) == []
  {
    if |lines| > 0 { NoEntries(lines[..|lines| - 1], owner); }
  }

  lemma TextsNext(rs: seq<Rdata>, r: Rdata)
    ensures Texts(rs + [r]) == Texts(rs) + [RdataText(r)]
  {
    assert (rs + [r])[..|rs|] == rs;
  }

  lemma TextsAtNext(lines: seq<string>, r: Record, owner: string)
    requires StoredRecord(r)
    ensures TextsAt(lines + [LineText(r)], owner)
            == TextsAt(lines, owner) + (if OwnerText(r.owner) == owner then [RdataText(r.rdata)] else [])
  {
    LineHalves(r);
    assert (lines + [LineText(r)])[..|lines|] == lines;
  }

  lemma SameOwnerText(a: Owner, b: Owner)
    requires Stored(a.name) && Stored(b.name)
    ensures OwnerText(a) == OwnerText(b) <==> a == b
  {
    StoredIsDomain(a.name);
    StoredIsDomain(b.name);
    if OwnerText(a) == OwnerText(b) { OwnerTextInjective(a, b); }
  }

  predicate ReadsAs(lines: seq<string>, o: Owner, rs: seq<Rdata>) { TextsAt(lines, OwnerText(o)) == Texts(rs) }

  lemma ReadsNext(before: seq<string>, init: seq<Record>, last: Record, o: Owner)
    requires Stored(o.name) && StoredRecord(last) && ReadsAs(before, o, RecordsAt(init, o))
    ensures ReadsAs(before + [LineText(last)], o, RecordsAt(init + [last], o))
  {
    TextsAtNext(before, last, OwnerText(o));
    SameOwnerText(last.owner, o);
    assert (init + [last])[..|init|] == init;
    if last.owner == o {
      assert RecordsAt(init + [last], o) == RecordsAt(init, o) + [last.rdata];
      TextsNext(RecordsAt(init, o), last.rdata);
    } else {
      assert RecordsAt(init + [last], o) == RecordsAt(init, o);
    }
  }

  lemma ReadsLast(header: seq<string>, init: seq<Record>, last: Record, o: Owner)
    requires Stored(o.name) && StoredRecord(last) && ReadsAs(FileLines(header, init), o, RecordsAt(init, o))
    ensures ReadsAs(FileLines(header, init + [last]), o, RecordsAt(init + [last], o))
  {
    ReadsNext(FileLines(header, init), init, last, o);
    assert (init + [last])[..|init|] == init;
  }

  lemma {:induction false} ReadsFrom(header: seq<string>, records: seq<Record>, o: Owner)
    requires ReadsAs(header, o, [])
    requires Stored(o.name) && forall k :: 0 <= k < |records| ==> StoredRecord(records[k])
    ensures ReadsAs(FileLines(header, records), o, RecordsAt(records, o))
  {
    if |records| > 0 {
      var init, last := records[..|records| - 1], records[|records| - 1];
      ReadsFrom(header, init, o);
      assert StoredRecord(last);
      ReadsLast(header, init, last, o);
      assert init + [last] == records;
    }
  }

  /** Reading the file back by owner text gives the texts of the records of that owner. */
  lemma FileReads(header: seq<string>, records: seq<Record>, o: Owner)
    requires forall k :: 0 <= k < |header| ==> !IsEntry(header[k])
    requires Stored(o.name) && forall k :: 0 <= k < |records| ==> StoredRecord(records[k])
    ensures TextsAt(FileLines(header, records), OwnerText(o)) == Texts(RecordsAt(records, o))
  {
    NoEntries(header, OwnerText(o));
    ReadsFrom(header, records, o);
  }

  lemma {:induction false} TextsBlock(rs: seq<Rdata>)
    ensures ListsBlock(Texts(rs)) <==> Nxdomain in rs
    ensures |Texts(rs)| == |rs|
  {
    if |rs| > 0 {
      var init, last := rs[..|rs| - 1], rs[|rs| - 1];
      TextsBlock(init);
      assert rs == init + [last];
      assert RdataText(last) == "CNAME ." <==> last == Nxdomain by {
        if last.A? || last.AAAA? { assert RdataText(last)[0] == 'A'; }
        if last.Passthru? { assert RdataText(last)[6] == 'r'; }
      }
    }
  }

  lemma StoredSuffix(q: Name, i: nat)
    requires Stored(q) && i < |q|
    ensures Stored(q[i..])
  {
  }

  predicate Listed(lines: seq<string>, o: Owner) { |TextsAt(lines, OwnerText(o))| > 0 }

  lemma OwnerReads(header: seq<string>, records: seq<Record>, q: Name, i: nat)
    requires forall k :: 0 <= k < |header| ==> !IsEntry(header[k])
    requires Stored(q) && i < |q| && forall k :: 0 <= k < |records| ==> StoredRecord(records[k])
    ensures TextsAt(FileLines(header, records), OwnerText(OwnerAt(q, i))) == Texts(View(records)(OwnerAt(q, i)))
    ensures Listed(FileLines(header, records), OwnerAt(q, i)) <==> View(records)(OwnerAt(q, i)) != []
  {
    StoredSuffix(q, i);
    FileReads(header, records, OwnerAt(q, i));
    TextsBlock(RecordsAt(records, OwnerAt(q, i)));
  }

  /** Index of the first owner at or after i that the file lists. */
  function FirstListed(lines: seq<string>, q: Name, i: nat): (r: Option<nat>)
    ensures r.Some? ==> i <= r.value < |q| && Listed(lines, OwnerAt(q, r.value))
    ensures forall j: nat :: i <= j < |q| && (r.Some? ==> j < r.value) ==> !Listed(lines, OwnerAt(q, j))
    decreases |q| - i
  {
    if i >= |q| then None
    else if Listed(lines, OwnerAt(q, i)) then Some(i)
    else FirstListed(lines, q, i + 1)
  }

  predicate FirstHit(hits: seq<bool>, best: Option<nat>) {
    && (best.Some? ==> best.value < |hits| && hits[best.value])
    && forall j: nat :: j < |hits| && (best.Some? ==> j < best.value) ==> !hits[j]
  }

  lemma FirstHitUnique(hits: seq<bool>, a: Option<nat>, b: Option<nat>)
    requires FirstHit(hits, a) && FirstHit(hits, b)
    ensures a == b
  {
    if a.Some? { assert hits[a.value]; }
    if b.Some? { assert hits[b.value]; }
  }

  /** The best of the owners tried for a name: the exact one, else the wildcard with the most labels. */
  method BestOwner(hits: seq<bool>) returns (best: Option<nat>)
    ensures FirstHit(hits, best)
  {
    best := None;
    for i := 0 to |hits|
      invariant best.Some? ==> best.value < i && hits[best.value]
      invariant forall j: nat :: j < i && (best.Some? ==> j < best.value) ==> !hits[j]
    {
      if hits[i] && (best.None? || (best.value != 0 && |hits| - i > |hits| - best.value)) { best := Some(i); }
    }
  }

  lemma FirstListedIs(lines: seq<string>, q: Name, hits: seq<bool>, best: Option<nat>)
    requires |hits| == |q| && forall j: nat :: j < |q| ==> hits[j] == Listed(lines, OwnerAt(q, j))
    requires FirstHit(hits, best)
    ensures best == FirstListed(lines, q, 0)
  {
    FirstHitUnique(hits, best, FirstListed(lines, q, 0));
  }

  /** _rpz_status on the text of the file: which owner answers for q, what it lists, and whether that blocks. */
  method RpzStatusOfFile(lines: seq<string>, q: Name)
    returns (entry: Option<string>, exact: bool, rdata: seq<string>, blocked: bool)
    ensures match EntryFor(lines, q)
            case None => entry.None? && !exact
            case Some(o) => entry == Some(OwnerText(o)) && exact == o.Exact?
    ensures rdata == ListedFor(lines, q) && blocked == ListsBlock(rdata)
  {
    var hits := seq(|q|, i requires 0 <= i < |q| => Listed(lines, OwnerAt(q, i)));
    var best := BestOwner(hits);
    FirstListedIs(lines, q, hits, best);
    if best.None? { return None, false, [], false; }
    entry, exact := Some(OwnerText(OwnerAt(q, best.value))), best.value == 0;
    rdata := TextsAt(lines, entry.value);
    blocked := ListsBlock(rdata);
  }

  /** The owner that answers for a name in the file. */
  function EntryFor(lines: seq<string>, q: Name): Option<Owner> {
    var i := FirstListed(lines, q, 0);
    if i.Some? then Some(OwnerAt(q, i.value)) else None
  }

  /** What the file lists for a name. */
  function ListedFor(lines: seq<string>, q: Name): seq<string> {
    var i := FirstListed(lines, q, 0);
    if i.Some? then TextsAt(lines, OwnerText(OwnerAt(q, i.value))) else []
  }

  /** On a rendered file it answers as the zone does: the same records, and blocked exactly when they block. */
  lemma FileAnswers(header: seq<string>, records: seq<Record>, q: Name)
    requires forall k :: 0 <= k < |header| ==> !IsEntry(header[k])
    requires Stored(q) && forall k :: 0 <= k < |records| ==> StoredRecord(records[k])
    ensures var answer := RpzAnswer(View(records), q);
            && EntryFor(FileLines(header, records), q) == RpzEntry(View(records), q)
            && ListedFor(FileLines(header, records), q) == Texts(answer)
            && ListsBlock(Texts(answer)) == RpzBlocks(answer)
  {
    var lines, zone := FileLines(header, records), View(records);
    forall i: nat | i < |q|
      ensures TextsAt(lines, OwnerText(OwnerAt(q, i))) == Texts(zone(OwnerAt(q, i)))
      ensures Listed(lines, OwnerAt(q, i)) <==> zone(OwnerAt(q, i)) != []
    {
      OwnerReads(header, records, q, i);
    }
    SameFirst(lines, zone, q);
    TextsBlock(RpzAnswer(zone, q));
  }

  lemma FirstOwnerIs(zone: Zone, q: Name, hits: seq<bool>, best: Option<nat>)
    requires |hits| == |q| && forall j: nat :: j < |q| ==> hits[j] == (zone(OwnerAt(q, j)) != [])
    requires FirstHit(hits, best)
    ensures best == FirstOwner(zone, q, 0)
  {
    FirstHitUnique(hits, best, FirstOwner(zone, q, 0));
  }

  lemma SameFirst(lines: seq<string>, zone: Zone, q: Name)
    requires forall i: nat :: i < |q| ==> (Listed(lines, OwnerAt(q, i)) <==> zone(OwnerAt(q, i)) != [])
    ensures FirstListed(lines, q, 0) == FirstOwner(zone, q, 0)
  {
    var hits := seq(|q|, i requires 0 <= i < |q| => Listed(lines, OwnerAt(q, i)));
    FirstOwnerIs(zone, q, hits, FirstListed(lines, q, 0));
  }

  // ----- the files a deployment renders -----

  predicate StoredAddress(a: Address) { a.text != "" && !IsSpace(a.text[|a.text| - 1]) }

  predicate StoredRule(r: Rule) {
    r.DomainRule? ==> Stored(r.domain) && (r.action.Rewrite? ==> StoredAddress(r.action.address))
  }

  lemma {:induction false} RecordListed(records: seq<Record>, k: nat)
    requires k < |records|
    ensures records[k].rdata in RecordsAt(records, records[k].owner)
  {
    var init := records[..|records| - 1];
    if k < |init| {
      RecordListed(init, k);
      assert init[k] == records[k];
    }
  }

  lemma ClaimedIsStored(rules: seq<Rule>, d: Name, wildcard: bool)
    requires Claims(Compiled(rules, d), wildcard) && forall r :: r in rules ==> StoredRule(r)
    ensures Stored(d)
  {
    var k :| Has(rules, Selector(k, d, Every));
    var r :| r in rules && Selects(Selector(k, d, Every), r);
    assert StoredRule(r);
  }

  lemma AddressIsStored(rules: seq<Rule>, d: Name, v4: bool)
    requires FirstAddress(rules, d, v4).Some? && forall r :: r in rules ==> StoredRule(r)
    ensures StoredAddress(FirstAddress(rules, d, v4).value)
  {
    CompilerCorrectness.FirstAddressIsFirst(rules, d, v4);
    var i: nat :| i < |rules| && Selects(Selector(KRewrite, d, Every), rules[i])
      && rules[i].action.address == FirstAddress(rules, d, v4).value;
    assert StoredRule(rules[i]);
  }

  lemma AddressRecordFrom(n: NameRules, wildcard: bool, external: bool, rdata: Rdata)
    requires rdata in OwnerRecords(n, wildcard, external) && (rdata.A? || rdata.AAAA?)
    ensures n.rewrite.Some? && (n.rewrite.value.a == Some(rdata.address) || n.rewrite.value.aaaa == Some(rdata.address))
  {
  }

  /** Rules and block lists of normalised names render only records the file reader understands. */
  lemma RenderedIsStored(rules: seq<Rule>, external: set<Name>, r: Record)
    requires forall x :: x in rules ==> StoredRule(x)
    requires forall d :: d in external ==> Stored(d)
    requires r.rdata in ZoneOf(rules, external)(r.owner)
    ensures StoredRecord(r)
  {
    var o, n := r.owner, Compiled(rules, r.owner.name);
    var inFile := o.name in Remaining(rules, external);
    assert r.rdata in OwnerRecords(n, o.Wildcard?, inFile);
    if Claims(n, o.Wildcard?) { ClaimedIsStored(rules, o.name, o.Wildcard?); }
    if r.rdata.A? || r.rdata.AAAA? {
      AddressRecordFrom(n, o.Wildcard?, inFile, r.rdata);
      AddressIsStored(rules, o.name, n.rewrite.value.a == Some(r.rdata.address));
    }
  }

  /** The text of any deployed zone file answers every stored name as the zone does. */
  lemma DeployedFileAnswers(rules: seq<Rule>, external: set<Name>, records: seq<Record>, serial: string, q: Name)
    requires forall r :: r in rules ==> StoredRule(r)
    requires forall d :: d in external ==> Stored(d)
    requires forall o :: RecordsAt(records, o) == ZoneOf(rules, external)(o)
    requires Stored(q)
    ensures var answer := RpzAnswer(ZoneOf(rules, external), q);
            && EntryFor(FileLines(HeaderLines(serial), records), q) == RpzEntry(ZoneOf(rules, external), q)
            && ListedFor(FileLines(HeaderLines(serial), records), q) == Texts(answer)
            && ListsBlock(Texts(answer)) == RpzBlocks(answer)
  {
    HeaderHasNoEntries(serial);
    forall k | 0 <= k < |records|
      ensures StoredRecord(records[k])
    {
      RecordListed(records, k);
      RenderedIsStored(rules, external, records[k]);
    }
    FileAnswers(HeaderLines(serial), records, q);
    CompilerCorrectness.SameZoneSameAnswer(View(records), ZoneOf(rules, external), q);
  }

  // ----- the addresses in the file -----

  lemma AddressText(r: Rdata, t: string)
    ensures RdataText(r) == "A " + t <==> r.A? && r.address.text == t
    ensures RdataText(r) == "AAAA " + t <==> r.AAAA? && r.address.text == t
  {
    var a, aaaa := "A " + t, "AAAA " + t;
    assert a[0] == 'A' && a[1] == ' ' && aaaa[0] == 'A' && aaaa[1] == 'A';
    match r
    case A(x) => assert ("A " + x.text)[1] == ' ' && ("A " + x.text)[2..] == x.text && a[2..] == t;
    case AAAA(x) => assert ("AAAA " + x.text)[1] == 'A' && ("AAAA " + x.text)[5..] == x.text && aaaa[5..] == t;
    case Passthru => assert RdataText(r)[0] == 'C';
    case Nxdomain => assert RdataText(r)[0] == 'C';
  }

  lemma {:induction false} AddressesListed(rs: seq<Rdata>, t: string)
    ensures "A " + t in Texts(rs) <==> exists r :: r in rs && r.A? && r.address.text == t
    ensures "AAAA " + t in Texts(rs) <==> exists r :: r in rs && r.AAAA? && r.address.text == t
  {
    if |rs| > 0 {
      var init, last := rs[..|rs| - 1], rs[|rs| - 1];
      AddressesListed(init, t);
      AddressText(last, t);
      assert rs == init + [last];
    }
  }

  lemma AnswerAddresses(rules: seq<Rule>, d: Name, answer: seq<Rdata>, t: string)
    requires answer == (match FirstAddress(rules, d, true) case Some(a) => [A(a)] case None => [])
                       + (match FirstAddress(rules, d, false) case Some(a) => [AAAA(a)] case None => [])
    ensures "A " + t in Texts(answer) <==> FirstAddress(rules, d, true) == Some(V4(t))
    ensures "AAAA " + t in Texts(answer) <==> FirstAddress(rules, d, false) == Some(V6(t))
  {
    AddressesListed(answer, t);
    if FirstAddress(rules, d, true).Some? { CompilerCorrectness.FirstAddressIsFirst(rules, d, true); }
    if FirstAddress(rules, d, false).Some? { CompilerCorrectness.FirstAddressIsFirst(rules, d, false); }
  }

  /**
   A rewritten name is listed in the deployed file with the first IPv4 address stored for its best
   match as `A` and the first IPv6 address as `AAAA`, and with no other address.
   */
  lemma RewrittenNameListed(rules: seq<Rule>, localZones: set<Name>, external: set<Name>, records: seq<Record>,
                            serial: string, q: Name, rx: Matcher, t: string)
    requires forall r :: r in rules ==> StoredRule(r)
    requires forall d :: d in external ==> Stored(d)
    requires forall o :: RecordsAt(records, o) == ZoneOf(rules, external)(o)
    requires Stored(q)
    requires CompilerCorrectness.Deployment(rules, localZones, external, q, rx) == Rewritten
    requires CompilerCorrectness.Evaluation(rules, localZones, external, q, rx) == Rewritten
    ensures var m, listed := BestMatch(rules, q, 0), ListedFor(FileLines(HeaderLines(serial), records), q);
            && m.Some?
            && ("A " + t in listed <==> FirstAddress(rules, q[m.value..], true) == Some(V4(t)))
            && ("AAAA " + t in listed <==> FirstAddress(rules, q[m.value..], false) == Some(V6(t)))
  {
    DeployedFileAnswers(rules, external, records, serial, q);
    CompilerCorrectness.RewriteAnswer(rules, localZones, external, q, rx);
    AnswerAddresses(rules, q[BestMatch(rules, q, 0).value..], RpzAnswer(ZoneOf(rules, external), q), t);
  }
}
