/**
 The structural half of the post-deploy allow check: every allowed name is absent
 from the active block set, and every custom allow is represented in the zone text.
 The check searches the text for a substring; the proofs show why that is enough.
 */
module AllowValidation {
  import opened Strings
  import opened Wrappers
  import opened DomainNames
  import opened CustomRules
  import opened PolicyCompiler
  import opened ZoneFile

  /** The zone file: its fixed header, then one record per line. */
  function ZoneText(header: string, lines: seq<Record>): string {
    if lines == [] then header
    else ZoneText(header, lines[..|lines| - 1]) + LineText(lines[|lines| - 1]) + "\n"
  }

  function PassthruLine(o: Owner): string { OwnerText(o) + " CNAME rpz-passthru." }

  /** A custom allow has the passthru text its type promises somewhere in the zone. */
  predicate Represented(domain: Name, text: string, allow: Option<DomainEntry>) {
    allow.Some? ==>
      && (allow.value.exact || allow.value.subdomains ==> Contains(text, PassthruLine(Exact(domain))))
      && (allow.value.subdomains ==> Contains(text, PassthruLine(Wildcard(domain))))
  }

  lemma ContainsInMiddle(a: string, b: string, c: string, needle: string)
    requires Contains(b, needle)
    ensures Contains(a + b + c, needle)
  {
    var i: nat :| i <= |b| && OccursAt(b, needle, i);
    assert (a + b + c)[|a| + i..|a| + i + |needle|] == b[i..i + |needle|];
    assert OccursAt(a + b + c, needle, |a| + i);
  }

  lemma ContainsAppended(a: string, b: string, needle: string)
    requires Contains(a, needle)
    ensures Contains(a + b, needle)
  {
    ContainsInMiddle("", a, b, needle);
    assert "" + a + b == a + b;
  }

  lemma {:induction false} LineInText(header: string, lines: seq<Record>, r: Record, needle: string)
    requires r in lines && Contains(LineText(r), needle)
    ensures Contains(ZoneText(header, lines), needle)
  {
    var init, last := lines[..|lines| - 1], lines[|lines| - 1];
    assert lines == init + [last];
    var before, line := ZoneText(header, init), LineText(last);
    if r == last {
      ContainsInMiddle(before, line, "\n", needle);
    } else {
      LineInText(header, init, r, needle);
      ContainsAppended(before, line, needle);
      ContainsAppended(before + line, "\n", needle);
    }
  }

  lemma {:induction false} RecordIsALine(lines: seq<Record>, o: Owner, r: Rdata)
    requires r in RecordsAt(lines, o)
    ensures Record(o, r) in lines
  {
    if lines != [] && r in RecordsAt(lines[..|lines| - 1], o) {
      RecordIsALine(lines[..|lines| - 1], o, r);
    }
  }

  lemma PassthruFound(header: string, lines: seq<Record>, o: Owner)
    requires Passthru in RecordsAt(lines, o)
    ensures Contains(ZoneText(header, lines), PassthruLine(o))
    ensures Contains(ZoneText(header, lines), PassthruLine(Exact(o.name)))
  {
    var r := Record(o, Passthru);
    RecordIsALine(lines, o, Passthru);
    PassthruLineText(o);
    LineInText(header, lines, r, PassthruLine(o));
    LineInText(header, lines, r, PassthruLine(Exact(o.name)));
  }

  /** The wildcard's line contains the line of the name itself. */
  lemma PassthruLineText(o: Owner)
    ensures Contains(LineText(Record(o, Passthru)), PassthruLine(o))
    ensures Contains(LineText(Record(o, Passthru)), PassthruLine(Exact(o.name)))
  {
    var line, end := LineText(Record(o, Passthru)), " CNAME rpz-passthru.";
    assert " " + RdataText(Passthru) == end;
    assert line == OwnerText(o) + end;
    assert OccursAt(line, PassthruLine(o), 0);
    if o.Wildcard? {
      assert line == "*." + (Text(o.name) + end);
      assert line[2..] == PassthruLine(Exact(o.name));
      assert OccursAt(line, PassthruLine(Exact(o.name)), 2);
    }
  }

  /**
   No zone this pipeline renders is ever rejected: an allow whose own name is taken by
   an exact rewrite has no passthru record there, but its wildcard record's text
   contains the text looked for.
   */
  lemma ValidationNeverRejects(rules: seq<Rule>, allBlocks: set<Name>, allAllows: set<Name>, header: string,
      lines: seq<Record>, d: Name)
    requires forall o :: RecordsAt(lines, o) == ZoneOf(rules, allBlocks - allAllows)(o)
    requires d in allAllows || Compiled(rules, d).allow.Some?
    ensures d !in Remaining(rules, allBlocks - allAllows)
    ensures Represented(d, ZoneText(header, lines), Compiled(rules, d).allow)
  {
    var n := Compiled(rules, d);
    if n.allow.Some? {
      if n.allow.value.subdomains {
        assert RecordsAt(lines, Wildcard(d)) == [Passthru];
        PassthruFound(header, lines, Wildcard(d));
      } else if n.allow.value.exact {
        assert RecordsAt(lines, Exact(d)) == [Passthru];
        PassthruFound(header, lines, Exact(d));
      }
    }
  }

  /** Exactly when a surviving allow has no passthru record at its own name: an exact rewrite holds it. */
  lemma ExactPassthruMissingIff(rules: seq<Rule>, external: set<Name>, d: Name)
    requires Compiled(rules, d).allow.Some?
    ensures Passthru in ZoneOf(rules, external)(Exact(d)) <==> !Has(rules, Selector(KRewrite, d, Every))
  {
  }

  // ----- what the substring search finds -----

  const PASSTHRU_TEXT := "CNAME rpz-passthru."

  predicate Unbroken(t: string) { ' ' !in t && '\n' !in t }

  /** A line of stored names and printed addresses. */
  predicate ZoneLine(r: Record) {
    Stored(r.owner.name) && (r.rdata.A? || r.rdata.AAAA? ==> Unbroken(r.rdata.address.text))
  }

  predicate ZoneLines(lines: seq<Record>) { forall r :: r in lines ==> ZoneLine(r) }

  /** Text of whole lines. */
  predicate WholeLines(t: string) { t == "" || t[|t| - 1] == '\n' }

  lemma HeldBetween(text: string, needle: string, i: nat, p: nat, c: char)
    requires OccursAt(text, needle, i) && p < |text| && text[p] == c
    ensures i <= p < i + |needle| ==> c in needle
  {
    if i <= p < i + |needle| { assert needle[p - i] == text[i..i + |needle|][p - i] == text[p]; }
  }

  lemma OccursBefore(before: string, line: string, needle: string, i: nat)
    requires WholeLines(before) && '\n' !in needle && i < |before| && OccursAt(before + line + "\n", needle, i)
    ensures OccursAt(before, needle, i)
  {
    var text := before + line + "\n";
    assert text[|before| - 1] == before[|before| - 1];
    HeldBetween(text, needle, i, |before| - 1, '\n');
    assert before[i..i + |needle|] == text[i..i + |needle|];
  }

  lemma OccursInside(before: string, line: string, needle: string, i: nat)
    requires needle != "" && '\n' !in needle && i >= |before| && OccursAt(before + line + "\n", needle, i)
    ensures OccursAt(line, needle, i - |before|)
  {
    var text := before + line + "\n";
    HeldBetween(text, needle, i, |before| + |line|, '\n');
    assert line[i - |before|..i - |before| + |needle|] == text[i..i + |needle|];
  }

  /** Text without line breaks is found in lines exactly when one of them holds it. */
  lemma FoundInLine(before: string, line: string, needle: string)
    requires WholeLines(before) && needle != "" && '\n' !in needle
    ensures Contains(before + line + "\n", needle) <==> Contains(before, needle) || Contains(line, needle)
  {
    var text := before + line + "\n";
    if Contains(text, needle) {
      var i: nat :| i <= |text| && OccursAt(text, needle, i);
      if i < |before| { OccursBefore(before, line, needle, i); } else { OccursInside(before, line, needle, i); }
    }
    if Contains(before, needle) {
      ContainsAppended(before, line, needle);
      ContainsAppended(before + line, "\n", needle);
    }
    if Contains(line, needle) { ContainsInMiddle(before, line, "\n", needle); }
  }

  lemma WholeText(header: string, lines: seq<Record>)
    requires WholeLines(header)
    ensures WholeLines(ZoneText(header, lines))
  {
  }

  predicate FoundIn(lines: seq<Record>, needle: string) {
    exists r :: r in lines && Contains(LineText(r), needle)
  }

  lemma FoundNext(init: seq<Record>, last: Record, needle: string)
    ensures FoundIn(init + [last], needle) <==> FoundIn(init, needle) || Contains(LineText(last), needle)
  {
    assert last in init + [last];
  }

  lemma {:induction false} FoundInText(header: string, lines: seq<Record>, needle: string)
    requires WholeLines(header) && needle != "" && '\n' !in needle
    ensures Contains(ZoneText(header, lines), needle) <==> Contains(header, needle) || FoundIn(lines, needle)
  {
    if lines != [] {
      var init, last := lines[..|lines| - 1], lines[|lines| - 1];
      FoundInText(header, init, needle);
      WholeText(header, init);
      FoundInLine(ZoneText(header, init), LineText(last), needle);
      FoundNext(init, last, needle);
      assert lines == init + [last];
    }
  }

  lemma SpacesAt(owner: string, kind: string, data: string, k: nat)
    requires ' ' !in owner && ' ' !in kind && ' ' !in data && k < |owner + " " + (kind + " " + data)|
    ensures (owner + " " + (kind + " " + data))[k] == ' ' ==> k == |owner| || k == |owner| + 1 + |kind|
  {
    var line, first, second := owner + " " + (kind + " " + data), |owner|, |owner| + 1 + |kind|;
    if k < first {
      assert line[k] == owner[k];
    } else if first < k < second {
      assert line[k] == kind[k - first - 1];
    } else if k > second {
      assert line[k] == data[k - second - 1];
    }
  }

  lemma SpacesAlign(owner: string, kind: string, data: string, name: string, word: string, rest: string, i: nat)
    requires ' ' !in owner && ' ' !in kind && ' ' !in data && ' ' !in name && ' ' !in word
    requires OccursAt(owner + " " + (kind + " " + data), name + " " + (word + " " + rest), i)
    ensures i + |name| == |owner| && |kind| == |word| && |rest| <= |data|
  {
    var line, needle := owner + " " + (kind + " " + data), name + " " + (word + " " + rest);
    var p, q := i + |name|, i + |name| + 1 + |word|;
    assert line[p] == line[i..i + |needle|][|name|] == needle[|name|] == ' ';
    assert line[q] == line[i..i + |needle|][|name| + 1 + |word|] == needle[|name| + 1 + |word|] == ' ';
    SpacesAt(owner, kind, data, p);
    SpacesAt(owner, kind, data, q);
  }

  lemma ThreeWords(x: string, y: string, z: string)
    ensures var t := x + " " + (y + " " + z);
            && t[0..|x|] == x == t[..|x|] && t[|x| + 1..|x| + 1 + |y|] == y
            && t[|x| + 1 + |y| + 1..|t|] == z == t[|x| + 1 + |y| + 1..]
  {
  }

  lemma PartAt(line: string, needle: string, i: nat, a: nat, b: nat)
    requires OccursAt(line, needle, i) && a <= b <= |needle|
    ensures line[i + a..i + b] == needle[a..b]
  {
    forall k | a <= k < b
      ensures line[i + k] == needle[k]
    {
      assert line[i..i + |needle|][k] == needle[k];
    }
    SamePart(line, needle, i, a, b);
  }

  lemma SamePart(line: string, needle: string, i: nat, a: nat, b: nat)
    requires i + |needle| <= |line| && a <= b <= |needle| && forall k :: a <= k < b ==> line[i + k] == needle[k]
    ensures line[i + a..i + b] == needle[a..b]
  {
    forall j | 0 <= j < b - a
      ensures line[i + a..i + b][j] == needle[a..b][j]
    {
      assert line[i + (a + j)] == needle[a + j];
    }
  }

  /** The owner, then a text with one space of its own: only there can a name and such a text meet. */
  lemma OneMeetingPoint(owner: string, kind: string, data: string, name: string, word: string, rest: string)
    requires ' ' !in owner && ' ' !in kind && ' ' !in data && ' ' !in name && ' ' !in word
    requires Contains(owner + " " + (kind + " " + data), name + " " + (word + " " + rest))
    ensures EndsWith(owner, name) && kind == word && |rest| <= |data| && data[..|rest|] == rest
  {
    var line, needle := owner + " " + (kind + " " + data), name + " " + (word + " " + rest);
    var i: nat :| i <= |line| && OccursAt(line, needle, i);
    SpacesAlign(owner, kind, data, name, word, rest, i);
    ThreeWords(owner, kind, data);
    ThreeWords(name, word, rest);
    var n, p := |name| + 1, |owner| + 1;
    PartAt(line, needle, i, 0, |name|);
    PartAt(line, needle, i, n, n + |word|);
    PartAt(line, needle, i, n + |word| + 1, |needle|);
    assert owner[i..] == line[..|owner|][i..];
    assert data[..|rest|] == line[p + |kind| + 1..][..|rest|];
  }

  lemma OtherKind(r: Record, name: string, kind: string, data: string)
    requires Stored(r.owner.name) && ' ' !in kind && ' ' !in data && ' ' !in name
    requires RdataText(r.rdata) == kind + " " + data && (kind != "CNAME" || |data| < 13)
    ensures !Contains(LineText(r), name + " " + ("CNAME" + " " + "rpz-passthru."))
  {
    OwnerUnbroken(r.owner);
    if Contains(LineText(r), name + " " + ("CNAME" + " " + "rpz-passthru.")) {
      OneMeetingPoint(OwnerText(r.owner), kind, data, name, "CNAME", "rpz-passthru.");
    }
  }

  lemma PassthruHolds(r: Record, name: string)
    requires Stored(r.owner.name) && Unbroken(name) && r.rdata.Passthru?
    ensures Contains(LineText(r), name + " " + ("CNAME" + " " + "rpz-passthru."))
            <==> EndsWith(OwnerText(r.owner), name)
  {
    var owner, needle := OwnerText(r.owner), name + " " + ("CNAME" + " " + "rpz-passthru.");
    OwnerUnbroken(r.owner);
    assert LineText(r) == owner + " " + ("CNAME" + " " + "rpz-passthru.");
    if Contains(LineText(r), needle) {
      OneMeetingPoint(owner, "CNAME", "rpz-passthru.", name, "CNAME", "rpz-passthru.");
    }
    if EndsWith(owner, name) {
      var i := |owner| - |name|;
      assert LineText(r)[i..i + |needle|] == owner[i..] + " " + ("CNAME" + " " + "rpz-passthru.");
      assert OccursAt(LineText(r), needle, i);
    }
  }

  lemma LineHolds(r: Record, name: string)
    requires ZoneLine(r) && Unbroken(name)
    ensures Contains(LineText(r), name + " " + PASSTHRU_TEXT)
            <==> r.rdata.Passthru? && EndsWith(OwnerText(r.owner), name)
  {
    assert PASSTHRU_TEXT == "CNAME" + " " + "rpz-passthru.";
    match r.rdata
    case A(a) =>
      assert RdataText(r.rdata) == "A" + " " + a.text;
      OtherKind(r, name, "A", a.text);
    case AAAA(a) =>
      assert RdataText(r.rdata) == "AAAA" + " " + a.text;
      OtherKind(r, name, "AAAA", a.text);
    case Nxdomain =>
      assert RdataText(r.rdata) == "CNAME" + " " + ".";
      OtherKind(r, name, "CNAME", ".");
    case Passthru => PassthruHolds(r, name);
  }

  lemma OwnerUnbroken(o: Owner)
    requires Stored(o.name)
    ensures Unbroken(OwnerText(o))
  {
    StoredText(o.name);
  }

  /** Some record lets through an owner whose text ends with `name`. */
  predicate PassthruAt(lines: seq<Record>, name: string) {
    exists r :: r in lines && r.rdata.Passthru? && EndsWith(OwnerText(r.owner), name)
  }

  lemma SearchIff(header: string, lines: seq<Record>, name: string)
    requires WholeLines(header) && ZoneLines(lines) && Unbroken(name) && !Contains(header, PASSTHRU_TEXT)
    ensures Contains(ZoneText(header, lines), name + " " + PASSTHRU_TEXT) <==> PassthruAt(lines, name)
  {
    var needle := name + " " + PASSTHRU_TEXT;
    FoundInText(header, lines, needle);
    assert needle[|name| + 1..] == PASSTHRU_TEXT;
    if Contains(header, needle) {
      SuffixWithin(needle, |name| + 1);
      WithinTransitive(header, needle, PASSTHRU_TEXT);
    }
    forall r | r in lines
      ensures Contains(LineText(r), needle) <==> r.rdata.Passthru? && EndsWith(OwnerText(r.owner), name)
    {
      LineHolds(r, name);
    }
  }

  /** Only the wildcard of a name has an owner text that ends with it. */
  lemma WildcardEndIff(o: Owner, d: Name)
    requires Stored(o.name) && Stored(d)
    ensures EndsWith(OwnerText(o), "*." + Text(d)) <==> o == Wildcard(d)
  {
    StoredText(o.name);
    StoredText(d);
    var t, w := OwnerText(o), "*." + Text(d);
    if EndsWith(t, w) {
      assert t[|t| - |w|] == t[|t| - |w|..][0] == '*';
      if o.Wildcard? {
        assert |t| == |w| && t[2..] == w[2..];
        StoredIsDomain(o.name);
        StoredIsDomain(d);
        TextInjective(o.name, d);
      }
    }
  }

  /**
   What the check accepts for an allow: its wildcard part exactly when the zone lets the wildcard of that
   name through, its other part exactly when the zone lets some owner through whose text ends with the
   name, be it the name, its wildcard, a name below it, or another name altogether.
   */
  lemma RepresentedIff(header: string, lines: seq<Record>, d: Name, allow: DomainEntry)
    requires WholeLines(header) && !Contains(header, "CNAME rpz-passthru.") && ZoneLines(lines) && Stored(d)
    ensures Represented(d, ZoneText(header, lines), Some(allow))
            <==> (allow.subdomains ==> exists r :: r in lines && r.rdata.Passthru? && r.owner == Wildcard(d))
                 && (allow.exact || allow.subdomains ==>
                       exists r :: r in lines && r.rdata.Passthru? && EndsWith(OwnerText(r.owner), Text(d)))
  {
    OwnerUnbroken(Exact(d));
    OwnerUnbroken(Wildcard(d));
    assert Text(d) + " CNAME rpz-passthru." == Text(d) + " " + PASSTHRU_TEXT;
    assert OwnerText(Wildcard(d)) + " CNAME rpz-passthru." == "*." + Text(d) + " " + PASSTHRU_TEXT;
    SearchIff(header, lines, Text(d));
    SearchIff(header, lines, "*." + Text(d));
    forall r | r in lines
      ensures EndsWith(OwnerText(r.owner), "*." + Text(d)) <==> r.owner == Wildcard(d)
    {
      WildcardEndIff(r.owner, d);
    }
  }

  lemma LongerNameLine(n: Name, d: Name, before: string)
    requires Text(n) == before + Text(d)
    ensures Contains(LineText(Record(Exact(n), Passthru)), PassthruLine(Exact(d)))
  {
    var whole := PassthruLine(Exact(n));
    assert whole[|before|..] == PassthruLine(Exact(d));
    SuffixWithin(whole, |before|);
    PassthruLineText(Exact(n));
    WithinTransitive(LineText(Record(Exact(n), Passthru)), whole, PassthruLine(Exact(d)));
  }

  lemma LongerLabel(n: Name, d: Name, before: string)
    requires n == [before + d[0]] + d[1..]
    ensures Text(n) == before + Text(d)
  {
    assert n[1..] == d[1..];
  }

  /** So the record of a name that merely ends alike satisfies the check of an exact allow. */
  lemma OtherNamePasses(d: Name)
    ensures var lines := [Record(Exact(["not" + d[0]] + d[1..]), Passthru)];
            && Represented(d, ZoneText("", lines), Some(DomainEntry(true, false, 0)))
            && RecordsAt(lines, Exact(d)) == [] && RecordsAt(lines, Wildcard(d)) == []
  {
    var n: Name := ["not" + d[0]] + d[1..];
    var r := Record(Exact(n), Passthru);
    LongerLabel(n, d, "not");
    LongerNameLine(n, d, "not");
    LineInText("", [r], r, PassthruLine(Exact(d)));
    assert n[0] != d[0] && [r][..0] == [];
  }

  predicate Passes(d: Name, activeBlocks: set<Name>, text: string, allow: Option<DomainEntry>) {
    d !in activeBlocks && Represented(d, text, allow)
  }

  /** The structural checks over the allowed names in sorted order; answers the first failing one. */
  method ValidateAllowDomains(allowed: seq<Name>, activeBlocks: set<Name>, active: ActiveRuleSet, text: string)
    returns (failed: Option<Name>)
    ensures failed.None? <==> forall i :: 0 <= i < |allowed| ==>
            Passes(allowed[i], activeBlocks, text, active.At(allowed[i]).allow)
    ensures failed.Some? ==>
              exists i :: 0 <= i < |allowed| && failed.value == allowed[i]
                && !Passes(allowed[i], activeBlocks, text, active.At(allowed[i]).allow)
                && forall j :: 0 <= j < i ==> Passes(allowed[j], activeBlocks, text, active.At(allowed[j]).allow)
  {
    for i := 0 to |allowed|
      invariant forall j :: 0 <= j < i ==> Passes(allowed[j], activeBlocks, text, active.At(allowed[j]).allow)
    {
      var domain := allowed[i];
      if domain in activeBlocks || !Represented(domain, text, active.At(domain).allow) { return Some(domain); }
    }
    failed := None;
  }

  /** Rendering a deployment and then validating it always succeeds. */
  method DeployAndValidate(rules: seq<Rule>, allBlocks: set<Name>, allAllows: set<Name>, header: string,
                           sorted: set<Name> -> seq<Name>)
    returns (failed: Option<Name>)
    requires forall s, d :: d in sorted(s) <==> d in s
    ensures failed.None?
  {
    var active := CollectActive(rules);
    var activeBlocks := active.SubtractAllowed(allBlocks - allAllows, rules);
    var lines := RenderRpz(activeBlocks, active);
    var allowed := sorted(allAllows + active.allows.Keys);
    failed := ValidateAllowDomains(allowed, activeBlocks, active, ZoneText(header, lines));
    forall i | 0 <= i < |allowed|
      ensures Passes(allowed[i], activeBlocks, ZoneText(header, lines), active.At(allowed[i]).allow)
    {
      var d := allowed[i];
      assert d in allAllows + active.allows.Keys;
      forall o: Owner
        ensures RecordsAt(lines, o) == ZoneOf(rules, allBlocks - allAllows)(o)
      {
        assert active.At(o.name) == Compiled(rules, o.name);
      }
      assert active.At(d) == Compiled(rules, d);
      ValidationNeverRejects(rules, allBlocks, allAllows, header, lines, d);
    }
  }
}
