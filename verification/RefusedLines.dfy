/**
 Which rule lines do nothing (app/custom_rules.py): the name, the pattern or the line itself is
 refused, and the rule that comes out is invalid or inactive.
 */
module RefusedLines {
  import opened Wrappers
  import opened Strings
  import opened DomainSyntax
  import opened RuleParser
  import opened RuleForms
  import opened NormalForm
  import opened LineMeanings
  import RegexScanner

  // ----- names -----

  /** Text without the characters that end a name in a rule, or start a comment or a modifier. */
  predicate NameText(t: string) { forall i :: 0 <= i < |t| ==> ' ' <= t[i] <= '~' && t[i] !in "#^|$" }

  function Marked(subdomains: bool, name: string, trailer: string): string {
    AnchoredName(subdomains, name) + trailer
  }

  lemma MarkedVisible(subdomains: bool, name: string, trailer: string)
    requires NameText(name) && NameText(trailer) && (trailer != "" ==> trailer[|trailer| - 1] != ' ')
    ensures var base := Marked(subdomains, name, trailer);
            && Visible(base) && '$' !in base && base[0] == '|' && Strip(base) == base
            && StartsWith(base, "||") == subdomains && StartsWith(base, "|")
            && base[if subdomains then 2 else 1..] == name + "^" + trailer
  {
    var base, n := Marked(subdomains, name, trailer), if subdomains then 2 else 1;
    var mark := if subdomains then "||" else "|";
    assert base == mark + (name + "^" + trailer);
    assert base[|base| - 1] == if trailer == "" then '^' else trailer[|trailer| - 1];
    StripFixed(base);
    StartsWithPrefix(mark, name + "^" + trailer);
    if !subdomains {
      assert base[1] == (name + "^" + trailer)[0] != '|';
      NotStartsWith(base, "||", 1);
    }
  }

  lemma MarkedName(subdomains: bool, name: string, trailer: string)
    requires NameText(name) && NameText(trailer) && (trailer != "" ==> trailer[|trailer| - 1] != ' ')
    ensures NamePart(Marked(subdomains, name, trailer)) == if trailer == "" then Some(name) else None
  {
    MarkedVisible(subdomains, name, trailer);
    PartitionAt(name + "^" + trailer, name, '^', trailer);
    SplitNone(name, '|');
  }

  /**
   `|name^` and `||name^` stand for the name in its normal form; the rule is invalid exactly when the
   name has none, and inactive whenever anything follows the terminator.
   */
  lemma AnchoredLineIff(lib: Libraries, isAllow: bool, subdomains: bool, name: string, trailer: string, plain: bool)
    requires Lawful(lib) && NameText(name) && NameText(trailer) && (trailer != "" ==> trailer[|trailer| - 1] != ' ')
    ensures var rules := ParseRule(lib, (if isAllow then "@@" else "") + Marked(subdomains, name, trailer), plain);
            && |rules| == 1
            && (rules[0].state == Valid <==> trailer == "" && Normalize(lib, name).Some?)
            && (rules[0].state == NotPreserved <==> trailer != "")
            && (rules[0].state == Valid ==> MeansDomain(rules[0], isAllow, Normalize(lib, name).value, subdomains, 0))
  {
    var base := Marked(subdomains, name, trailer);
    var raw := AnchoredLine(isAllow, base, "");
    assert raw == (if isAllow then "@@" else "") + base;
    MarkedVisible(subdomains, name, trailer);
    MarkedName(subdomains, name, trailer);
    AnchoredClassified(lib, isAllow, base, "");
    AnchoredHead(isAllow, base, "");
    OneDomainRule(lib, raw, plain);
    if trailer == "" && Normalize(lib, name).Some? {
      FinishedMeans(lib, raw, isAllow, Normalize(lib, name).value, subdomains, "");
    }
  }

  // ----- patterns -----

  lemma DelimitedState(lib: Libraries, raw: string, isAllow: bool, body: string, pattern: string)
    requires pattern != "" && body == "/" + pattern + "/" && body[1..|body| - 1] == pattern
    ensures DelimitedRule(lib, raw, isAllow, body, "").state
            == if PatternAccepted(lib, pattern) then Valid else NotPreserved
  {
  }

  lemma PatternState(lib: Libraries, isAllow: bool, pattern: string)
    requires pattern != ""
    ensures ParseRegexRule(lib, RegexText(isAllow, pattern)).state
            == if PatternAccepted(lib, pattern) then Valid else NotPreserved
  {
    PatternParts(isAllow, pattern);
    DelimitedState(lib, RegexText(isAllow, pattern), isAllow, "/" + pattern + "/", pattern);
  }

  lemma PatternClassified(lib: Libraries, raw: string, plain: bool)
    requires raw != "" && Strip(raw) == raw && raw[0] != '!' && raw[0] != '#'
    requires raw[0] == '/' || StartsWith(raw, "@@/")
    ensures var rules := ParseRule(lib, raw, plain);
            rules == [ParseRegexRule(lib, raw)]
            || ((exists i :: 0 <= i < |raw| && Control(raw[i])) && |rules| == 1 && rules[0].state == Invalid)
  {
    assert Control('\n') && Control('\r');
    var kind := Classify(lib, raw);
    assert ParseRule(lib, raw, plain) == ParseAs(lib, raw, kind, plain);
  }

  lemma ControlHeld(pattern: string, raw: string)
    requires forall c :: Control(c) ==> (c in raw <==> c in pattern)
    requires exists i :: 0 <= i < |raw| && Control(raw[i])
    ensures exists i :: 0 <= i < |pattern| && Control(pattern[i])
  {
    var i :| 0 <= i < |raw| && Control(raw[i]);
    assert raw[i] in raw;
    var k :| 0 <= k < |pattern| && pattern[k] == raw[i];
  }

  /**
   A pattern is kept exactly when it has at most 512 characters and no control character among them,
   compiles, and nests no quantifiers.
   */
  lemma PatternKeptIff(lib: Libraries, isAllow: bool, pattern: string, plain: bool)
    requires pattern != ""
    ensures var rules := ParseRule(lib, (if isAllow then "@@" else "") + "/" + pattern + "/", plain);
            && |rules| == 1
            && (rules[0].state == Valid
                <==> |pattern| <= 512
                     && (forall i :: 0 <= i < |pattern| ==> pattern[i] >= ' ' && pattern[i] != 127 as char)
                     && lib.compiles(pattern) && !RegexScanner.Scan(pattern, [false], false))
  {
    var raw := RegexText(isAllow, pattern);
    PatternText(isAllow, pattern);
    PatternState(lib, isAllow, pattern);
    assert forall i :: 0 <= i < |pattern| ==>
                         (Control(pattern[i]) <==> !(pattern[i] >= ' ' && pattern[i] != 127 as char));
    PatternClassified(lib, raw, plain);
    if exists i :: 0 <= i < |raw| && Control(raw[i]) { ControlHeld(pattern, raw); }
  }

  // ----- lines -----

  /** The characters at which str.splitlines ends a line. */
  predicate LineBreak(c: char) { c in "\n\r" || 11 as char <= c <= 12 as char || 28 as char <= c <= 30 as char }

  /** A rule of several lines is one invalid rule, which shows the start of the first. */
  lemma SeveralLinesInvalid(lib: Libraries, first: string, end: char, rest: string, plain: bool)
    requires first != "" && !IsSpace(first[0]) && rest != "" && !IsSpace(rest[|rest| - 1])
    requires LineBreak(end) && forall i :: 0 <= i < |first| ==> !LineBreak(first[i])
    requires end == '\n' || end == '\r' || '\n' in rest || '\r' in rest
    ensures var rules := ParseRule(lib, first + [end] + rest, plain);
            && |rules| == 1 && rules[0].state == Invalid && rules[0].action == NoAction
            && rules[0].text == if |first| > 120 then first[..120] else first
  {
    var raw := first + [end] + rest;
    assert raw[0] == first[0] && raw[|raw| - 1] == rest[|rest| - 1];
    StripFixed(raw);
    FirstLineEnd(first, end, rest);
    assert raw[..|first|] == first;
    assert Classify(lib, raw) == SeveralLines by { assert end in raw && forall c :: c in rest ==> c in raw; }
    assert ParseRule(lib, raw, plain) == ParseAs(lib, raw, SeveralLines, plain);
  }

  lemma {:induction false} FirstLineEnd(first: string, end: char, rest: string)
    requires LineBreak(end) && forall i :: 0 <= i < |first| ==> !LineBreak(first[i])
    ensures LineEnd(first + [end] + rest) == |first|
    decreases |first|
  {
    var raw := first + [end] + rest;
    if first == "" {
      assert raw[0] == end;
    } else {
      assert raw[1..] == first[1..] + [end] + rest && raw[0] == first[0];
      FirstLineEnd(first[1..], end, rest);
    }
  }

  /** A line with a control character is invalid. */
  lemma ControlLineInvalid(lib: Libraries, raw: string, i: nat, plain: bool)
    requires Strip(raw) == raw && '\n' !in raw && '\r' !in raw
    requires i < |raw| && (raw[i] < ' ' || raw[i] == 127 as char) && raw[i] != '\t'
    ensures var rules := ParseRule(lib, raw, plain);
            |rules| == 1 && rules[0].state == Invalid && rules[0].action == NoAction
  {
    assert Control(raw[i]);
    assert Classify(lib, raw) == ControlLine;
  }

  lemma SiteIsNoAddress(lib: Libraries, site: string, rest: string)
    requires Lawful(lib) && site != "" && 'a' <= site[0] <= 'z' && ':' !in site && '#' !in site
    ensures ParseHosts(lib, site + "#" + rest) == []
  {
    PartitionAt(site + "#" + rest, site, '#', rest);
    FirstWord(site);
    var word := Words(site)[0];
    assert word == site[..WordLength(site)];
    assert !AddressShape(word) by {
      assert forall c :: c in word ==> c in site;
    }
  }

  lemma CosmeticKind(lib: Libraries, raw: string)
    requires raw != "" && 'a' <= raw[0] <= 'z' && !StartsWith(raw, "@@/")
    requires '\n' !in raw && '\r' !in raw && forall i :: 0 <= i < |raw| ==> !Control(raw[i])
    requires ParseHosts(lib, raw) == [] && Cosmetic(raw)
    ensures Classify(lib, raw) == CosmeticLine
  {
  }

  lemma OneCosmeticLine(lib: Libraries, raw: string, plain: bool)
    requires raw != "" && Strip(raw) == raw && Classify(lib, raw) == CosmeticLine
    ensures ParseRule(lib, raw, plain) == [Inactive(InvalidRule(raw))]
  {
    assert ParseRule(lib, raw, plain) == ParseAs(lib, raw, CosmeticLine, plain);
  }

  lemma MarkerCosmetic(site: string, marker: string, rest: string)
    requires marker in ["##", "#@#", "#%#", "#$#"]
    ensures Cosmetic(site + marker + rest) && site + marker + rest == site + "#" + (marker[1..] + rest)
  {
    var raw := site + marker + rest;
    assert raw[|site|..|site| + |marker|] == marker;
    assert OccursAt(raw, marker, |site|);
  }

  /** Element-hiding and scriptlet rules of a site are kept as text and do nothing. */
  lemma CosmeticLineInactive(lib: Libraries, site: string, marker: string, rest: string, plain: bool)
    requires Lawful(lib) && marker in ["##", "#@#", "#%#", "#$#"]
    requires site != "" && 'a' <= site[0] <= 'z' && ':' !in site && '#' !in site
    requires forall c :: c in site + marker + rest ==> !Control(c)
    requires rest != "" && !IsSpace(rest[|rest| - 1])
    ensures var rules := ParseRule(lib, site + marker + rest, plain);
            |rules| == 1 && MeansInactive(rules[0])
  {
    var raw := site + marker + rest;
    assert raw[0] == site[0] && raw[|raw| - 1] == rest[|rest| - 1];
    StripFixed(raw);
    MarkerCosmetic(site, marker, rest);
    SiteIsNoAddress(lib, site, marker[1..] + rest);
    PlainLine(raw);
    NotStartsWith(raw, "@@/", 0);
    CosmeticKind(lib, raw);
    OneCosmeticLine(lib, raw, plain);
  }
}
