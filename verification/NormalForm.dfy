/** The normal form of a rule and the parser undo each other. */
module NormalForm {
  import opened Wrappers
  import opened Strings
  import opened DomainSyntax
  import opened RuleParser
  import opened RuleForms

  /** A line that strip() leaves alone and that is neither malformed nor cosmetic. */
  predicate Clean(raw: string) { raw != "" && !IsSpace(raw[0]) && !IsSpace(raw[|raw| - 1]) && Quiet(raw) }

  lemma CleanLine(raw: string)
    requires Clean(raw)
    ensures Strip(raw) == raw && !Cosmetic(raw)
    ensures !('\n' in raw || '\r' in raw || exists i :: 0 <= i < |raw| && Control(raw[i]) && raw[i] != '\t')
  {
    StripFixed(raw);
    assert Control('\n') && Control('\r');
  }

  lemma NoOccurrence(raw: string, needle: string)
    requires needle != "" && forall i :: 0 <= i < |raw| ==> raw[i] != needle[0]
    ensures !Contains(raw, needle)
  {
    forall i: nat | i <= |raw|
      ensures !OccursAt(raw, needle, i)
    {
      if i + |needle| <= |raw| { assert raw[i..i + |needle|][0] == raw[i]; }
    }
  }

  lemma NotCosmetic(raw: string)
    requires '#' !in raw
    ensures !Cosmetic(raw)
  {
    NoOccurrence(raw, "##");
    NoOccurrence(raw, "#@#");
    NoOccurrence(raw, "#%#");
    NoOccurrence(raw, "#$#");
  }

  /** Appending to text without number signs makes nothing cosmetic. */
  lemma CosmeticRight(left: string, right: string)
    requires '#' !in left && Cosmetic(left + right)
    ensures Cosmetic(right)
  {
    if Contains(left + right, "##") { OccursRight(left, right, "##"); }
    if Contains(left + right, "#@#") { OccursRight(left, right, "#@#"); }
    if Contains(left + right, "#%#") { OccursRight(left, right, "#%#"); }
    if Contains(left + right, "#$#") { OccursRight(left, right, "#$#"); }
  }

  /** Visible characters only, and no number sign. */
  predicate Visible(raw: string) {
    && raw != "" && !IsSpace(raw[0]) && !IsSpace(raw[|raw| - 1])
    && forall i :: 0 <= i < |raw| ==> ' ' <= raw[i] <= '~' && raw[i] != '#'
  }

  lemma VisibleLine(raw: string)
    requires Visible(raw)
    ensures Clean(raw) && Before(raw, '#') == raw
  {
    NotCosmetic(raw);
    SplitNone(raw, '#');
  }

  lemma PlainLine(raw: string)
    requires forall c :: c in raw ==> !Control(c)
    ensures '\n' !in raw && '\r' !in raw && forall i :: 0 <= i < |raw| ==> !Control(raw[i])
  {
    assert Control('\n') && Control('\r');
    assert forall i :: 0 <= i < |raw| ==> raw[i] in raw;
  }

  /** Text whose first character opens no address is not a hosts line. */
  lemma NotHosts(lib: Libraries, raw: string)
    requires Lawful(lib) && raw != "" && !IsSpace(raw[0]) && raw[0] != '#' && !HexDigit(raw[0]) && raw[0] != ':'
    ensures ParseHosts(lib, raw) == []
  {
    FirstWord(Before(raw, '#'));
    assert !AddressShape(Words(Before(raw, '#'))[0]);
  }

  lemma DomainClassified(lib: Libraries, raw: string)
    requires Clean(raw) && !StartsWith(raw, "@@/") && raw[0] != '/' && raw[0] != '!' && raw[0] != '#'
    requires ParseHosts(lib, raw) == []
    ensures Strip(raw) == raw && Classify(lib, raw) == DomainLine
  {
    CleanLine(raw);
  }

  function AnchoredName(subdomains: bool, d: string): string { (if subdomains then "||" else "|") + d + "^" }

  lemma NamePartAnchored(subdomains: bool, d: string)
    requires DomainShape(d)
    ensures NamePart(AnchoredName(subdomains, d)) == Some(d)
    ensures StartsWith(AnchoredName(subdomains, d), "|") && StartsWith(AnchoredName(subdomains, d), "||") == subdomains
  {
    var base := AnchoredName(subdomains, d);
    assert base[0] == '|' && base[if subdomains then 2 else 1] == d[0];
    if !subdomains { assert base[..2][1] == d[0]; } else { assert base[..2] == "||"; }
    assert base[..1] == "|";
    var candidate := base[if subdomains then 2 else 1..];
    assert candidate == d + "^" + "";
    PartitionAt(candidate, d, '^', "");
    SplitNone(d, '|');
  }

  lemma AnchoredVisible(subdomains: bool, d: string)
    requires DomainShape(d)
    ensures Visible(AnchoredName(subdomains, d)) && '$' !in AnchoredName(subdomains, d)
    ensures AnchoredName(subdomains, d)[0] == '|'
  {
  }

  lemma PlainDnsRewrite(lib: Libraries, a: Address)
    requires Printed(lib, a) && ModifierText(a.text)
    ensures ParseDnsRewrite(lib, a.text) == Some(a)
  {
    SplitNone(a.text, ';');
    StripFixed(a.text);
  }

  lemma NamedPiece(name: string, value: string)
    requires forall i :: 0 <= i < |name| ==> 'a' <= name[i] <= 'z'
    requires name != "" && value != "" && !IsSpace(value[|value| - 1]) && ',' !in value
    ensures var piece := name + "=" + value;
            Strip(piece) == piece && ',' !in piece && Lower(Strip(Before(piece, '='))) == name
                && After(piece, '=') == value
  {
    var piece := name + "=" + value;
    assert piece[0] == name[0] && piece[|piece| - 1] == value[|value| - 1];
    StripFixed(piece);
    PartitionAt(piece, name, '=', value);
    StripFixed(name);
    assert forall i :: 0 <= i < |name| ==> Lower(name)[i] == name[i];
    assert Lower(name) == name;
  }

  lemma DnsRewriteModifies(lib: Libraries, rule: Rule, a: Address, value: string, piece: string)
    requires ParseDnsRewrite(lib, value) == Some(a) && Clean(value) && ',' !in value && rule.action != Allows
    requires piece == "dnsrewrite" + "=" + value
    ensures ',' !in piece && Modify(lib, rule, piece) == rule.(kind := Rewrite, action := Rewrites, address := Some(a))
  {
    NamedPiece("dnsrewrite", value);
  }

  lemma OneModifier(lib: Libraries, rule: Rule, piece: string)
    requires ',' !in piece && Modify(lib, rule, piece).state == Valid
    ensures ModifyAll(lib, rule, Split(piece, ',')) == Modify(lib, rule, piece)
  {
    SplitNone(piece, ',');
    assert [piece][1..] == [];
  }

  lemma DnsRewriteReparsed(lib: Libraries, rule: Rule, a: Address, value: string)
    requires ParseDnsRewrite(lib, value) == Some(a) && Clean(value) && ',' !in value
    requires rule.state == Valid && rule.action != Allows
    ensures ModifyAll(lib, rule, Split("dnsrewrite=" + value, ','))
            == rule.(kind := Rewrite, action := Rewrites, address := Some(a))
  {
    var piece := "dnsrewrite" + "=" + value;
    assert piece == "dnsrewrite=" + value;
    DnsRewriteModifies(lib, rule, a, value, piece);
    OneModifier(lib, rule, piece);
  }

  /** The line an anchored rule is stored as: its anchor, its name and its modifier. */
  function AnchoredLine(isAllow: bool, base: string, modifiers: string): string {
    (if isAllow then "@@" else "") + base + (if modifiers == "" then "" else "$" + modifiers)
  }

  lemma AnchoredClean(isAllow: bool, base: string, modifiers: string)
    requires Visible(base) && (modifiers != "" ==> Clean(modifiers))
    ensures Clean(AnchoredLine(isAllow, base, modifiers))
  {
    var raw := AnchoredLine(isAllow, base, modifiers);
    var left := (if isAllow then "@@" else "") + base + (if modifiers == "" then "" else "$");
    assert raw == left + modifiers;
    assert raw[0] == if isAllow then '@' else base[0];
    assert raw[|raw| - 1] == if modifiers == "" then base[|base| - 1] else modifiers[|modifiers| - 1];
    assert '#' !in left;
    if Cosmetic(raw) {
      CosmeticRight(left, modifiers);
      NotCosmetic("");
    }
  }

  lemma AnchoredClassified(lib: Libraries, isAllow: bool, base: string, modifiers: string)
    requires Lawful(lib) && Visible(base) && base[0] == '|'
    requires modifiers != "" ==> Clean(modifiers)
    ensures var raw := AnchoredLine(isAllow, base, modifiers);
            raw != "" && Strip(raw) == raw && Classify(lib, raw) == DomainLine
  {
    var raw := AnchoredLine(isAllow, base, modifiers);
    assert raw[0] == (if isAllow then '@' else '|');
    assert isAllow ==> raw[2] == '|';
    AnchoredClean(isAllow, base, modifiers);
    NotHosts(lib, raw);
    NotStartsWith(raw, "@@/", if isAllow then 2 else 0);
    DomainClassified(lib, raw);
  }

  lemma AnchoredHead(isAllow: bool, base: string, modifiers: string)
    requires Visible(base) && base[0] != '@' && '$' !in base
    ensures var raw := AnchoredLine(isAllow, base, modifiers);
            && StartsWith(raw, "@@") == isAllow
            && Before(if isAllow then raw[2..] else raw, '$') == base
            && After(if isAllow then raw[2..] else raw, '$') == modifiers
  {
    var raw := AnchoredLine(isAllow, base, modifiers);
    var body := base + (if modifiers == "" then "" else "$" + modifiers);
    if isAllow {
      assert raw == "@@" + body;
      StartsWithPrefix("@@", body);
      assert raw[2..] == body;
    } else {
      assert raw == body && raw[0] == base[0];
      NotStartsWith(raw, "@@", 0);
    }
    if modifiers == "" {
      assert body == base;
      SplitNone(base, '$');
    } else {
      PartitionAt(body, base, '$', modifiers);
    }
  }

  /** The rule of a domain line before its modifiers. */
  function Unmodified(raw: string, isAllow: bool, d: string, subdomains: bool): Rule {
    Rule(raw, raw, if isAllow then Allow else Block, if isAllow then Allows else Blocks, Some(d), subdomains,
         None, None, 0, Valid, "")
  }

  lemma AnchoredParsed(lib: Libraries, isAllow: bool, subdomains: bool, d: string, modifiers: string,
      plainSubdomains: bool)
    requires Lawful(lib) && DomainShape(d) && Normalize(lib, d) == Some(d)
    ensures var raw := AnchoredLine(isAllow, AnchoredName(subdomains, d), modifiers);
            ParseDomainRule(lib, raw, plainSubdomains)
            == Finished(lib, Unmodified(raw, isAllow, d, subdomains), modifiers)
  {
    var base := AnchoredName(subdomains, d);
    var raw := AnchoredLine(isAllow, base, modifiers);
    AnchoredVisible(subdomains, d);
    AnchoredHead(isAllow, base, modifiers);
    var body := if isAllow then raw[2..] else raw;
    StripFixed(base);
    NamePartAnchored(subdomains, d);
  }

  lemma OneDomainRule(lib: Libraries, raw: string, plainSubdomains: bool)
    requires raw != "" && Strip(raw) == raw && Classify(lib, raw) == DomainLine
    ensures ParseRule(lib, raw, plainSubdomains) == [ParseDomainRule(lib, raw, plainSubdomains)]
  {
    assert ParseRule(lib, raw, plainSubdomains) == ParseAs(lib, raw, DomainLine, plainSubdomains);
  }

  lemma ReparseLine(lib: Libraries, isAllow: bool, subdomains: bool, d: string, modifiers: string,
      plainSubdomains: bool)
    requires Lawful(lib) && DomainShape(d) && Normalize(lib, d) == Some(d) && (modifiers != "" ==> Clean(modifiers))
    ensures var raw := AnchoredLine(isAllow, AnchoredName(subdomains, d), modifiers);
            ParseRule(lib, raw, plainSubdomains)
            == [Finished(lib, Unmodified(raw, isAllow, d, subdomains), modifiers)]
  {
    AnchoredVisible(subdomains, d);
    AnchoredClassified(lib, isAllow, AnchoredName(subdomains, d), modifiers);
    OneDomainRule(lib, AnchoredLine(isAllow, AnchoredName(subdomains, d), modifiers), plainSubdomains);
    AnchoredParsed(lib, isAllow, subdomains, d, modifiers, plainSubdomains);
  }

  lemma ReparseBlockOrAllow(lib: Libraries, r: Rule, plainSubdomains: bool)
    requires Lawful(lib) && Anchored(lib, r) && r.state == Valid && r.kind != Rewrite
    ensures var again := ParseRule(lib, r.normalized, plainSubdomains);
            |again| == 1 && SameEffect(again[0], r) && again[0].normalized == r.normalized
  {
    var d, isAllow := r.domain.value, r.action == Allows;
    assert AnchoredLine(isAllow, AnchoredName(r.subdomains, d), "") == r.normalized;
    ReparseLine(lib, isAllow, r.subdomains, d, "", plainSubdomains);
  }

  lemma RewriteLine(r: Rule)
    requires r.domain.Some? && r.address.Some? && r.kind == Rewrite
    ensures AnchoredLine(false, AnchoredName(r.subdomains, r.domain.value), "dnsrewrite=" + r.address.value.text)
            == NormalizedForm(r)
  {
  }

  lemma CleanModifier(value: string)
    requires Clean(value)
    ensures Clean("dnsrewrite=" + value)
  {
    var m := "dnsrewrite=" + value;
    assert m[|m| - 1] == value[|value| - 1];
    if Cosmetic(m) { CosmeticRight("dnsrewrite=", value); }
  }

  lemma FinishedRewrite(lib: Libraries, rule: Rule, a: Address, value: string)
    requires ParseDnsRewrite(lib, value) == Some(a) && Clean(value) && ',' !in value
    requires rule.state == Valid && rule.kind == Block && rule.action == Blocks && rule.domain.Some?
    ensures var rewrite := rule.(kind := Rewrite, action := Rewrites, address := Some(a));
            Finished(lib, rule, "dnsrewrite=" + value) == rewrite.(normalized := NormalizedForm(rewrite))
  {
    DnsRewriteReparsed(lib, rule, a, value);
  }

  lemma ReparseRewrite(lib: Libraries, r: Rule, plainSubdomains: bool)
    requires Lawful(lib) && Anchored(lib, r) && r.state == Valid && r.kind == Rewrite
    ensures var again := ParseRule(lib, r.normalized, plainSubdomains);
            |again| == 1 && SameEffect(again[0], r) && again[0].normalized == r.normalized
  {
    RewriteLine(r);
    PlainDnsRewrite(lib, r.address.value);
    CleanModifier(r.address.value.text);
    ReparseLine(lib, false, r.subdomains, r.domain.value, "dnsrewrite=" + r.address.value.text, plainSubdomains);
    var plain := Rule(r.normalized, r.normalized, Block, Blocks, r.domain, r.subdomains, None, None, 0, Valid, "");
    FinishedRewrite(lib, plain, r.address.value, r.address.value.text);
  }

  lemma HostsClean(a: Address, d: string)
    requires TokenText(a.text) && DomainShape(d)
    ensures var raw := a.text + " " + d; Clean(raw) && '#' !in raw && raw[0] == a.text[0]
  {
    var raw := a.text + " " + d;
    assert a.text[0] in a.text;
    assert raw[0] == a.text[0] && raw[|raw| - 1] == d[|d| - 1];
    assert forall i :: 0 <= i < |a.text| ==> a.text[i] in a.text;
    NotCosmetic(raw);
  }

  lemma HostsReparsed(lib: Libraries, a: Address, d: string)
    requires Printed(lib, a) && TokenText(a.text) && DomainShape(d)
    ensures ParseHosts(lib, a.text + " " + d) == [HostRule(lib, a, a.text, d, Strip(After(a.text + " " + d, '#')))]
  {
    HostsClean(a, d);
    SplitNone(a.text + " " + d, '#');
    assert forall i :: 0 <= i < |a.text| ==> a.text[i] in a.text;
    TwoWords(a.text, d);
    assert [a.text, d][1..] == [d];
  }

  lemma HostsClassified(lib: Libraries, raw: string)
    requires Clean(raw) && (HexDigit(raw[0]) || raw[0] == ':') && |ParseHosts(lib, raw)| > 0
    ensures forall plain :: ParseRule(lib, raw, plain) == ParseHosts(lib, raw)
  {
    CleanLine(raw);
    NotStartsWith(raw, "@@/", 0);
    assert Classify(lib, raw) == HostsLine;
  }

  lemma ReparseHosts(lib: Libraries, r: Rule, plainSubdomains: bool)
    requires Lawful(lib) && HostsForm(lib, r) && r.state == Valid
    ensures var again := ParseRule(lib, r.normalized, plainSubdomains);
            |again| == 1 && SameEffect(again[0], r) && again[0].normalized == r.normalized
  {
    HostsReparsed(lib, r.address.value, r.domain.value);
    HostsClean(r.address.value, r.domain.value);
    assert AddressShape(r.address.value.text);
    assert r.normalized[0] == r.address.value.text[0];
    HostsClassified(lib, r.normalized);
  }

  lemma PatternText(isAllow: bool, pattern: string)
    ensures var raw := RegexText(isAllow, pattern);
            && raw != "" && Strip(raw) == raw && raw[0] != '!' && raw[0] != '#'
            && (raw[0] == '/' || StartsWith(raw, "@@/"))
            && (forall c :: Control(c) ==> (c in raw <==> c in pattern))
  {
    var raw := RegexText(isAllow, pattern);
    var k := if isAllow then 3 else 1;
    assert forall i :: 0 <= i < |pattern| ==> raw[k + i] == pattern[i];
    assert forall i :: 0 <= i < |raw| ==> raw[i] == '@' || raw[i] == '/' || (k <= i < k + |pattern|);
    StripFixed(raw);
    if isAllow {
      assert raw == "@@/" + (pattern + "/");
      StartsWithPrefix("@@/", pattern + "/");
    }
  }

  lemma PatternParts(isAllow: bool, pattern: string)
    ensures var raw, body := RegexText(isAllow, pattern), "/" + pattern + "/";
            && StartsWith(raw, "@@") == isAllow && (if isAllow then raw[2..] else raw) == body
            && RegexParts(body) == (body, "") && body[1..|body| - 1] == pattern
  {
    var raw, body := RegexText(isAllow, pattern), "/" + pattern + "/";
    if isAllow {
      assert raw == "@@" + body;
      StartsWithPrefix("@@", body);
      assert raw[2..] == body;
    } else {
      assert raw == body;
      NotStartsWith(raw, "@@", 0);
    }
    assert body[1..|body| - 1] == pattern;
  }

  lemma RegexStart(isAllow: bool, pattern: string)
    requires forall i :: 0 <= i < |pattern| ==> !Control(pattern[i])
    ensures var raw := RegexText(isAllow, pattern);
            && raw != "" && Strip(raw) == raw && raw[0] != '!' && raw[0] != '#'
            && (raw[0] == '/' || StartsWith(raw, "@@/"))
            && forall i :: 0 <= i < |raw| ==> !Control(raw[i])
  {
    PatternText(isAllow, pattern);
  }

  lemma RegexLineClassified(lib: Libraries, raw: string)
    requires raw != "" && Strip(raw) == raw && raw[0] != '!' && raw[0] != '#'
    requires raw[0] == '/' || StartsWith(raw, "@@/")
    requires forall i :: 0 <= i < |raw| ==> !Control(raw[i])
    ensures Classify(lib, raw) == RegexLine
    ensures forall plain :: ParseRule(lib, raw, plain) == [ParseRegexRule(lib, raw)]
  {
    assert Control('\n') && Control('\r');
    assert Classify(lib, raw) == RegexLine;
    forall plain
      ensures ParseRule(lib, raw, plain) == [ParseRegexRule(lib, raw)]
    {
      assert ParseRule(lib, raw, plain) == ParseAs(lib, raw, RegexLine, plain);
    }
  }

  lemma RegexClassified(lib: Libraries, isAllow: bool, pattern: string)
    requires forall i :: 0 <= i < |pattern| ==> !Control(pattern[i])
    ensures var raw := RegexText(isAllow, pattern);
            forall plain :: ParseRule(lib, raw, plain) == [ParseRegexRule(lib, raw)]
  {
    RegexStart(isAllow, pattern);
    RegexLineClassified(lib, RegexText(isAllow, pattern));
  }

  lemma RegexReparsed(lib: Libraries, isAllow: bool, pattern: string)
    requires pattern != "" && PatternAccepted(lib, pattern)
    ensures ParseRegexRule(lib, RegexText(isAllow, pattern)) == RegexRule(RegexText(isAllow, pattern), isAllow, pattern)
  {
    PatternParts(isAllow, pattern);
  }

  lemma ReparseRegex(lib: Libraries, r: Rule, plainSubdomains: bool)
    requires RegexForm(lib, r) && r.state == Valid
    ensures var again := ParseRule(lib, r.normalized, plainSubdomains);
            |again| == 1 && SameEffect(again[0], r) && again[0].normalized == r.normalized
  {
    RegexClassified(lib, r.kind == RegexAllow, r.pattern.value);
    RegexReparsed(lib, r.kind == RegexAllow, r.pattern.value);
  }

  /** Parsing the stored text of any valid rule gives that rule again, and stores the same text. */
  lemma RoundTrip(lib: Libraries, text: string, plain: bool, k: nat, plainAgain: bool)
    requires Lawful(lib) && k < |ParseRule(lib, text, plain)| && ParseRule(lib, text, plain)[k].state == Valid
    ensures var r, again := ParseRule(lib, text, plain)[k],
            ParseRule(lib, ParseRule(lib, text, plain)[k].normalized, plainAgain);
            |again| == 1 && SameEffect(again[0], r) && again[0].normalized == r.normalized
  {
    var r := ParseRule(lib, text, plain)[k];
    ParsedForm(lib, text, plain, k);
    if Anchored(lib, r) && r.kind == Rewrite { ReparseRewrite(lib, r, plainAgain); }
    else if Anchored(lib, r) { ReparseBlockOrAllow(lib, r, plainAgain); }
    else if HostsForm(lib, r) { ReparseHosts(lib, r, plainAgain); }
    else if RegexForm(lib, r) { ReparseRegex(lib, r, plainAgain); }
  }

  /** find_duplicate compares stored texts: rules it takes for duplicates act alike. */
  lemma DuplicatesActAlike(lib: Libraries, s: string, plainS: bool, i: nat, t: string, plainT: bool, j: nat)
    requires Lawful(lib) && i < |ParseRule(lib, s, plainS)| && j < |ParseRule(lib, t, plainT)|
    requires ParseRule(lib, s, plainS)[i].state == Valid && ParseRule(lib, t, plainT)[j].state == Valid
    requires ParseRule(lib, s, plainS)[i].normalized == ParseRule(lib, t, plainT)[j].normalized
    ensures SameEffect(ParseRule(lib, s, plainS)[i], ParseRule(lib, t, plainT)[j])
  {
    RoundTrip(lib, s, plainS, i, true);
    RoundTrip(lib, t, plainT, j, true);
  }

  predicate OnHostsLine(lib: Libraries, text: string) {
    Strip(text) != "" && Classify(lib, Strip(text)) == HostsLine
  }

  /** A valid rewrite is stored as a hosts entry exactly when its line is one. */
  lemma HostsEntryIff(lib: Libraries, text: string, plain: bool, k: nat)
    requires Lawful(lib) && k < |ParseRule(lib, text, plain)|
    requires ParseRule(lib, text, plain)[k].state == Valid && ParseRule(lib, text, plain)[k].kind == Rewrite
    ensures var r := ParseRule(lib, text, plain)[k];
            if OnHostsLine(lib, text) then HostsForm(lib, r) else Anchored(lib, r) && !HostsForm(lib, r)
  {
    var raw, r := Strip(text), ParseRule(lib, text, plain)[k];
    StripEnds(text);
    if OnHostsLine(lib, text) {
      HostsLineForm(lib, raw, k);
    } else {
      ParsedForm(lib, text, plain, k);
      NotHostsForm(lib, raw, plain, k);
      if HostsForm(lib, r) { HostsNotAnchored(lib, r); }
    }
  }

  lemma NotHostsForm(lib: Libraries, raw: string, plain: bool, k: nat)
    requires Lawful(lib) && raw != "" && Classify(lib, raw) != HostsLine && k < |ParseLine(lib, raw, plain)|
    requires ParseLine(lib, raw, plain)[k].state == Valid && ParseLine(lib, raw, plain)[k].kind == Rewrite
    ensures Anchored(lib, ParseLine(lib, raw, plain)[k])
  {
    match Classify(lib, raw)
    case RegexLine =>
      var isAllow := StartsWith(raw, "@@");
      var parts := RegexParts(if isAllow then raw[2..] else raw);
      RegexRuleForm(lib, raw, isAllow, parts.0, parts.1);
    case DomainLine =>
      DomainLineQuiet(lib, raw);
      DomainRuleForm(lib, raw, plain);
    case _ =>
  }

  /** The forms of rules that are no rewrites determine their text. */
  lemma SameFormSameText(lib: Libraries, a: Rule, b: Rule)
    requires ValidForm(lib, a) && ValidForm(lib, b) && SameEffect(a, b) && a.kind != Comment && a.kind != Rewrite
    ensures a.normalized == b.normalized
  {
  }

  /**
   The converse: rules that act alike are stored as the same text unless they are rewrites
   of which one was written on a hosts line and the other was not (comments apart, which
   act on nothing).
   */
  lemma MissedDuplicateIff(lib: Libraries, s: string, plainS: bool, i: nat, t: string, plainT: bool, j: nat)
    requires Lawful(lib) && i < |ParseRule(lib, s, plainS)| && j < |ParseRule(lib, t, plainT)|
    requires ParseRule(lib, s, plainS)[i].state == Valid && ParseRule(lib, s, plainS)[i].kind != Comment
    requires SameEffect(ParseRule(lib, s, plainS)[i], ParseRule(lib, t, plainT)[j])
    ensures var a, b := ParseRule(lib, s, plainS)[i], ParseRule(lib, t, plainT)[j];
            a.normalized == b.normalized
            <==> (a.kind == Rewrite ==> (OnHostsLine(lib, s) <==> OnHostsLine(lib, t)))
  {
    var a, b := ParseRule(lib, s, plainS)[i], ParseRule(lib, t, plainT)[j];
    if a.kind == Rewrite {
      HostsEntryIff(lib, s, plainS, i);
      HostsEntryIff(lib, t, plainT, j);
      SameRewriteTextIff(lib, a, b);
    } else {
      ParsedForm(lib, s, plainS, i);
      ParsedForm(lib, t, plainT, j);
      SameFormSameText(lib, a, b);
    }
  }

  lemma SameRewriteTextIff(lib: Libraries, a: Rule, b: Rule)
    requires Lawful(lib) && SameEffect(a, b) && a.kind == Rewrite
    requires HostsForm(lib, a) || Anchored(lib, a)
    requires HostsForm(lib, b) || Anchored(lib, b)
    ensures a.normalized == b.normalized <==> HostsForm(lib, a) == HostsForm(lib, b)
  {
    if HostsForm(lib, a) { HostsNotAnchored(lib, a); }
    if HostsForm(lib, b) { HostsNotAnchored(lib, b); }
  }

  lemma HostsNotAnchored(lib: Libraries, r: Rule)
    requires Lawful(lib) && HostsForm(lib, r)
    ensures r.normalized != NormalizedForm(r)
  {
    assert AddressShape(r.address.value.text);
    assert r.normalized[0] == r.address.value.text[0];
    assert NormalizedForm(r)[0] == '|';
  }

  /** Both spellings of a rewrite are kept: the lines parse to rules that act alike and are stored apart. */
  lemma BothSpellingsKept(lib: Libraries, a: Address, d: string, plain: bool)
    requires Lawful(lib) && Printed(lib, a) && TokenText(a.text) && ModifierText(a.text) && !Sentinel(a)
    requires Normalize(lib, d) == Some(d)
    ensures var onHosts := ParseRule(lib, a.text + " " + d, plain);
            var asModifier := ParseRule(lib, "|" + d + "^" + "$dnsrewrite=" + a.text, plain);
            && |onHosts| == 1 && |asModifier| == 1 && onHosts[0].state == Valid && onHosts[0].kind == Rewrite
            && SameEffect(onHosts[0], asModifier[0])
            && onHosts[0].normalized != asModifier[0].normalized
  {
    NormalizeIdempotent(lib, d);
    var entry := HostEntry(a, "", d, "");
    var rule := entry.(normalized := NormalizedForm(entry));
    HostEntryForm(lib, a, "", d, "");
    ReparseHosts(lib, entry, plain);
    ReparseRewrite(lib, rule, plain);
    HostsNotAnchored(lib, entry);
  }
}
