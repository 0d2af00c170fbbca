/**
 What the documented line shapes contribute to a blocklist source, stated on their text
 (parse_source_line and parse_rule_lines in app/alderpointdns_compiler.py).
 */
module SourceMeanings {
  import opened Wrappers
  import opened Strings
  import opened DomainSyntax
  import opened RuleParser
  import opened RuleForms
  import opened NormalForm
  import opened LineMeanings
  import opened SourceParser
  import SourceAccounting

  lemma NoAddressLine(lib: Libraries, raw: string)
    requires Lawful(lib) && raw != "" && (raw[0] == '@' || raw[0] == '|' || raw[0] == '/')
    ensures !IsHostsLine(lib, raw)
  {
    FirstWord(raw);
    assert !AddressShape(Words(raw)[0]);
  }

  lemma NoBlockpage(raw: string)
    requires '$' !in raw
    ensures BlockpageNormalize(raw) == raw
  {
    NoOccurrence(raw, "$" + "dnsrewrite=");
  }

  lemma OneCaret(base: string)
    requires '^' !in base
    ensures OneCaretLast(base + "^")
  {
    var body := base + "^";
    assert body[|base|] == '^' && forall i :: 0 <= i < |base| ==> body[i] == base[i];
    assert IndexOf(body, '^') == Some(|base|);
  }

  lemma ExactCandidate(d: string)
    requires DomainShape(d)
    ensures FastCandidate("|" + d + "^") == Some(d)
  {
    var body := "|" + d + "^";
    OneCaret("|" + d);
    assert body[1] == d[0] && body[..1] == "|" && body[1..|body| - 1] == d;
    NotStartsWith(body, "||", 1);
  }

  lemma SubdomainCandidate(d: string)
    requires DomainShape(d)
    ensures FastCandidate("||" + d + "^") == Some(d)
  {
    var body := "||" + d + "^";
    OneCaret("||" + d);
    assert body[..2] == "||" && body[2..|body| - 1] == d;
  }

  lemma CandidateIs(anchor: Anchor, d: string)
    requires DomainShape(d)
    ensures FastCandidate(Named(anchor, d)) == Some(d) && AllFast(d)
    ensures Named(anchor, d) != "" && Named(anchor, d)[0] == (if anchor.Bare? then d[0] else '|')
    ensures '$' !in Named(anchor, d)
  {
    match anchor
    case Bare => FastPlain(d);
    case Exactly => ExactCandidate(d);
    case WithSubdomains => SubdomainCandidate(d);
  }

  lemma FastAnswers(lib: Libraries, isAllow: bool, body: string, d: string)
    requires body != "" && body[0] != '@' && FastCandidate(body) == Some(d) && AllFast(d) && d != ""
    requires Normalize(lib, d) == Some(d)
    ensures FastRule(lib, (if isAllow then "@@" else "") + body) == Some(Accepted(isAllow, d))
  {
    var raw := (if isAllow then "@@" else "") + body;
    if isAllow {
      StartsWithPrefix("@@", body);
      assert raw[2..] == body;
    } else {
      assert raw == body;
      NotStartsWith(raw, "@@", 0);
    }
  }

  lemma DomainAnswers(lib: Libraries, isAllow: bool, anchor: Anchor, d: string)
    requires DomainShape(d) && Normalize(lib, d) == Some(d)
    ensures var raw := DomainText(isAllow, anchor, d, false);
            FastRule(lib, raw) == Some(Accepted(isAllow, d)) && BlockpageNormalize(raw) == raw
  {
    var raw, body := DomainText(isAllow, anchor, d, false), Named(anchor, d);
    assert raw == (if isAllow then "@@" else "") + body;
    CandidateIs(anchor, d);
    FastAnswers(lib, isAllow, body, d);
    NoBlockpage(raw);
  }

  /** A bare name, `|name^` and `||name^` block the name in a source, or allow it after `@@`. */
  lemma SourceDomainLine(lib: Libraries, isAllow: bool, anchor: Anchor, d: string)
    requires Lawful(lib) && Normalize(lib, d) == Some(d)
    ensures LineResults(lib, DomainText(isAllow, anchor, d, false)) == [Accepted(isAllow, d)]
  {
    var raw := DomainText(isAllow, anchor, d, false);
    NormalizeIdempotent(lib, d);
    DomainAnswers(lib, isAllow, anchor, d);
    DomainNoHosts(lib, isAllow, anchor, d);
    FastLine(lib, raw, raw, Accepted(isAllow, d));
  }

  lemma FastLine(lib: Libraries, raw: string, text: string, r: Finding)
    requires !IsHostsLine(lib, raw) && BlockpageNormalize(raw) == text && FastRule(lib, text) == Some(r)
    ensures LineResults(lib, raw) == [r]
  {
  }

  lemma DomainNoHosts(lib: Libraries, isAllow: bool, anchor: Anchor, d: string)
    requires Lawful(lib) && DomainShape(d) && Normalize(lib, d) == Some(d)
    ensures !IsHostsLine(lib, DomainText(isAllow, anchor, d, false))
  {
    var raw := DomainText(isAllow, anchor, d, false);
    if isAllow || !anchor.Bare? {
      assert raw[0] == '@' || raw[0] == '|';
      NoAddressLine(lib, raw);
    } else {
      assert raw == d;
      BareNoHosts(lib, d);
    }
  }

  lemma BareNoHosts(lib: Libraries, d: string)
    requires Lawful(lib) && DomainShape(d) && Normalize(lib, d) == Some(d)
    ensures !IsHostsLine(lib, d)
  {
    BareVisible(d, "");
    assert d + "" == d;
    OneWord(d);
    DomainIsNoAddress(lib, d);
  }

  lemma HostsWords(a: Address, host: string)
    requires TokenText(a.text) && host != "" && forall i :: 0 <= i < |host| ==> !IsSpace(host[i]) && host[i] != '#'
    ensures var raw := a.text + " " + host; Words(raw) == [a.text, host] && Before(raw, '#') == raw
  {
    var raw := a.text + " " + host;
    assert forall i :: 0 <= i < |a.text| ==> a.text[i] in a.text;
    assert '#' !in raw;
    SplitNone(raw, '#');
    TwoWords(a.text, host);
  }

  lemma HostsLineResults(lib: Libraries, a: Address, host: string)
    requires Lawful(lib) && Printed(lib, a) && TokenText(a.text)
    requires host != "" && forall i :: 0 <= i < |host| ==> !IsSpace(host[i]) && host[i] != '#'
    ensures LineResults(lib, a.text + " " + host) == [HostResult(lib, host)]
  {
    HostsWords(a, host);
    PrefilterExact(lib, a.text + " " + host);
    assert [a.text, host][1..] == [host];
  }

  lemma VariantChars(d: string, text: string, before: string, after: string)
    requires DomainShape(d) && CaseOf(text, d) && AllAre(before, '.') && AllAre(after, '.')
    ensures var host := before + text + after;
            host != "" && forall i :: 0 <= i < |host| ==> !IsSpace(host[i]) && host[i] != '#'
  {
    var host, n := before + text + after, |before|;
    forall i | 0 <= i < |host|
      ensures !IsSpace(host[i]) && host[i] != '#'
    {
      if n <= i < n + |d| { assert Edge(d[i - n]) || d[i - n] == '-' || d[i - n] == '.'; }
    }
  }

  /** A hosts line blocks its name, whatever the address, the name in any case and with any dots around it. */
  lemma SourceHostsLine(lib: Libraries, a: Address, d: string, text: string, before: string, after: string)
    requires Lawful(lib) && Normalize(lib, d) == Some(d) && Printed(lib, a) && TokenText(a.text)
    requires CaseOf(text, d) && AllAre(before, '.') && AllAre(after, '.')
    ensures LineResults(lib, a.text + " " + (before + text + after))
            == if d == "localhost.localdomain" then [Skip] else [Accepted(false, d)]
  {
    var host := before + text + after;
    NormalizeIdempotent(lib, d);
    OneAlias(d);
    CaseLowered(text, d);
    DotsStripped(before, text, after);
    VariantChars(d, text, before, after);
    NormalizeVariants(lib, d, text, before, after, "", "");
    assert "" + host + "" == host;
    HostsLineResults(lib, a, host);
  }

  /** The names of the host itself are skipped. */
  lemma SourceLocalhostLine(lib: Libraries, a: Address, host: string)
    requires Lawful(lib) && Printed(lib, a) && TokenText(a.text)
    requires host == "localhost" || host == "localhost.localdomain" || host == "ip6-localhost" || host == "ip6-loopback"
    ensures LineResults(lib, a.text + " " + host) == [Skip]
  {
    var t := host;
    assert DomainShape(t);
    PlainText(t);
    HostsLineResults(lib, a, t);
  }

  /** The block-page rewrite of one list vendor counts as the block it stands for. */
  lemma SourceBlockpageLine(lib: Libraries, subdomains: bool, d: string)
    requires Lawful(lib) && Normalize(lib, d) == Some(d)
    ensures LineResults(lib, AnchoredLine(false, AnchoredName(subdomains, d), "dnsrewrite=" + VENDOR_PAGE))
            == [Accepted(false, d)]
  {
    NormalizeIdempotent(lib, d);
    var anchor := if subdomains then WithSubdomains else Exactly;
    var base := AnchoredName(subdomains, d);
    var raw := AnchoredLine(false, base, "dnsrewrite=" + VENDOR_PAGE);
    assert base == Named(anchor, d);
    CandidateIs(anchor, d);
    AnchoredVisible(subdomains, d);
    VisibleLine(base);
    BlockpageCut(base, VENDOR_PAGE);
    FastAnswers(lib, false, base, d);
    assert "" + base == base;
    assert raw[0] == '|';
    NoAddressLine(lib, raw);
    FastLine(lib, raw, base, Accepted(false, d));
  }

  lemma VendorClean(vendor: string)
    requires vendor == VENDOR_PAGE
    ensures Clean(vendor)
  {
    assert forall i :: 0 <= i < |vendor| ==> 'a' <= vendor[i] <= 'z' || vendor[i] == '-' || vendor[i] == '.';
    NotCosmetic(vendor);
  }

  lemma BlockpageCut(base: string, vendor: string)
    requires Clean(base) && '$' !in base && vendor == VENDOR_PAGE
    ensures BlockpageNormalize(AnchoredLine(false, base, "dnsrewrite=" + vendor)) == base
  {
    var modifier := "dnsrewrite=" + vendor;
    var raw := AnchoredLine(false, base, modifier);
    assert raw == base + ['$'] + modifier;
    VendorClean(vendor);
    CleanModifier(vendor);
    StripFixed(modifier);
    ModifierFound(base, "dnsrewrite=", vendor);
    PartitionAt(raw, base, '$', modifier);
    StripFixed(base);
  }

  lemma ModifierFound(base: string, name: string, value: string)
    ensures Contains(base + ['$'] + (name + value), "$" + name)
  {
    var raw, needle := base + ['$'] + (name + value), "$" + name;
    assert raw[|base|..|base| + |needle|] == needle;
    assert OccursAt(raw, needle, |base|);
  }

  lemma OtherRewrite(base: string, value: string)
    requires '$' !in base && Clean(value) && value != VENDOR_PAGE
    ensures BlockpageNormalize(AnchoredLine(false, base, "dnsrewrite=" + value))
            == AnchoredLine(false, base, "dnsrewrite=" + value)
  {
    var modifier := "dnsrewrite=" + value;
    var raw := AnchoredLine(false, base, modifier);
    assert raw == base + ['$'] + modifier;
    PartitionAt(raw, base, '$', modifier);
    CleanModifier(value);
    StripFixed(modifier);
    SameStart("dnsrewrite=", value, VENDOR_PAGE);
  }

  lemma SameStart(left: string, a: string, b: string)
    ensures left + a == left + b <==> a == b
  {
    if left + a == left + b { assert a == (left + a)[|left|..] && b == (left + b)[|left|..]; }
  }

  lemma OperandNotVendor(lib: Libraries, a: Address, long: bool)
    requires Lawful(lib) && Printed(lib, a) && a.text != ""
    ensures RewriteOperand(a, long) != VENDOR_PAGE
  {
    var value, vendor := RewriteOperand(a, long), VENDOR_PAGE;
    if long {
      assert value[0] == 'N' && vendor[0] == 'a';
    } else {
      assert AddressShape(value);
      assert ':' !in vendor && !Digit(vendor[0]);
    }
  }

  lemma NoFastRule(lib: Libraries, base: string, modifiers: string)
    requires base != "" && base[0] == '|' && base[|base| - 1] == '^' && modifiers != ""
    ensures FastRule(lib, AnchoredLine(false, base, modifiers)).None?
  {
    var raw := AnchoredLine(false, base, modifiers);
    assert raw[0] == '|' && raw[|base| - 1] == '^' && |base| < |raw|;
    NotStartsWith(raw, "@@", 0);
    assert !FastChar(raw[0]);
    assert IndexOf(raw, '^').Some? && IndexOf(raw, '^').value <= |base| - 1;
  }

  /** Any other rewrite is left out of a source and counted as unsupported. */
  lemma SourceRewriteLine(lib: Libraries, subdomains: bool, d: string, a: Address, long: bool)
    requires Lawful(lib) && Normalize(lib, d) == Some(d) && Printed(lib, a) && ModifierText(a.text)
    ensures var line := AnchoredLine(false, AnchoredName(subdomains, d), "dnsrewrite=" + RewriteOperand(a, long));
            LineResults(lib, line) == [Refused(false)]
  {
    NormalizeIdempotent(lib, d);
    var base, value := AnchoredName(subdomains, d), RewriteOperand(a, long);
    NamedEnds(subdomains, d);
    OperandParsed(lib, a, long);
    OperandNotVendor(lib, a, long);
    OtherRewrite(base, value);
    SlowLine(lib, base, "dnsrewrite=" + value);
    RewriteLineMeans(lib, subdomains, d, a, long, true);
    RewriteRefused(lib, AnchoredLine(false, base, "dnsrewrite=" + value));
  }

  lemma RewriteRefused(lib: Libraries, line: string)
    requires |ParseRule(lib, line, true)| == 1 && ParseRule(lib, line, true)[0].state == Valid
    requires ParseRule(lib, line, true)[0].kind == Rewrite
    ensures SlowRules(lib, line) == [Refused(false)]
  {
    OneRule(ParseRule(lib, line, true));
  }

  lemma NamedEnds(subdomains: bool, d: string)
    requires DomainShape(d)
    ensures var base := AnchoredName(subdomains, d);
            base != "" && base[0] == '|' && base[|base| - 1] == '^' && '$' !in base
  {
  }

  lemma SlowLine(lib: Libraries, base: string, modifiers: string)
    requires Lawful(lib) && base != "" && base[0] == '|' && base[|base| - 1] == '^' && modifiers != ""
    requires var line := AnchoredLine(false, base, modifiers); BlockpageNormalize(line) == line
    ensures var line := AnchoredLine(false, base, modifiers); LineResults(lib, line) == SlowRules(lib, line)
  {
    var line := AnchoredLine(false, base, modifiers);
    assert line[0] == '|';
    NoAddressLine(lib, line);
    NoFastRule(lib, base, modifiers);
  }

  /** Blank lines, comments and section headers are no entries. */
  lemma SourceCommentLine(lib: Libraries, text: string)
    requires text != "" ==> !IsSpace(text[|text| - 1])
    ensures SourceAccounting.EntryOf(lib, "").None?
    ensures SourceAccounting.EntryOf(lib, "#" + text).None? && SourceAccounting.EntryOf(lib, "!" + text).None?
    ensures SourceAccounting.EntryOf(lib, "//" + text).None? && SourceAccounting.EntryOf(lib, "[" + text + "]").None?
  {
    StripFixed("#" + text);
    StripFixed("!" + text);
    StripFixed("//" + text);
    StripFixed("[" + text + "]");
    StartsWithPrefix("//", text);
  }

  /** Every other line is one. */
  lemma SourceEntryLine(lib: Libraries, raw: string)
    requires Strip(raw) == raw != ""
    requires raw[0] != '#' && raw[0] != '!' && raw[0] != '/' && raw[0] != '['
    ensures SourceAccounting.EntryOf(lib, raw) == Some(LineResults(lib, raw))
  {
    NotStartsWith(raw, "//", 0);
  }
}
