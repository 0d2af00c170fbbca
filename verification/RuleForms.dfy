/** The written forms a valid rule can have, and the proof that every line yields only those. */
module RuleForms {
  import opened Wrappers
  import opened Strings
  import opened DomainSyntax
  import opened RuleParser

  predicate SameEffect(a: Rule, b: Rule) {
    && a.state == b.state && a.kind == b.kind && a.action == b.action && a.domain == b.domain
    && a.subdomains == b.subdomains && a.pattern == b.pattern && a.address == b.address
  }

  /** Printing loses nothing: the text parses to the same address. */
  predicate Printed(lib: Libraries, a: Address) { lib.ip(a.text) == Some(a) }

  predicate DomainRule(lib: Libraries, r: Rule) {
    && r.pattern.None? && r.domain.Some? && DomainShape(r.domain.value) && Normalize(lib, r.domain.value) == r.domain
    && (r.kind == Block ==> r.action == Blocks && r.address.None?)
    && (r.kind == Allow ==> r.action == Allows && r.address.None?)
    && (r.kind == Rewrite ==> r.action == Rewrites && r.address.Some? && Printed(lib, r.address.value))
  }

  /** No control character but a tab, and no cosmetic marker. */
  predicate Quiet(t: string) { (forall c :: c in t ==> !Control(c) || c == '\t') && !Cosmetic(t) }

  /** Text that can stand as the value of a modifier. */
  predicate ModifierText(t: string) {
    && t != "" && !IsSpace(t[0]) && !IsSpace(t[|t| - 1])
    && ',' !in t && ';' !in t && Quiet(t)
  }

  /** Text that can stand as the first word of a hosts line. */
  predicate TokenText(t: string) {
    t != "" && forall c :: c in t ==> !IsSpace(c) && !Control(c) && c != '#'
  }

  /** Written as an anchored name, with the address as a modifier. */
  predicate Anchored(lib: Libraries, r: Rule) {
    && (r.kind == Block || r.kind == Allow || r.kind == Rewrite)
    && DomainRule(lib, r) && r.normalized == NormalizedForm(r)
    && (r.kind == Rewrite ==> ModifierText(r.address.value.text))
  }

  /** Written as a hosts entry: only exact rewrites to an address that does not mean "block". */
  predicate HostsForm(lib: Libraries, r: Rule) {
    && r.kind == Rewrite && !r.subdomains && DomainRule(lib, r)
    && TokenText(r.address.value.text)
    && !Sentinel(r.address.value) && r.normalized == r.address.value.text + " " + r.domain.value
  }

  predicate RegexForm(lib: Libraries, r: Rule) {
    && r.domain.None? && r.address.None? && !r.subdomains
    && ((r.kind == RegexAllow && r.action == Allows) || (r.kind == RegexBlock && r.action == Blocks))
    && r.pattern.Some? && r.pattern.value != "" && PatternAccepted(lib, r.pattern.value)
    && r.normalized == RegexText(r.kind == RegexAllow, r.pattern.value)
  }

  predicate CommentForm(lib: Libraries, r: Rule) {
    && r.normalized != "" && Strip(r.normalized) == r.normalized
    && Classify(lib, r.normalized) == CommentLine && r == CommentRule(r.normalized)
  }

  // ----- where an address comes from -----

  lemma PrintedChars(t: string, p: string)
    requires PrintedFrom(t, p) && t != "" && p != ""
    ensures forall c :: c in p ==> BaseChar(c) || c in t
    ensures !BaseChar(p[|p| - 1]) ==> p[|p| - 1] == t[|t| - 1]
  {
    var k: nat :| k <= |t| && ScopeFrom(t, p, k);
    var n := |p| - (|t| - k);
    forall i | 0 <= i < |p|
      ensures BaseChar(p[i]) || p[i] in t
    {
      if i >= n { assert p[i] == p[n..][i - n] == t[k..][i - n] == t[k + i - n]; }
    }
    if k < |t| { assert p[|p| - 1] == p[n..][|t| - k - 1] == t[k..][|t| - k - 1]; }
  }

  /** A marker that starts with a number sign is only printed if it was written. */
  lemma PrintedMarker(t: string, p: string, needle: string)
    requires PrintedFrom(t, p) && needle != "" && needle[0] == '#' && Contains(p, needle)
    ensures Contains(t, needle)
  {
    var k: nat :| k <= |t| && ScopeFrom(t, p, k);
    var n := |p| - (|t| - k);
    assert p == p[..n] + t[k..];
    forall i | 0 <= i < n
      ensures p[..n][i] != '#'
    {
      assert BaseChar(p[i]);
    }
    OccursRight(p[..n], t[k..], needle);
    SuffixWithin(t, k);
    WithinTransitive(t, t[k..], needle);
  }

  lemma CosmeticWithin(s: string, t: string)
    requires Contains(s, t) && Cosmetic(t)
    ensures Cosmetic(s)
  {
    if Contains(t, "##") { WithinTransitive(s, t, "##"); }
    if Contains(t, "#@#") { WithinTransitive(s, t, "#@#"); }
    if Contains(t, "#%#") { WithinTransitive(s, t, "#%#"); }
    if Contains(t, "#$#") { WithinTransitive(s, t, "#$#"); }
  }

  lemma CosmeticPrinted(t: string, p: string)
    requires PrintedFrom(t, p) && Cosmetic(p)
    ensures Cosmetic(t)
  {
    if Contains(p, "##") { PrintedMarker(t, p, "##"); }
    if Contains(p, "#@#") { PrintedMarker(t, p, "#@#"); }
    if Contains(p, "#%#") { PrintedMarker(t, p, "#%#"); }
    if Contains(p, "#$#") { PrintedMarker(t, p, "#$#"); }
  }

  lemma QuietWithin(s: string, t: string)
    requires Quiet(s) && Contains(s, t)
    ensures Quiet(t)
  {
    WithinChars(s, t);
    if Cosmetic(t) { CosmeticWithin(s, t); }
  }

  /** Text the modifier syntax hands to the address parser. */
  predicate Operand(t: string) { Quiet(t) && ',' !in t && ';' !in t && (t != "" ==> !IsSpace(t[|t| - 1])) }

  lemma OperandPrinted(lib: Libraries, t: string)
    requires Lawful(lib) && Operand(t) && lib.ip(t).Some?
    ensures Printed(lib, lib.ip(t).value) && ModifierText(lib.ip(t).value.text)
  {
    var p := lib.ip(t).value.text;
    assert AddressShape(t) && AddressShape(p) && PrintedFrom(t, p);
    PrintedChars(t, p);
    if Cosmetic(p) { CosmeticPrinted(t, p); }
  }

  lemma TokenPrinted(lib: Libraries, t: string)
    requires Lawful(lib) && TokenText(t) && lib.ip(t).Some?
    ensures Printed(lib, lib.ip(t).value) && TokenText(lib.ip(t).value.text)
  {
    var p := lib.ip(t).value.text;
    assert AddressShape(t) && AddressShape(p) && PrintedFrom(t, p);
    PrintedChars(t, p);
  }

  /** A piece of a modifier list. */
  predicate Piece(t: string) { Quiet(t) && ',' !in t }

  lemma PartIsOperand(value: string, k: nat)
    requires Piece(value) && k < |Split(value, ';')|
    ensures Operand(Strip(Split(value, ';')[k]))
  {
    var part := Split(value, ';')[k];
    SplitWithin(value, ';', k);
    StripWithin(part);
    WithinTransitive(value, part, Strip(part));
    QuietWithin(value, Strip(part));
    WithinChars(value, part);
    WithinChars(part, Strip(part));
    StripEnds(part);
  }

  lemma DnsRewriteAddress(lib: Libraries, value: string)
    requires Lawful(lib) && Piece(value) && ParseDnsRewrite(lib, value).Some?
    ensures Printed(lib, ParseDnsRewrite(lib, value).value) && ModifierText(ParseDnsRewrite(lib, value).value.text)
  {
    var parts := Split(value, ';');
    var k := |parts| - 1;
    PartIsOperand(value, k);
    OperandPrinted(lib, Strip(parts[k]));
  }

  predicate AddressHeld(lib: Libraries, r: Rule) {
    r.kind == Rewrite ==> r.address.Some? && Printed(lib, r.address.value) && ModifierText(r.address.value.text)
  }

  lemma ModifyHolds(lib: Libraries, rule: Rule, piece: string)
    requires Lawful(lib) && AddressHeld(lib, rule) && Piece(piece)
    ensures AddressHeld(lib, Modify(lib, rule, piece))
  {
    var value := After(Strip(piece), '=');
    StripWithin(piece);
    AfterWithin(Strip(piece), '=');
    WithinTransitive(piece, Strip(piece), value);
    QuietWithin(piece, value);
    WithinChars(piece, value);
    if ParseDnsRewrite(lib, value).Some? { DnsRewriteAddress(lib, value); }
  }

  lemma {:induction false} ModifyAllHolds(lib: Libraries, rule: Rule, pieces: seq<string>)
    requires Lawful(lib) && AddressHeld(lib, rule)
    requires forall k :: 0 <= k < |pieces| ==> Piece(pieces[k])
    ensures AddressHeld(lib, ModifyAll(lib, rule, pieces))
    decreases |pieces|
  {
    if |pieces| > 0 {
      ModifyHolds(lib, rule, pieces[0]);
      ModifyAllHolds(lib, Modify(lib, rule, pieces[0]), pieces[1..]);
    }
  }

  // ----- every line's rules are in one of the forms -----

  lemma HostEntryForm(lib: Libraries, a: Address, text: string, d: string, comment: string)
    requires Printed(lib, a) && TokenText(a.text) && DomainShape(d) && Normalize(lib, d) == Some(d)
    ensures var r := HostEntry(a, text, d, comment); if Sentinel(a) then Anchored(lib, r) else HostsForm(lib, r)
  {
  }

  lemma HostRuleForm(lib: Libraries, a: Address, token: string, host: string, comment: string)
    requires Lawful(lib) && lib.ip(token) == Some(a) && TokenText(token)
    ensures var r := HostRule(lib, a, token, host, comment);
            r.state == Valid ==> if r.kind == Rewrite then HostsForm(lib, r) else Anchored(lib, r)
  {
    if Normalize(lib, host).Some? {
      NormalizeIdempotent(lib, host);
      TokenPrinted(lib, token);
      HostEntryForm(lib, a, token + " " + host, Normalize(lib, host).value, comment);
    }
  }

  lemma FinishedForm(lib: Libraries, rule: Rule, modifiers: string)
    requires Lawful(lib) && Quiet(modifiers)
    requires rule.state == Valid && rule.pattern.None? && rule.address.None? && rule.domain.Some?
    requires DomainShape(rule.domain.value) && Normalize(lib, rule.domain.value) == rule.domain
    requires (rule.kind == Block && rule.action == Blocks) || (rule.kind == Allow && rule.action == Allows)
    ensures var r := Finished(lib, rule, modifiers); r.state == Valid ==> Anchored(lib, r)
  {
    var pieces := Split(modifiers, ',');
    ModifyAllKeeps(lib, rule, pieces);
    forall k | 0 <= k < |pieces|
      ensures Piece(pieces[k])
    {
      SplitWithin(modifiers, ',', k);
      QuietWithin(modifiers, pieces[k]);
    }
    ModifyAllHolds(lib, rule, pieces);
  }

  lemma ModifiersWithin(raw: string, body: string)
    requires body == raw || (|raw| >= 2 && body == raw[2..])
    ensures Contains(raw, After(body, '$'))
  {
    AfterWithin(body, '$');
    if body != raw {
      SuffixWithin(raw, 2);
      WithinTransitive(raw, body, After(body, '$'));
    }
  }

  lemma DomainRuleForm(lib: Libraries, raw: string, plainSubdomains: bool)
    requires Lawful(lib) && Quiet(raw)
    ensures var r := ParseDomainRule(lib, raw, plainSubdomains); r.state == Valid ==> Anchored(lib, r)
  {
    var isAllow := StartsWith(raw, "@@");
    var body := if isAllow then raw[2..] else raw;
    var base := Strip(Before(body, '$'));
    if NamePart(base).Some? && Normalize(lib, NamePart(base).value).Some? {
      NormalizeIdempotent(lib, NamePart(base).value);
      ModifiersWithin(raw, body);
      QuietWithin(raw, After(body, '$'));
      var subdomains := StartsWith(base, "||") || (!StartsWith(base, "|") && plainSubdomains);
      FinishedForm(lib, Rule(raw, raw, if isAllow then Allow else Block, if isAllow then Allows else Blocks,
                             Normalize(lib, NamePart(base).value), subdomains, None, None, 0, Valid, ""),
                              After(body, '$'));
    }
  }

  lemma RegexFinishedForm(lib: Libraries, raw: string, isAllow: bool, pattern: string, modifiers: string)
    requires pattern != "" && PatternAccepted(lib, pattern)
    ensures var r := RegexFinished(lib, RegexRule(raw, isAllow, pattern), modifiers); r.state == Valid ==>
            RegexForm(lib, r)
  {
    ModifyAllKeeps(lib, RegexRule(raw, isAllow, pattern), Split(modifiers, ','));
  }

  lemma RegexRuleForm(lib: Libraries, raw: string, isAllow: bool, body: string, modifiers: string)
    ensures var r := DelimitedRule(lib, raw, isAllow, body, modifiers); r.state == Valid ==> RegexForm(lib, r)
  {
    if |body| >= 3 && PatternAccepted(lib, body[1..|body| - 1]) {
      RegexFinishedForm(lib, raw, isAllow, body[1..|body| - 1], modifiers);
    }
  }

  predicate ValidForm(lib: Libraries, r: Rule) {
    Anchored(lib, r) || HostsForm(lib, r) || RegexForm(lib, r) || CommentForm(lib, r)
  }

  /** The first word of a line, up to its comment. */
  lemma FirstWordIsToken(raw: string)
    requires raw != "" && !IsSpace(raw[0]) && raw[0] != '#'
    requires forall i :: 0 <= i < |raw| ==> !Control(raw[i]) || raw[i] == '\t'
    ensures |Words(Before(raw, '#'))| > 0 && TokenText(Words(Before(raw, '#'))[0])
  {
    var body := Before(raw, '#');
    FirstWord(body);
    var token := Words(body)[0];
    assert token == body[..WordLength(body)];
    assert forall i :: 0 <= i < |token| ==> token[i] == raw[i];
  }

  lemma HostsLineForm(lib: Libraries, raw: string, k: nat)
    requires Lawful(lib) && raw != "" && !IsSpace(raw[0]) && Classify(lib, raw) == HostsLine
    requires k < |ParseHosts(lib, raw)| && ParseHosts(lib, raw)[k].state == Valid
    ensures var r := ParseHosts(lib, raw)[k]; if r.kind == Rewrite then HostsForm(lib, r) else Anchored(lib, r)
  {
    var parts := Words(Before(raw, '#'));
    FirstWordIsToken(raw);
    if |parts| >= 2 {
      HostRuleForm(lib, lib.ip(parts[0]).value, parts[0], parts[1..][k], Strip(After(raw, '#')));
    }
  }

  lemma DomainLineQuiet(lib: Libraries, raw: string)
    requires raw != "" && Classify(lib, raw) == DomainLine
    ensures Quiet(raw)
  {
  }

  lemma LineForm(lib: Libraries, raw: string, plainSubdomains: bool, k: nat)
    requires Lawful(lib) && raw != "" && Strip(raw) == raw && k < |ParseLine(lib, raw, plainSubdomains)|
    requires ParseLine(lib, raw, plainSubdomains)[k].state == Valid
    ensures ValidForm(lib, ParseLine(lib, raw, plainSubdomains)[k])
  {
    StripEnds(raw);
    match Classify(lib, raw)
    case RegexLine =>
      var isAllow := StartsWith(raw, "@@");
      var parts := RegexParts(if isAllow then raw[2..] else raw);
      RegexRuleForm(lib, raw, isAllow, parts.0, parts.1);
    case HostsLine => HostsLineForm(lib, raw, k);
    case DomainLine =>
      DomainLineQuiet(lib, raw);
      DomainRuleForm(lib, raw, plainSubdomains);
    case _ =>
  }

  /** Every valid rule a text yields is in one of four written forms. */
  lemma ParsedForm(lib: Libraries, text: string, plainSubdomains: bool, k: nat)
    requires Lawful(lib) && k < |ParseRule(lib, text, plainSubdomains)|
    requires ParseRule(lib, text, plainSubdomains)[k].state == Valid
    ensures ValidForm(lib, ParseRule(lib, text, plainSubdomains)[k])
  {
    StripEnds(text);
    StripFixed(Strip(text));
    LineForm(lib, Strip(text), plainSubdomains, k);
  }
}
