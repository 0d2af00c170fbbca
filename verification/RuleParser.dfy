/** parse_rule (app/custom_rules.py): one line of text to rules, and the normal form it stores. */
module RuleParser {
  import opened Wrappers
  import opened Strings
  import opened DomainSyntax
  import RegexScanner

  const MAX_REGEX_LENGTH := 512
  const IMPORTANT_PRIORITY := 100

  datatype Kind = Block | Allow | Rewrite | RegexBlock | RegexAllow | Comment | Unsupported
  datatype Action = NoAction | Blocks | Allows | Rewrites
  datatype State = Valid | Invalid | NotPreserved

  datatype Rule = Rule(
    text: string, normalized: string, kind: Kind, action: Action, domain: Option<string>, subdomains: bool,
    pattern: Option<string>, address: Option<Address>, priority: nat, state: State, comment: string)

  function InvalidRule(text: string): Rule {
    Rule(text, text, Unsupported, NoAction, None, false, None, None, 0, Invalid, "")
  }

  /** _unsupported */
  function Inactive(r: Rule): Rule { r.(kind := Unsupported, action := NoAction, state := NotPreserved) }

  // ----- modifiers -----

  function ParseDnsRewrite(lib: Libraries, value: string): Option<Address> {
    var parts := Split(value, ';');
    if |parts| == 1 then lib.ip(Strip(parts[0]))
    else if |parts| == 3 && Upper(Strip(parts[0])) == "NOERROR"
            && (Upper(Strip(parts[1])) == "A" || Upper(Strip(parts[1])) == "AAAA") then
      match lib.ip(Strip(parts[2]))
      case None => None
      case Some(a) => if Upper(Strip(parts[1])) == (if a.v4 then "A" else "AAAA") then Some(a) else None
    else None
  }

  /** One modifier; a rule that becomes inactive ends the list. */
  function Modify(lib: Libraries, rule: Rule, piece: string): Rule {
    var raw := Strip(piece);
    var name := Lower(Strip(Before(raw, '=')));
    if raw == "" then rule
    else if name == "important" then rule.(priority := IMPORTANT_PRIORITY)
    else if name == "dnsrewrite" && rule.action != Allows then
      match ParseDnsRewrite(lib, After(raw, '='))
      case None => Inactive(rule)
      case Some(a) => rule.(kind := Rewrite, action := Rewrites, address := Some(a))
    else Inactive(rule)
  }

  function ModifyAll(lib: Libraries, rule: Rule, pieces: seq<string>): Rule
    decreases |pieces|
  {
    if |pieces| == 0 then rule
    else
      var next := Modify(lib, rule, pieces[0]);
      if next.state != Valid then next else ModifyAll(lib, next, pieces[1..])
  }

  method ParseModifiers(lib: Libraries, rule: Rule, modifierText: string) returns (r: Rule)
    requires rule.state == Valid
    ensures r == ModifyAll(lib, rule, Split(modifierText, ','))
  {
    var pieces := Split(modifierText, ',');
    r := rule;
    var k := 0;
    while k < |pieces|
      invariant 0 <= k <= |pieces| && r.state == Valid
      invariant ModifyAll(lib, r, pieces[k..]) == ModifyAll(lib, rule, pieces)
    {
      assert pieces[k..][0] == pieces[k] && pieces[k..][1..] == pieces[k + 1..];
      r := Modify(lib, r, pieces[k]);
      if r.state != Valid { return; }
      k := k + 1;
    }
  }

  lemma {:induction false} ModifyAllKeeps(lib: Libraries, rule: Rule, pieces: seq<string>)
    requires rule.state == Valid
    ensures var r := ModifyAll(lib, rule, pieces);
            && r.domain == rule.domain && r.subdomains == rule.subdomains && r.pattern == rule.pattern
            && r.normalized == rule.normalized && (r.state == Valid || r.state == NotPreserved)
            && (r.state == Valid ==>
                  || (r.kind == rule.kind && r.action == rule.action && r.address == rule.address)
                  || (rule.action != Allows && r.kind == Rewrite && r.action == Rewrites && r.address.Some?
                      && exists t :: lib.ip(t) == r.address))
    decreases |pieces|
  {
    if |pieces| > 0 {
      var next := Modify(lib, rule, pieces[0]);
      if next.state == Valid { ModifyAllKeeps(lib, next, pieces[1..]); }
    }
  }

  // ----- regular expressions -----

  /** A control character no rule text may hold; a pattern may not even hold a tab. */
  predicate Control(c: char) { c < ' ' || c == 127 as char }

  predicate PatternAccepted(lib: Libraries, pattern: string) {
    && |pattern| <= MAX_REGEX_LENGTH
    && (forall i :: 0 <= i < |pattern| ==> !Control(pattern[i]))
    && lib.compiles(pattern)
    && !RegexScanner.Scan(pattern, [false], false)
  }

  /** body.rfind("/$") */
  function LastSlashDollar(s: string, n: nat): (r: Option<nat>)
    requires n <= |s|
    ensures r.Some? ==> r.value + 1 < |s|
  {
    if n == 0 then None
    else if n < |s| && s[n - 1] == '/' && s[n] == '$' then Some(n - 1)
    else LastSlashDollar(s, n - 1)
  }

  /** The pattern with its slashes, and the modifiers after them. */
  function RegexParts(body: string): (string, string) {
    if body != "" && body[|body| - 1] == '/' then (body, "")
    else match LastSlashDollar(body, |body|)
      case None => (body, "")
      case Some(i) => if i > 0 then (body[..i + 1], body[i + 2..]) else (body, "")
  }

  function RegexText(isAllow: bool, pattern: string): string { (if isAllow then "@@" else "") + "/" + pattern + "/" }

  function RegexRule(raw: string, isAllow: bool, pattern: string): Rule {
    Rule(raw, RegexText(isAllow, pattern), if isAllow then RegexAllow else RegexBlock,
         if isAllow then Allows else Blocks, None, false, Some(pattern), None, 0, Valid, "")
  }

  function RegexFinished(lib: Libraries, rule: Rule, modifiers: string): Rule {
    var r := if modifiers == "" then rule else ModifyAll(lib, rule, Split(modifiers, ','));
    if r.kind == Rewrite then Inactive(r) else r
  }

  function DelimitedRule(lib: Libraries, raw: string, isAllow: bool, body: string, modifiers: string): Rule {
    if |body| < 3 || body[0] != '/' || body[|body| - 1] != '/' then InvalidRule(raw)
    else
      var rule := RegexRule(raw, isAllow, body[1..|body| - 1]);
      if PatternAccepted(lib, body[1..|body| - 1]) then RegexFinished(lib, rule, modifiers) else Inactive(rule)
  }

  function ParseRegexRule(lib: Libraries, raw: string): Rule {
    var isAllow := StartsWith(raw, "@@");
    var parts := RegexParts(if isAllow then raw[2..] else raw);
    DelimitedRule(lib, raw, isAllow, parts.0, parts.1)
  }

  // ----- hosts lines -----

  predicate Sentinel(a: Address) { a.text == "0.0.0.0" || a.text == "::" }

  /** The rule of one valid host name: a block for a sentinel address, otherwise a rewrite to the address. */
  function HostEntry(a: Address, text: string, d: string, comment: string): Rule {
    if Sentinel(a) then Rule(text, "|" + d + "^", Block, Blocks, Some(d), false, None, None, 0, Valid, comment)
    else Rule(text, a.text + " " + d, Rewrite, Rewrites, Some(d), false, None, Some(a), 0, Valid, comment)
  }

  function HostRule(lib: Libraries, a: Address, token: string, host: string, comment: string): Rule {
    match Normalize(lib, host)
    case None => InvalidRule(token + " " + host)
    case Some(d) => HostEntry(a, token + " " + host, d, comment)
  }

  function HostRules(lib: Libraries, a: Address, token: string, hosts: seq<string>, comment: string): seq<Rule> {
    seq(|hosts|, k requires 0 <= k < |hosts| => HostRule(lib, a, token, hosts[k], comment))
  }

  function ParseHosts(lib: Libraries, raw: string): seq<Rule> {
    var parts := Words(Before(raw, '#'));
    if |parts| == 0 then []
    else
      match lib.ip(parts[0])
      case None => []
      case Some(a) =>
        if |parts| < 2 then [InvalidRule(raw)] else HostRules(lib, a, parts[0], parts[1..], Strip(After(raw, '#')))
  }

  /** _parse_hosts_line; its callers never pass a text that is blank before its comment. */
  method ParseHostsLine(lib: Libraries, raw: string) returns (rules: seq<Rule>)
    requires raw != "" && !IsSpace(raw[0]) && raw[0] != '#'
    ensures rules == ParseHosts(lib, raw)
  {
    FirstWord(Before(raw, '#'));
    var parts := Words(Before(raw, '#'));
    var ip := lib.ip(parts[0]);
    if ip.None? { return []; }
    if |parts| < 2 { return [InvalidRule(raw)]; }
    var comment := Strip(After(raw, '#'));
    rules := [];
    for k := 1 to |parts|
      invariant rules == HostRules(lib, ip.value, parts[0], parts[1..k], comment)
    {
      rules := rules + [HostRule(lib, ip.value, parts[0], parts[k], comment)];
    }
    assert parts[1..|parts|] == parts[1..];
  }

  // ----- one line -----

  /** _normalized_form */
  function NormalizedForm(r: Rule): string
    requires r.domain.Some? && (r.kind == Rewrite ==> r.address.Some?)
  {
    var anchored := (if r.subdomains then "||" else "|") + r.domain.value + "^";
    if r.kind == Rewrite then anchored + "$dnsrewrite=" + r.address.value.text
    else (if r.action == Allows then "@@" else "") + anchored
  }

  /** Cuts at a terminator, which nothing may follow. */
  function Terminated(candidate: string, terminator: char): Option<string> {
    if After(candidate, terminator) != "" then None else Some(Before(candidate, terminator))
  }

  /** The text between the anchor and the terminators; nothing may follow a terminator. */
  function NamePart(base: string): Option<string> {
    var candidate := if StartsWith(base, "||") then base[2..] else if StartsWith(base, "|") then base[1..] else base;
    match Terminated(candidate, '^')
    case None => None
    case Some(cut) => Terminated(cut, '|')
  }

  function Finished(lib: Libraries, rule: Rule, modifiers: string): Rule
    requires rule.state == Valid && rule.domain.Some? && rule.kind != Rewrite
  {
    var r := if modifiers == "" then rule else ModifyAll(lib, rule, Split(modifiers, ','));
    ModifyAllKeeps(lib, rule, Split(modifiers, ','));
    if r.state != Valid then r else r.(normalized := NormalizedForm(r))
  }

  function ParseDomainRule(lib: Libraries, raw: string, plainSubdomains: bool): Rule {
    var isAllow := StartsWith(raw, "@@");
    var body := if isAllow then raw[2..] else raw;
    var base := Strip(Before(body, '$'));
    var subdomains := StartsWith(base, "||") || (!StartsWith(base, "|") && plainSubdomains);
    var rule := Rule(raw, raw, if isAllow then Allow else Block, if isAllow then Allows else Blocks,
                     None, subdomains, None, None, 0, Valid, "");
    match NamePart(base)
    case None => Inactive(rule)
    case Some(name) =>
      match Normalize(lib, name)
      case None => InvalidRule(raw)
      case Some(d) => Finished(lib, rule.(domain := Some(d)), After(body, '$'))
  }

  function LineEnd(s: string): (n: nat)
    ensures n <= |s|
  {
    if s == "" || '\n' <= s[0] <= '\r' || 28 as char <= s[0] <= 30 as char then 0 else 1 + LineEnd(s[1..])
  }

  function LStripMarks(s: string): string {
    if s != "" && (s[0] == '!' || s[0] == '#') then LStripMarks(s[1..]) else s
  }

  predicate Cosmetic(raw: string) {
    Contains(raw, "##") || Contains(raw, "#@#") || Contains(raw, "#%#") || Contains(raw, "#$#")
  }

  datatype LineKind = SeveralLines | ControlLine | CommentLine | RegexLine | HostsLine | CosmeticLine | DomainLine

  /** The syntax of a stripped, non-empty line, decided in this order. */
  function Classify(lib: Libraries, raw: string): LineKind
    requires raw != ""
  {
    if '\n' in raw || '\r' in raw then SeveralLines
    else if exists i :: 0 <= i < |raw| && Control(raw[i]) && raw[i] != '\t' then ControlLine
    else if raw[0] == '!' || raw[0] == '#' then CommentLine
    else if raw[0] == '/' || StartsWith(raw, "@@/") then RegexLine
    else if |ParseHosts(lib, raw)| > 0 then HostsLine
    else if Cosmetic(raw) then CosmeticLine
    else DomainLine
  }

  function Excerpt(first: string): string { if |first| > 120 then first[..120] else first }

  function CommentRule(raw: string): Rule {
    Rule(raw, raw, Comment, NoAction, None, false, None, None, 0, Valid, Strip(LStripMarks(raw)))
  }

  /** The rules of a line of one syntax. */
  function ParseAs(lib: Libraries, raw: string, kind: LineKind, plainSubdomains: bool): seq<Rule> {
    match kind
    case SeveralLines => [InvalidRule(Excerpt(raw[..LineEnd(raw)]))]
    case ControlLine => [InvalidRule(raw)]
    case CommentLine => [CommentRule(raw)]
    case RegexLine => [ParseRegexRule(lib, raw)]
    case HostsLine => ParseHosts(lib, raw)
    case CosmeticLine => [Inactive(InvalidRule(raw))]
    case DomainLine => [ParseDomainRule(lib, raw, plainSubdomains)]
  }

  function ParseLine(lib: Libraries, raw: string, plainSubdomains: bool): seq<Rule>
    requires raw != ""
  {
    ParseAs(lib, raw, Classify(lib, raw), plainSubdomains)
  }

  function ParseRule(lib: Libraries, text: string, plainSubdomains: bool): seq<Rule> {
    if Strip(text) == "" then [] else ParseLine(lib, Strip(text), plainSubdomains)
  }
}
