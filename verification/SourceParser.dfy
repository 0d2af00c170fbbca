/** Blocklist source lines (app/alderpointdns_compiler.py): the fast path and the shared rule parser. */
module SourceParser {
  import opened Wrappers
  import opened Strings
  import opened DomainSyntax
  import opened RuleParser
  import opened RuleForms
  import opened NormalForm

  const VENDOR_PAGE := "ad-block.dns.adguard.com"
  const BLOCKPAGE_MODIFIER := "dnsrewrite=" + VENDOR_PAGE
  const DOTTED_ALIAS := "localhost.localdomain"

  predicate LocalhostAlias(d: string) {
    d == "localhost" || d == DOTTED_ALIAS || d == "ip6-localhost" || d == "ip6-loopback"
  }

  /** One result of a line. */
  datatype Finding = Skip | Accepted(allow: bool, domain: string) | Refused(invalid: bool)

  /** _adguard_blockpage_normalize */
  function BlockpageNormalize(text: string): string {
    if Contains(text, "$" + "dnsrewrite=") && Strip(After(text, '$')) == BLOCKPAGE_MODIFIER
    then Strip(Before(text, '$'))
    else text
  }

  predicate FastChar(c: char) {
    'a' <= c <= 'z' || 'A' <= c <= 'Z' || '0' <= c <= '9' || c == '.' || c == '_' || c == '-'
  }

  predicate AllFast(t: string) { forall i :: 0 <= i < |t| ==> FastChar(t[i]) }

  /** Ends with the only caret it has. */
  predicate OneCaretLast(body: string) { body != "" && IndexOf(body, '^') == Some(|body| - 1) }

  /** The name between the markers of the common shapes. */
  function FastCandidate(body: string): Option<string> {
    if StartsWith(body, "||") && OneCaretLast(body) then Some(body[2..|body| - 1])
    else if StartsWith(body, "|") && OneCaretLast(body) then Some(body[1..|body| - 1])
    else if AllFast(body) then Some(body)
    else None
  }

  function FastRule(lib: Libraries, raw: string): Option<Finding> {
    var isAllow := StartsWith(raw, "@@");
    var candidate := FastCandidate(if isAllow then raw[2..] else raw);
    if candidate.None? || candidate.value == "" || !AllFast(candidate.value) then None
    else match Normalize(lib, candidate.value)
      case None => None
      case Some(d) => Some(Accepted(isAllow, d))
  }

  /** What a parsed rule contributes to a source; a comment contributes nothing. */
  function ClassifyRule(r: Rule): seq<Finding> {
    if r.kind == Comment then []
    else if r.state == Invalid then [Refused(true)]
    else if r.state == NotPreserved then [Refused(false)]
    else if r.kind == RegexBlock || r.kind == RegexAllow || r.kind == Rewrite then [Refused(false)]
    else if r.domain.Some? && LocalhostAlias(r.domain.value) then [Skip]
    else [Accepted(r.action == Allows, r.domain.GetOr(""))]
  }

  function ClassifyRules(rules: seq<Rule>): seq<Finding> {
    if |rules| == 0 then [] else ClassifyRules(rules[..|rules| - 1]) + ClassifyRule(rules[|rules| - 1])
  }

  /** The line as the shared rule parser sees it. */
  function SlowRules(lib: Libraries, raw: string): seq<Finding> { ClassifyRules(ParseRule(lib, raw, true)) }

  function HostResult(lib: Libraries, host: string): Finding {
    if LocalhostAlias(Lower(StripDots(host))) then Skip
    else match Normalize(lib, host)
      case None => Refused(true)
      case Some(d) => if LocalhostAlias(d) then Skip else Accepted(false, d)
  }

  function HostResults(lib: Libraries, hosts: seq<string>): seq<Finding> {
    seq(|hosts|, k requires 0 <= k < |hosts| => HostResult(lib, hosts[k]))
  }

  predicate CouldBeIp(token: string) { token != "" && (Digit(token[0]) || ':' in token) }

  /** Whether a line is in hosts format: its first token is an address. */
  predicate IsHostsLine(lib: Libraries, raw: string) {
    |Words(raw)| > 0 && CouldBeIp(Words(raw)[0]) && lib.ip(Words(raw)[0]).Some?
  }

  function LineResults(lib: Libraries, raw: string): seq<Finding> {
    if IsHostsLine(lib, raw) then
      var parts := Words(Before(raw, '#'));
      if |parts| < 2 then [Refused(true)] else HostResults(lib, parts[1..])
    else
      var text := BlockpageNormalize(raw);
      match FastRule(lib, text)
      case Some(r) => [r]
      case None => SlowRules(lib, text)
  }

  /** The hosts-format half of parse_source_line. */
  method ParseSourceHosts(lib: Libraries, hosts: seq<string>) returns (results: seq<Finding>)
    ensures results == HostResults(lib, hosts)
  {
    results := [];
    for k := 0 to |hosts|
      invariant |results| == k && forall j :: 0 <= j < k ==> results[j] == HostResult(lib, hosts[j])
    {
      results := results + [HostResult(lib, hosts[k])];
    }
  }

  method ParseSourceLine(lib: Libraries, raw: string) returns (results: seq<Finding>)
    ensures results == LineResults(lib, raw)
  {
    if IsHostsLine(lib, raw) {
      var parts := Words(Before(raw, '#'));
      if |parts| < 2 { return [Refused(true)]; }
      results := ParseSourceHosts(lib, parts[1..]);
      return;
    }
    var text := BlockpageNormalize(raw);
    var common := FastRule(lib, text);
    if common.Some? { return [common.value]; }
    var parsed := ParseRule(lib, text, true);
    results := [];
    for k := 0 to |parsed|
      invariant results == ClassifyRules(parsed[..k])
    {
      assert parsed[..k + 1][..k] == parsed[..k];
      results := results + ClassifyRule(parsed[k]);
    }
    assert parsed[..|parsed|] == parsed;
  }

  // ----- the fast path against the slow one -----

  predicate MarkedChars(body: string) {
    forall i :: 0 <= i < |body| ==> FastChar(body[i]) || body[i] == '|' || body[i] == '^'
  }

  lemma FastMarked(body: string)
    requires OneCaretLast(body) && StartsWith(body, "|") && FastCandidate(body).value != ""
             && AllFast(FastCandidate(body).value)
    ensures body[0] == '|' && body[|body| - 1] == '^' && MarkedChars(body) && NamePart(body) == FastCandidate(body)
  {
    var name := FastCandidate(body).value;
    var k := if StartsWith(body, "||") then 2 else 1;
    assert body[..1] == "|" && body[..1][0] == body[0];
    if k == 2 { assert body[..2] == "||" && body[..2][1] == body[1]; }
    forall i | k <= i < |body| - 1
      ensures FastChar(body[i])
    {
      assert name[i - k] == body[i];
    }
    assert body[k..] == name + ['^'] + "";
    PartitionAt(body[k..], name, '^', "");
    SplitNone(name, '|');
  }

  lemma FastPlain(body: string)
    requires body != "" && AllFast(body)
    ensures FastCandidate(body) == Some(body) && NamePart(body) == Some(body)
  {
    NotStartsWith(body, "|", 0);
    assert !StartsWith(body, "||") by { NotStartsWith(body, "||", 0); }
    SplitNone(body, '^');
    SplitNone(body, '|');
  }

  lemma FastName(body: string)
    requires FastCandidate(body).Some? && FastCandidate(body).value != "" && AllFast(FastCandidate(body).value)
    ensures body != "" && MarkedChars(body) && body[0] != '^' && NamePart(body) == FastCandidate(body)
    ensures body[0] == '|' || (AllFast(body) && FastCandidate(body) == Some(body))
  {
    if OneCaretLast(body) && StartsWith(body, "|") { FastMarked(body); }
    else {
      if StartsWith(body, "||") { assert body[..1] == body[..2][..1] == "|"; }
      FastPlain(body);
    }
  }

  /** The whole text of a line the fast path answers. */
  lemma FastShape(raw: string, isAllow: bool, body: string)
    requires isAllow == StartsWith(raw, "@@") && body == if isAllow then raw[2..] else raw
    requires body != "" && MarkedChars(body) && body[0] != '^'
    ensures Visible(raw) && !StartsWith(raw, "@@/") && raw[0] != '/' && raw[0] != '!'
    ensures Before(body, '$') == body == Strip(body) && After(body, '$') == ""
    ensures raw[0] == if isAllow then '@' else body[0]
  {
    SplitNone(body, '$');
    StripFixed(body);
    if isAllow {
      assert raw == "@@" + body;
      NotStartsWith(raw, "@@/", 2);
    } else {
      NotStartsWith(raw, "@@/", 0);
    }
  }

  /** A name made of digits and dots that is an address is never taken for a domain. */
  lemma AddressIsNoDomain(lib: Libraries, raw: string)
    requires Lawful(lib) && AllFast(raw) && lib.ip(raw).Some?
    ensures Normalize(lib, raw).None?
  {
    assert AddressShape(raw);
    assert ':' !in raw;
    PlainText(raw);
  }

  lemma FastNotHosts(lib: Libraries, raw: string)
    requires Lawful(lib) && Visible(raw)
    requires raw[0] == '@' || raw[0] == '|' || (AllFast(raw) && Normalize(lib, raw).Some?)
    ensures ParseHosts(lib, raw) == []
  {
    if raw[0] == '@' || raw[0] == '|' {
      NotHosts(lib, raw);
    } else {
      VisibleLine(raw);
      OneWord(raw);
      if lib.ip(raw).Some? { AddressIsNoDomain(lib, raw); }
    }
  }

  lemma OneAlias(d: string)
    requires DomainPattern(d)
    ensures LocalhostAlias(d) <==> d == DOTTED_ALIAS
  {
    SplitNone("localhost", '.');
    SplitNone("ip6-localhost", '.');
    SplitNone("ip6-loopback", '.');
  }

  lemma PlainRule(lib: Libraries, raw: string, isAllow: bool, body: string, d: string)
    requires isAllow == StartsWith(raw, "@@") && body == if isAllow then raw[2..] else raw
    requires Before(body, '$') == body == Strip(body) && After(body, '$') == ""
    requires NamePart(body).Some? && Normalize(lib, NamePart(body).value) == Some(d)
    ensures var r := ParseDomainRule(lib, raw, true);
            r.state == Valid && r.kind == (if isAllow then Allow else Block)
                && r.action == (if isAllow then Allows else Blocks)
            && r.domain == Some(d)
  {
  }

  lemma FastParsed(lib: Libraries, raw: string)
    requires Lawful(lib) && FastRule(lib, raw).Some?
    ensures var r, rules := FastRule(lib, raw).value, ParseRule(lib, raw, true);
            && r.Accepted? && DomainPattern(r.domain) && |rules| == 1 && rules[0].state == Valid
            && rules[0].kind == (if r.allow then Allow else Block)
            && rules[0].action == (if r.allow then Allows else Blocks) && rules[0].domain == Some(r.domain)
  {
    var isAllow := StartsWith(raw, "@@");
    var body := if isAllow then raw[2..] else raw;
    FastName(body);
    FastShape(raw, isAllow, body);
    FastNotHosts(lib, raw);
    VisibleLine(raw);
    DomainClassified(lib, raw);
    OneDomainRule(lib, raw, true);
    PlainRule(lib, raw, isAllow, body, FastRule(lib, raw).value.domain);
  }

  lemma OneRule(rules: seq<Rule>)
    requires |rules| == 1
    ensures ClassifyRules(rules) == ClassifyRule(rules[0])
  {
    assert rules[..0] == [];
  }

  lemma TwoLabels(lib: Libraries, a: string, b: string)
    requires LabelOk(a) && LabelOk(b) && 'a' <= a[0] <= 'z'
    ensures AllFast(a + "." + b) && Normalize(lib, a + "." + b) == Some(a + "." + b)
  {
    var d := a + "." + b;
    assert '.' !in a && '.' !in b;
    PartitionAt(d, a, '.', b);
    assert d[|a|] == '.' && IndexOf(d, '.') == Some(|a|) && d[|a| + 1..] == b && d[..|a|] == a;
    SplitNone(b, '.');
    assert Split(d, '.') == [a, b];
    assert d[0] == a[0] && !LooksLikeIp(d) by {
      PatternIff(d);
      PlainText(d);
    }
    NormalizeFixed(lib, d);
  }

  // ----- the lines on which the paths part -----

  /**
   The dotted alias in any case, with any dots around it, in one of the common shapes: bare, `|..^` or
   `||..^`, after `@@` or not.
   */
  predicate AliasLine(raw: string) {
    var candidate := FastCandidate(if StartsWith(raw, "@@") then raw[2..] else raw);
    candidate.Some? && Lower(StripDots(candidate.value)) == DOTTED_ALIAS
  }

  lemma {:induction false} DotsAround(t: string)
    ensures exists i: nat, j: nat :: i <= j <= |t| && t[i..j] == StripDots(t)
              && (forall k :: 0 <= k < i ==> t[k] == '.') && (forall k :: j <= k < |t| ==> t[k] == '.')
  {
    LStripSuffix(t, '.');
    var i := |t| - |LStrip(t, '.')|;
    RStripPrefix(t[i..], '.');
    var j := i + |StripDots(t)|;
    assert t[i..j] == t[i..][..j - i];
    forall k | j <= k < |t|
      ensures t[k] == '.'
    {
      assert t[k] == t[i..][k - i];
    }
  }

  /** A candidate and its lower-case core are made of the same kind of characters. */
  lemma CoreIsFast(t: string)
    ensures AllFast(t) <==> AllFast(Lower(StripDots(t)))
  {
    DotsAround(t);
    var i: nat, j: nat :| i <= j <= |t| && t[i..j] == StripDots(t)
      && (forall k :: 0 <= k < i ==> t[k] == '.') && (forall k :: j <= k < |t| ==> t[k] == '.');
    var core := t[i..j];
    assert forall k :: 0 <= k < |core| ==> Lower(core)[k] == LowerChar(t[i + k]);
    if AllFast(Lower(core)) {
      forall k | 0 <= k < |t|
        ensures FastChar(t[k])
      {
        if i <= k < j { assert Lower(core)[k - i] == LowerChar(t[k]); }
      }
    }
  }

  lemma AliasIsADomain(lib: Libraries)
    ensures AllFast(DOTTED_ALIAS) && Normalize(lib, DOTTED_ALIAS) == Some(DOTTED_ALIAS)
    ensures Lower(StripDots(Strip(DOTTED_ALIAS))) == DOTTED_ALIAS
  {
    var a, b := "localhost", "localdomain";
    assert |a + "." + b| == |DOTTED_ALIAS|;
    assert a + "." + b == DOTTED_ALIAS;
    TwoLabels(lib, a, b);
    NormalizeIdempotent(lib, a + "." + b);
    PlainText(a + "." + b);
  }

  lemma FastAnswersIff(lib: Libraries, raw: string, candidate: Option<string>, d: string)
    requires candidate == FastCandidate(if StartsWith(raw, "@@") then raw[2..] else raw)
    requires AllFast(d) && Normalize(lib, d) == Some(d) && Lower(StripDots(Strip(d))) == d && d != ""
    ensures FastRule(lib, raw).Some? && FastRule(lib, raw).value.domain == d
            <==> candidate.Some? && Lower(StripDots(candidate.value)) == d
  {
    if candidate.Some? { CandidateNormalized(lib, candidate.value, d); }
  }

  /** The fast path answers with the alias exactly on its lines. */
  lemma AliasLineIff(lib: Libraries, raw: string)
    ensures FastRule(lib, raw).Some? && FastRule(lib, raw).value.domain == DOTTED_ALIAS <==> AliasLine(raw)
  {
    var d := DOTTED_ALIAS;
    AliasIsADomain(lib);
    FastAnswersIff(lib, raw, FastCandidate(if StartsWith(raw, "@@") then raw[2..] else raw), d);
  }

  lemma CandidateNormalized(lib: Libraries, c: string, d: string)
    requires AllFast(d) && Normalize(lib, d) == Some(d) && Lower(StripDots(Strip(d))) == d && d != ""
    ensures c != "" && AllFast(c) && Normalize(lib, c) == Some(d) <==> Lower(StripDots(c)) == d
  {
    CoreIsFast(c);
    if AllFast(c) { StripFixed(c); }
    if Lower(StripDots(c)) == d { assert c != ""; }
  }

  /**
   The fast path refines the slow one: whenever it answers, the shared parser gives the
   same single result, except that only the shared parser skips localhost.localdomain.
   */
  lemma FastRefinesSlow(lib: Libraries, raw: string)
    requires Lawful(lib) && FastRule(lib, raw).Some?
    ensures var r := FastRule(lib, raw).value;
            r.Accepted? && SlowRules(lib, raw) == (if r.domain == DOTTED_ALIAS then [Skip] else [r])
    ensures SlowRules(lib, raw) == [FastRule(lib, raw).value] <==> !AliasLine(raw)
  {
    AliasLineIff(lib, raw);
    FastParsed(lib, raw);
    OneAlias(FastRule(lib, raw).value.domain);
    OneRule(ParseRule(lib, raw, true));
  }

  lemma FastBlocks(lib: Libraries, d: string)
    requires d != "" && AllFast(d) && Normalize(lib, d) == Some(d)
    ensures FastRule(lib, d) == Some(Accepted(false, d))
  {
    FastPlain(d);
    NotStartsWith(d, "@@", 0);
  }

  /** The exception is real: the two paths answer differently for this line. */
  lemma FastPathKeepsAlias(lib: Libraries)
    requires Lawful(lib)
    ensures FastRule(lib, DOTTED_ALIAS) == Some(Accepted(false, DOTTED_ALIAS)) && SlowRules(lib, DOTTED_ALIAS) == [Skip]
  {
    AliasIsADomain(lib);
    FastBlocks(lib, DOTTED_ALIAS);
    FastRefinesSlow(lib, DOTTED_ALIAS);
  }

  /** A whole line that is not in hosts format means what the shared parser says, unless it is an alias line. */
  lemma FastPathTransparentIff(lib: Libraries, raw: string)
    requires Lawful(lib) && !IsHostsLine(lib, raw)
    ensures var text := BlockpageNormalize(raw);
            LineResults(lib, raw) == SlowRules(lib, text) <==> !AliasLine(text)
  {
    var text := BlockpageNormalize(raw);
    AliasLineIff(lib, text);
    if FastRule(lib, text).Some? { FastRefinesSlow(lib, text); }
  }

  /** The cheap test before parsing an address never turns an address away. */
  lemma PrefilterExact(lib: Libraries, raw: string)
    requires Lawful(lib) && |Words(raw)| > 0
    ensures IsHostsLine(lib, raw) <==> lib.ip(Words(raw)[0]).Some?
  {
    if lib.ip(Words(raw)[0]).Some? { assert AddressShape(Words(raw)[0]); }
  }
}
