/**
 What a list of modifiers makes of an anchored rule line (app/custom_rules.py): blanks count for
 nothing, `important` anywhere raises the priority, the last rewrite wins.
 */
module Modifiers {
  import opened Wrappers
  import opened Strings
  import opened DomainSyntax
  import opened RuleParser
  import opened RuleForms
  import opened NormalForm
  import opened LineMeanings

  datatype Modifier = Nothing(blanks: string) | Important | RewriteTo(address: Address, long: bool)

  function Spelled(m: Modifier): string {
    match m
    case Nothing(blanks) => blanks
    case Important => "important"
    case RewriteTo(a, long) => "dnsrewrite=" + RewriteOperand(a, long)
  }

  /** Modifiers that can be kept: an exception takes no rewrite. */
  predicate Fits(lib: Libraries, m: Modifier, isAllow: bool) {
    match m
    case Nothing(blanks) => Blank(blanks)
    case Important => true
    case RewriteTo(a, _) => !isAllow && Printed(lib, a) && ModifierText(a.text)
  }

  predicate AllFit(lib: Libraries, ms: seq<Modifier>, isAllow: bool) {
    forall k :: 0 <= k < |ms| ==> Fits(lib, ms[k], isAllow)
  }

  function Listed(ms: seq<Modifier>): string
    requires |ms| > 0
  {
    if |ms| == 1 then Spelled(ms[0]) else Spelled(ms[0]) + "," + Listed(ms[1..])
  }

  function TextsOf(ms: seq<Modifier>): seq<string> {
    if |ms| == 0 then [] else [Spelled(ms[0])] + TextsOf(ms[1..])
  }

  /** The address of the last rewrite. */
  function LastAddress(ms: seq<Modifier>): Option<Address> {
    if |ms| == 0 then None
    else if LastAddress(ms[1..]).Some? then LastAddress(ms[1..])
    else if ms[0].RewriteTo? then Some(ms[0].address)
    else None
  }

  function Raised(rule: Rule, ms: seq<Modifier>): Rule {
    if Important in ms then rule.(priority := 100) else rule
  }

  function Readdressed(rule: Rule, a: Option<Address>): Rule {
    if a.Some? then rule.(kind := Rewrite, action := Rewrites, address := a) else rule
  }

  lemma ImportantRaises(lib: Libraries, rule: Rule)
    ensures Modify(lib, rule, "important") == rule.(priority := 100) && ',' !in "important"
  {
    var word := "important";
    assert forall i :: 0 <= i < |word| ==> 'a' <= word[i] <= 'z';
    StripFixed(word);
    SplitNone(word, '=');
    assert Lower(word) == word;
  }

  lemma {:induction false} BlankStripped(t: string)
    requires Blank(t)
    ensures Strip(t) == "" && ',' !in t
    decreases |t|
  {
    if t != "" { BlankStripped(t[1..]); }
  }

  lemma OneFits(lib: Libraries, rule: Rule, m: Modifier, isAllow: bool)
    requires Fits(lib, m, isAllow) && (rule.action == Allows <==> isAllow) && rule.state == Valid
    ensures ',' !in Spelled(m)
    ensures Modify(lib, rule, Spelled(m)) == Readdressed(Raised(rule, [m]), LastAddress([m]))
  {
    match m
    case Nothing(blanks) => BlankStripped(blanks);
    case Important => ImportantRaises(lib, rule);
    case RewriteTo(a, long) =>
      OperandParsed(lib, a, long);
      var piece := "dnsrewrite=" + RewriteOperand(a, long);
      assert piece == "dnsrewrite" + "=" + RewriteOperand(a, long);
      DnsRewriteModifies(lib, rule, a, RewriteOperand(a, long), piece);
  }

  lemma Composed(rule: Rule, m: Modifier, more: seq<Modifier>)
    ensures Readdressed(Raised(Readdressed(Raised(rule, [m]), LastAddress([m])), more), LastAddress(more))
            == Readdressed(Raised(rule, [m] + more), LastAddress([m] + more))
  {
    var all := [m] + more;
    assert all[1..] == more && all[0] == m && [m][1..] == [];
    assert Important in all <==> m == Important || Important in more;
  }

  lemma {:induction false} AllModify(lib: Libraries, rule: Rule, ms: seq<Modifier>, isAllow: bool)
    requires AllFit(lib, ms, isAllow) && (rule.action == Allows <==> isAllow) && rule.state == Valid
    ensures ModifyAll(lib, rule, TextsOf(ms)) == Readdressed(Raised(rule, ms), LastAddress(ms))
    decreases |ms|
  {
    if |ms| > 0 {
      var next := Readdressed(Raised(rule, [ms[0]]), LastAddress([ms[0]]));
      OneFits(lib, rule, ms[0], isAllow);
      assert TextsOf(ms)[0] == Spelled(ms[0]) && TextsOf(ms)[1..] == TextsOf(ms[1..]);
      AllModify(lib, next, ms[1..], isAllow);
      Composed(rule, ms[0], ms[1..]);
      assert [ms[0]] + ms[1..] == ms;
    }
  }

  lemma {:induction false} ListedSplit(lib: Libraries, rule: Rule, ms: seq<Modifier>, isAllow: bool)
    requires |ms| > 0 && AllFit(lib, ms, isAllow) && (rule.action == Allows <==> isAllow) && rule.state == Valid
    ensures Split(Listed(ms), ',') == TextsOf(ms)
    decreases |ms|
  {
    var text := Spelled(ms[0]);
    OneFits(lib, rule, ms[0], isAllow);
    if |ms| == 1 {
      SplitNone(text, ',');
      assert TextsOf(ms[1..]) == [];
    } else {
      ListedSplit(lib, rule, ms[1..], isAllow);
      SplitFirst(text, Listed(ms[1..]), ',');
      assert Listed(ms) == text + [','] + Listed(ms[1..]);
    }
  }

  predicate Means(r: Rule, isAllow: bool, d: string, subdomains: bool, ms: seq<Modifier>) {
    && r.state == Valid && r.domain == Some(d) && r.subdomains == subdomains && r.pattern.None?
    && r.priority == (if Important in ms then 100 else 0) && r.address == LastAddress(ms)
    && (if LastAddress(ms).Some? then r.kind == Rewrite && r.action == Rewrites
        else r.kind == (if isAllow then Allow else Block) && r.action == (if isAllow then Allows else Blocks))
    && r.normalized == StoredText(isAllow, d, subdomains, LastAddress(ms))
  }

  function StoredText(isAllow: bool, d: string, subdomains: bool, a: Option<Address>): string {
    var anchored := (if subdomains then "||" else "|") + d + "^";
    if a.Some? then anchored + "$dnsrewrite=" + a.value.text else (if isAllow then "@@" else "") + anchored
  }

  lemma NoRewrite(lib: Libraries, ms: seq<Modifier>)
    requires AllFit(lib, ms, true)
    ensures LastAddress(ms).None?
    decreases |ms|
  {
    if |ms| > 0 { NoRewrite(lib, ms[1..]); }
  }

  lemma ReadjustedMeans(rule: Rule, isAllow: bool, d: string, subdomains: bool, ms: seq<Modifier>)
    requires rule == Unmodified(rule.text, isAllow, d, subdomains) && (isAllow ==> LastAddress(ms).None?)
    ensures var r := Readdressed(Raised(rule, ms), LastAddress(ms));
            Means(r.(normalized := NormalizedForm(r)), isAllow, d, subdomains, ms)
  {
  }

  lemma FinishedList(lib: Libraries, raw: string, isAllow: bool, d: string, subdomains: bool, ms: seq<Modifier>)
    requires |ms| > 0 && AllFit(lib, ms, isAllow) && Listed(ms) != ""
    ensures Means(Finished(lib, Unmodified(raw, isAllow, d, subdomains), Listed(ms)), isAllow, d, subdomains, ms)
  {
    var rule := Unmodified(raw, isAllow, d, subdomains);
    ListedSplit(lib, rule, ms, isAllow);
    AllModify(lib, rule, ms, isAllow);
    if isAllow { NoRewrite(lib, ms); }
    ReadjustedMeans(rule, isAllow, d, subdomains, ms);
  }

  /** An anchored line with any list of modifiers that can be kept. */
  lemma ModifierListMeans(lib: Libraries, isAllow: bool, subdomains: bool, d: string, ms: seq<Modifier>, plain: bool)
    requires Lawful(lib) && Normalize(lib, d) == Some(d) && |ms| > 0 && AllFit(lib, ms, isAllow) && Clean(Listed(ms))
    ensures var rules := ParseRule(lib, AnchoredLine(isAllow, AnchoredName(subdomains, d), Listed(ms)), plain);
            |rules| == 1 && Means(rules[0], isAllow, d, subdomains, ms)
  {
    NormalizeIdempotent(lib, d);
    ReparseLine(lib, isAllow, subdomains, d, Listed(ms), plain);
    FinishedList(lib, AnchoredLine(isAllow, AnchoredName(subdomains, d), Listed(ms)), isAllow, d, subdomains, ms);
  }
}
