/**
 The custom filtering rules (app/custom_rules.py): stored rules, their direct
 evaluation for one name, and their compilation into a response-policy zone and
 the dnsdist lists that run in front of it.

 Everything the compiler decides is decided one owner name at a time, so the
 specification is a function from a name to the rules that hold there.
 */
module CustomRules {
  import opened Wrappers
  import opened DomainNames

  // ----- stored rules -----

  datatype Address = V4(text: string) | V6(text: string)

  datatype Action = Rewrite(address: Address) | Allow | Block

  /** One row of custom_filter_rules that is enabled and valid. */
  datatype Rule =
    | DomainRule(action: Action, domain: Name, subdomains: bool, priority: nat)
    | RegexRule(passes: bool, pattern: string, priority: nat)
    | Comment(comment: string)

  /** What a regular-expression engine answers; left uninterpreted. */
  type Matcher = (string, Name) -> bool

  datatype Kind = KRewrite | KAllow | KBlock

  /** Which rules at a name: all of them, those with subdomains, those without. */
  datatype Scope = Every | WithSubdomains | ExactOnly

  /** The rules of one kind and scope at one domain. */
  datatype Selector = Selector(kind: Kind, domain: Name, scope: Scope)

  function KindOf(a: Action): Kind {
    match a
    case Rewrite(_) => KRewrite
    case Allow => KAllow
    case Block => KBlock
  }

  predicate Selects(s: Selector, r: Rule) {
    && r.DomainRule?
    && KindOf(r.action) == s.kind
    && r.domain == s.domain
    && (s.scope.WithSubdomains? ==> r.subdomains)
    && (s.scope.ExactOnly? ==> !r.subdomains)
  }

  predicate Has(rules: seq<Rule>, s: Selector) {
    exists r :: r in rules && Selects(s, r)
  }

  /** The largest priority among the selected rules (0 when there is none). */
  function TopPriority(rules: seq<Rule>, s: Selector): nat {
    if rules == [] then 0 else
    var rest := TopPriority(rules[..|rules| - 1], s);
    var last := rules[|rules| - 1];
    if Selects(s, last) && last.priority > rest then last.priority else rest
  }

  /** The address of the first rewrite of one family at d. */
  function FirstAddress(rules: seq<Rule>, d: Name, v4: bool): Option<Address> {
    if rules == [] then None else
    var rest := FirstAddress(rules[..|rules| - 1], d, v4);
    var last := rules[|rules| - 1];
    if rest.None? && Selects(Selector(KRewrite, d, Every), last) && last.action.address.V4? == v4
    then Some(last.action.address)
    else rest
  }

  // ----- the rule set merged per name, before and after conflict resolution -----

  datatype RewriteEntry = RewriteEntry(a: Option<Address>, aaaa: Option<Address>, subdomains: bool)

  datatype DomainEntry = DomainEntry(exact: bool, subdomains: bool, priority: nat)

  /** Everything the rule set says at one name. */
  datatype NameRules = NameRules(rewrite: Option<RewriteEntry>, allow: Option<DomainEntry>, block: Option<DomainEntry>)

  function EntryOf(rules: seq<Rule>, k: Kind, d: Name): Option<DomainEntry> {
    if Has(rules, Selector(k, d, Every))
    then Some(DomainEntry(Has(rules, Selector(k, d, ExactOnly)), Has(rules, Selector(k, d, WithSubdomains)),
                          TopPriority(rules, Selector(k, d, Every))))
    else None
  }

  function RewriteEntryOf(rules: seq<Rule>, d: Name): Option<RewriteEntry> {
    if Has(rules, Selector(KRewrite, d, Every))
    then Some(RewriteEntry(FirstAddress(rules, d, true), FirstAddress(rules, d, false),
                           Has(rules, Selector(KRewrite, d, WithSubdomains))))
    else None
  }

  function Merged(rules: seq<Rule>, d: Name): NameRules {
    NameRules(RewriteEntryOf(rules, d), EntryOf(rules, KAllow, d), EntryOf(rules, KBlock, d))
  }

  /** A block outranks the allow at its name, which is then dropped as a whole. */
  predicate Outranked(n: NameRules) {
    n.allow.Some? && n.block.Some? && n.block.value.priority > n.allow.value.priority
  }

  function ResolvedBlock(n: NameRules): Option<DomainEntry> {
    if n.block.None? then None else
    var kept := n.allow.Some? && !Outranked(n);
    var exact := n.block.value.exact && n.rewrite.None? && !kept;
    var subdomains := n.block.value.subdomains
      && !(n.rewrite.Some? && n.rewrite.value.subdomains)
      && !(kept && n.allow.value.subdomains);
    if exact || subdomains then Some(n.block.value.(exact := exact, subdomains := subdomains)) else None
  }

  function ResolvedAllow(n: NameRules): Option<DomainEntry> {
    if n.allow.None? || Outranked(n) then None
    else if n.rewrite.None? then n.allow
    else if n.rewrite.value.subdomains || !n.allow.value.subdomains then None
    else Some(n.allow.value.(exact := false))
  }

  /** The same name after rewrite > allow > block has been applied to it. */
  function Resolved(n: NameRules): NameRules {
    NameRules(n.rewrite, ResolvedAllow(n), ResolvedBlock(n))
  }

  function Compiled(rules: seq<Rule>, d: Name): NameRules {
    Resolved(Merged(rules, d))
  }

  function Patterns(rules: seq<Rule>, passes: bool): seq<string> {
    if rules == [] then [] else
    var last := rules[|rules| - 1];
    Patterns(rules[..|rules| - 1], passes)
      + (if last.RegexRule? && last.passes == passes then [last.pattern] else [])
  }

  // ----- the zone -----

  datatype Rdata = A(address: Address) | AAAA(address: Address) | Passthru | Nxdomain

  datatype Record = Record(owner: Owner, rdata: Rdata)

  /** A zone as its readers see it: the records of each owner, in file order. */
  type Zone = Owner -> seq<Rdata>

  function RecordsAt(lines: seq<Record>, o: Owner): seq<Rdata> {
    if lines == [] then [] else
    var last := lines[|lines| - 1];
    RecordsAt(lines[..|lines| - 1], o) + (if last.owner == o then [last.rdata] else [])
  }

  function AddressRecords(e: RewriteEntry): seq<Rdata> {
    (if e.a.Some? then [A(e.a.value)] else []) + (if e.aaaa.Some? then [AAAA(e.aaaa.value)] else [])
  }

  /** Does a custom rule claim this owner? */
  predicate Claims(n: NameRules, wildcard: bool) {
    || (n.rewrite.Some? && (wildcard ==> n.rewrite.value.subdomains))
    || (n.allow.Some? && ((!wildcard && n.allow.value.exact) || n.allow.value.subdomains))
    || (n.block.Some? && ((!wildcard && n.block.value.exact) || n.block.value.subdomains))
  }

  function CustomRecords(n: NameRules, wildcard: bool): seq<Rdata> {
    if n.rewrite.Some? && (wildcard ==> n.rewrite.value.subdomains) then AddressRecords(n.rewrite.value)
    else if n.allow.Some? && ((!wildcard && n.allow.value.exact) || n.allow.value.subdomains) then [Passthru]
    else if n.block.Some? && ((!wildcard && n.block.value.exact) || n.block.value.subdomains) then [Nxdomain]
    else []
  }

  function OwnerRecords(n: NameRules, wildcard: bool, external: bool): seq<Rdata> {
    if Claims(n, wildcard) then CustomRecords(n, wildcard)
    else if external then [Nxdomain]
    else []
  }

  /** An external block entry that a custom allow takes out of the block set. */
  predicate Subtracted(rules: seq<Rule>, x: Name) {
    || Compiled(rules, x).allow.Some?
    || exists i: nat :: i < |x| && SubdomainAllow(rules, x[i..])
  }

  predicate SubdomainAllow(rules: seq<Rule>, d: Name) {
    Compiled(rules, d).allow.Some? && Compiled(rules, d).allow.value.subdomains
  }

  function Remaining(rules: seq<Rule>, external: set<Name>): set<Name> {
    set x | x in external && !Subtracted(rules, x)
  }

  function ZoneOf(rules: seq<Rule>, external: set<Name>): Zone {
    (o: Owner) => OwnerRecords(Compiled(rules, o.name), o.Wildcard?, o.name in Remaining(rules, external))
  }

  // ----- how a name is looked up in the zone -----

  /** The i-th owner tried for q: q itself, then ever shorter wildcards. */
  function OwnerAt(q: Name, i: nat): Owner
    requires i < |q|
  {
    if i == 0 then Exact(q) else Wildcard(q[i..])
  }

  /** Index of the first owner at or after i that has a record. */
  function FirstOwner(zone: Zone, q: Name, i: nat): (r: Option<nat>)
    ensures r.Some? ==> i <= r.value < |q| && zone(OwnerAt(q, r.value)) != []
    ensures forall j: nat :: i <= j < |q| && (r.Some? ==> j < r.value) ==> zone(OwnerAt(q, j)) == []
    decreases |q| - i
  {
    if i >= |q| then None
    else if zone(OwnerAt(q, i)) != [] then Some(i)
    else FirstOwner(zone, q, i + 1)
  }

  function RpzAnswer(zone: Zone, q: Name): seq<Rdata> {
    match FirstOwner(zone, q, 0)
    case None => []
    case Some(i) => zone(OwnerAt(q, i))
  }

  /** The owner that answers. */
  function RpzEntry(zone: Zone, q: Name): Option<Owner> {
    match FirstOwner(zone, q, 0)
    case None => None
    case Some(i) => Some(OwnerAt(q, i))
  }

  predicate RpzBlocks(answer: seq<Rdata>) { Nxdomain in answer }

  // ----- the dnsdist lists and the two layers run in sequence -----

  datatype DnsdistLists = DnsdistLists(suffixes: set<Name>, exacts: set<Name>, regexAllow: seq<string>,
      regexBlock: seq<string>)

  datatype Outcome = Local | Rewritten | Blocked | Resolves

  predicate SuffixMatch(suffixes: set<Name>, q: Name) {
    exists s :: s in suffixes && AtOrBelow(q, s)
  }

  predicate AnyPattern(patterns: seq<string>, q: Name, rx: Matcher) {
    exists p :: p in patterns && rx(p, q)
  }

  /** The static Lua loader: pass suffixes, pass names, regex allows, regex blocks. */
  predicate DnsdistForwards(l: DnsdistLists, q: Name, rx: Matcher) {
    || SuffixMatch(l.suffixes, q)
    || q in l.exacts
    || AnyPattern(l.regexAllow, q, rx)
    || !AnyPattern(l.regexBlock, q, rx)
  }

  /** BIND answers its own zones itself and applies the response policy to the rest. */
  function BindOutcome(zone: Zone, localZones: set<Name>, q: Name): Outcome {
    if SuffixMatch(localZones, q) then Local else
    var answer := RpzAnswer(zone, q);
    if RpzBlocks(answer) then Blocked
    else if answer == [] || Passthru in answer then Resolves
    else Rewritten
  }

  function Execute(l: DnsdistLists, zone: Zone, localZones: set<Name>, q: Name, rx: Matcher): Outcome {
    if DnsdistForwards(l, q, rx) then BindOutcome(zone, localZones, q) else Blocked
  }

  /** Names that pass with everything below them: subdomain allows and subdomain rewrites. */
  predicate SuffixPass(rules: seq<Rule>, d: Name) {
    SubdomainAllow(rules, d) || (Compiled(rules, d).rewrite.Some? && Compiled(rules, d).rewrite.value.subdomains)
  }

  /** Names that pass alone: exact allows and exact rewrites. */
  predicate ExactPass(rules: seq<Rule>, d: Name) {
    var n := Compiled(rules, d);
    || (n.allow.Some? && n.allow.value.exact && !n.allow.value.subdomains)
    || (n.rewrite.Some? && !n.rewrite.value.subdomains)
  }

  function RuleDomains(rules: seq<Rule>): set<Name> {
    set r | r in rules && r.DomainRule? :: r.domain
  }

  /** The four data files: what passes as a suffix, as a name, and the regex lists. */
  function ListsOf(rules: seq<Rule>, localZones: set<Name>): (l: DnsdistLists)
    ensures forall d: Name :: d in l.suffixes <==> d in localZones || SuffixPass(rules, d)
    ensures forall d: Name :: d in l.exacts <==> ExactPass(rules, d) && d !in l.suffixes
  {
    var suffixes := localZones + set d | d in RuleDomains(rules) && SuffixPass(rules, d);
    var exacts := set d | d in RuleDomains(rules) && ExactPass(rules, d) && d !in suffixes;
    DnsdistLists(suffixes, exacts, Deployed(Patterns(rules, true)), Deployed(Patterns(rules, false)))
  }

  /** A trailing unescaped `$` becomes `\.?$` in the deployed pattern. */
  function DeployedPattern(p: string): string {
    if |p| > 0 && p[|p| - 1] == '$' && TrailingBackslashes(p[..|p| - 1]) % 2 == 0
    then p[..|p| - 1] + "\\.?$"
    else p
  }

  function TrailingBackslashes(s: string): nat {
    if |s| > 0 && s[|s| - 1] == '\\' then 1 + TrailingBackslashes(s[..|s| - 1]) else 0
  }

  function Deployed(patterns: seq<string>): seq<string> {
    seq(|patterns|, i requires 0 <= i < |patterns| => DeployedPattern(patterns[i]))
  }

  // ----- direct evaluation ("test a domain") -----

  /** resolve, local, rewrite, allow or block: the five values of final_action. */
  datatype Verdict = VResolve | VLocal | VRewrite | VAllow | VBlock

  function OutcomeOf(v: Verdict): Outcome {
    match v
    case VLocal => Local
    case VRewrite => Rewritten
    case VBlock => Blocked
    case VAllow => Resolves
    case VResolve => Resolves
  }

  /** The rules at q's i-th suffix that match q: all of them at q itself, else those with subdomains. */
  function Match(k: Kind, q: Name, i: nat): Selector
    requires i < |q|
  {
    Selector(k, q[i..], if i == 0 then Every else WithSubdomains)
  }

  predicate MatchedAt(rules: seq<Rule>, q: Name, i: nat)
    requires i < |q|
  {
    Has(rules, Match(KRewrite, q, i)) || Has(rules, Match(KAllow, q, i)) || Has(rules, Match(KBlock, q, i))
  }

  /** The most specific suffix of q, from i on, at which some domain rule matches. */
  function BestMatch(rules: seq<Rule>, q: Name, i: nat): (r: Option<nat>)
    ensures r.Some? ==> i <= r.value < |q| && MatchedAt(rules, q, r.value)
    ensures forall j: nat :: i <= j < |q| && (r.Some? ==> j < r.value) ==> !MatchedAt(rules, q, j)
    decreases |q| - i
  {
    if i >= |q| then None
    else if MatchedAt(rules, q, i) then Some(i)
    else BestMatch(rules, q, i + 1)
  }

  /** The verdict among the rules of the most specific match alone. */
  function VerdictAt(rules: seq<Rule>, q: Name, i: nat): Verdict
    requires i < |q|
  {
    var allow, block := Match(KAllow, q, i), Match(KBlock, q, i);
    if Has(rules, Match(KRewrite, q, i)) then VRewrite
    else if Has(rules, allow) && Has(rules, block) && TopPriority(rules, block) > TopPriority(rules, allow) then VBlock
    else if Has(rules, allow) then VAllow
    else VBlock
  }

  predicate RegexHit(rules: seq<Rule>, passes: bool, q: Name, rx: Matcher) {
    exists r :: r in rules && r.RegexRule? && r.passes == passes && rx(DeployedPattern(r.pattern), q)
  }

  function Evaluate(rules: seq<Rule>, localZones: set<Name>, zone: Zone, q: Name, rx: Matcher): Verdict {
    if SuffixMatch(localZones, q) then VLocal else
    match BestMatch(rules, q, 0)
    case Some(i) => VerdictAt(rules, q, i)
    case None =>
      var blocked := RpzBlocks(RpzAnswer(zone, q));
      if RegexHit(rules, true, q, rx) then (if blocked then VBlock else VAllow)
      else if RegexHit(rules, false, q, rx) || blocked then VBlock
      else VResolve
  }
}
