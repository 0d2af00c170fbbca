/**
 The compiled policy (dnsdist lists, then the response-policy zone) against the
 direct evaluation of the same rules.
 */
module CompilerCorrectness {
  import opened Wrappers
  import opened DomainNames
  import opened CustomRules

  function Deployment(rules: seq<Rule>, localZones: set<Name>, external: set<Name>, q: Name, rx: Matcher): Outcome {
    Execute(ListsOf(rules, localZones), ZoneOf(rules, external), localZones, q, rx)
  }

  function Evaluation(rules: seq<Rule>, localZones: set<Name>, external: set<Name>, q: Name, rx: Matcher): Outcome {
    OutcomeOf(Evaluate(rules, localZones, ZoneOf(rules, external), q, rx))
  }

  // ----- what the zone holds where no rule reaches -----

  /** The surviving rules at q's i-th suffix reach q: any of them at q itself, else those with subdomains. */
  predicate ClaimsAt(rules: seq<Rule>, q: Name, i: nat)
    requires i < |q|
  {
    Claims(Compiled(rules, q[i..]), i > 0)
  }

  lemma UnclaimedOwner(rules: seq<Rule>, external: set<Name>, q: Name, j: nat)
    requires j < |q| && !ClaimsAt(rules, q, j)
    ensures ZoneOf(rules, external)(OwnerAt(q, j)) == if q[j..] in Remaining(rules, external) then [Nxdomain] else []
  {
    assert q[0..] == q;
  }

  /** Below the first claim only external entries can answer, and they block. */
  lemma BelowFirstClaim(rules: seq<Rule>, external: set<Name>, q: Name, k: nat)
    requires k <= |q|
    requires forall j: nat :: j < k ==> !ClaimsAt(rules, q, j)
    ensures (exists j: nat :: j < k && q[j..] in Remaining(rules, external))
            ==> RpzAnswer(ZoneOf(rules, external), q) == [Nxdomain]
    ensures (forall j: nat :: j < k ==> q[j..] !in Remaining(rules, external)) && k < |q|
            && ZoneOf(rules, external)(OwnerAt(q, k)) != []
            ==> RpzAnswer(ZoneOf(rules, external), q) == ZoneOf(rules, external)(OwnerAt(q, k))
  {
    forall j: nat | j < k
      ensures ZoneOf(rules, external)(OwnerAt(q, j)) == if q[j..] in Remaining(rules, external) then [Nxdomain] else []
    {
      UnclaimedOwner(rules, external, q, j);
    }
  }

  lemma UnmatchedUnclaimed(rules: seq<Rule>, q: Name, j: nat)
    requires j < |q| && !MatchedAt(rules, q, j)
    ensures !ClaimsAt(rules, q, j)
  {
  }

  lemma AboveBestMatch(rules: seq<Rule>, external: set<Name>, q: Name, k: nat)
    requires k <= |q|
    requires forall j: nat :: j < k ==> !MatchedAt(rules, q, j)
    ensures (exists j: nat :: j < k && q[j..] in Remaining(rules, external))
            ==> RpzAnswer(ZoneOf(rules, external), q) == [Nxdomain]
    ensures (forall j: nat :: j < k ==> q[j..] !in Remaining(rules, external)) && k < |q|
            && ZoneOf(rules, external)(OwnerAt(q, k)) != []
            ==> RpzAnswer(ZoneOf(rules, external), q) == ZoneOf(rules, external)(OwnerAt(q, k))
  {
    forall j: nat | j < k
      ensures !ClaimsAt(rules, q, j)
    {
      UnmatchedUnclaimed(rules, q, j);
    }
    BelowFirstClaim(rules, external, q, k);
  }

  lemma SuffixListMatches(suffixes: set<Name>, rules: seq<Rule>, localZones: set<Name>, q: Name)
    requires forall d: Name :: d in suffixes <==> d in localZones || SuffixPass(rules, d)
    ensures SuffixMatch(suffixes, q) ==>
              SuffixMatch(localZones, q) || exists i: nat :: i < |q| && SuffixPass(rules, q[i..])
    ensures SuffixMatch(localZones, q) ==> SuffixMatch(suffixes, q)
    ensures forall i: nat :: i < |q| && SuffixPass(rules, q[i..]) ==> SuffixMatch(suffixes, q)
  {
    if s :| s in suffixes && AtOrBelow(q, s) {
      assert q[|q| - |s|..] == s;
      assert s in localZones || SuffixPass(rules, q[|q| - |s|..]);
    }
    if s :| s in localZones && AtOrBelow(q, s) { assert s in suffixes; }
    forall i: nat | i < |q| && SuffixPass(rules, q[i..])
      ensures SuffixMatch(suffixes, q)
    {
      assert q[i..] in suffixes && AtOrBelow(q, q[i..]);
    }
  }

  lemma SuffixPassMatches(rules: seq<Rule>, localZones: set<Name>, q: Name)
    ensures SuffixMatch(ListsOf(rules, localZones).suffixes, q)
            ==> SuffixMatch(localZones, q) || exists i: nat :: i < |q| && SuffixPass(rules, q[i..])
    ensures SuffixMatch(localZones, q) ==> SuffixMatch(ListsOf(rules, localZones).suffixes, q)
    ensures forall i: nat :: i < |q| && SuffixPass(rules, q[i..]) ==>
            SuffixMatch(ListsOf(rules, localZones).suffixes, q)
  {
    SuffixListMatches(ListsOf(rules, localZones).suffixes, rules, localZones, q);
  }

  lemma {:induction false} PatternsMember(rules: seq<Rule>, passes: bool, p: string)
    ensures p in Patterns(rules, passes)
            <==> exists r :: r in rules && r.RegexRule? && r.passes == passes && r.pattern == p
  {
    if rules != [] {
      var init, last := rules[..|rules| - 1], rules[|rules| - 1];
      PatternsMember(init, passes, p);
      assert rules == init + [last];
    }
  }

  /** The regex files and the stored regex rules match the same names. */
  lemma RegexFilesMatch(rules: seq<Rule>, passes: bool, q: Name, rx: Matcher)
    ensures AnyPattern(Deployed(Patterns(rules, passes)), q, rx) <==> RegexHit(rules, passes, q, rx)
  {
    var ps := Patterns(rules, passes);
    if RegexHit(rules, passes, q, rx) {
      var r :| r in rules && r.RegexRule? && r.passes == passes && rx(DeployedPattern(r.pattern), q);
      PatternsMember(rules, passes, r.pattern);
      var i :| 0 <= i < |ps| && ps[i] == r.pattern;
      assert Deployed(ps)[i] == DeployedPattern(r.pattern);
    }
    if AnyPattern(Deployed(ps), q, rx) {
      var p :| p in Deployed(ps) && rx(p, q);
      var i :| 0 <= i < |ps| && Deployed(ps)[i] == p;
      PatternsMember(rules, passes, ps[i]);
    }
  }

  lemma {:induction false} RewriteHasAddress(rules: seq<Rule>, d: Name)
    ensures Has(rules, Selector(KRewrite, d, Every)) ==>
            FirstAddress(rules, d, true).Some? || FirstAddress(rules, d, false).Some?
  {
    if rules != [] {
      RewriteHasAddress(rules[..|rules| - 1], d);
      assert rules == rules[..|rules| - 1] + [rules[|rules| - 1]];
    }
  }

  lemma {:induction false} TopPriorityBound(rules: seq<Rule>, s: Selector)
    ensures forall r :: r in rules && Selects(s, r) ==> r.priority <= TopPriority(rules, s)
    ensures Has(rules, s) ==> exists r :: r in rules && Selects(s, r) && r.priority == TopPriority(rules, s)
  {
    if rules != [] {
      var init, last := rules[..|rules| - 1], rules[|rules| - 1];
      TopPriorityBound(init, s);
      assert rules == init + [last];
      if TopPriority(rules, s) == TopPriority(init, s) && Has(rules, s) && !Has(init, s) {
        TopPriorityOfNone(init, s);
      }
    }
  }

  lemma {:induction false} TopPriorityOfNone(rules: seq<Rule>, s: Selector)
    requires !Has(rules, s)
    ensures TopPriority(rules, s) == 0
  {
    if rules != [] {
      assert rules[|rules| - 1] in rules;
      TopPriorityOfNone(rules[..|rules| - 1], s);
    }
  }

  // ----- agreement, case by case -----

  lemma PassMeansMatched(rules: seq<Rule>, q: Name, i: nat)
    requires i < |q|
    ensures SuffixPass(rules, q[i..]) ==> MatchedAt(rules, q, i)
    ensures ExactPass(rules, q) ==> MatchedAt(rules, q, 0)
  {
    assert q[0..] == q;
  }

  lemma UnmatchedAnswer(rules: seq<Rule>, external: set<Name>, q: Name)
    requires forall j: nat :: j < |q| ==> !MatchedAt(rules, q, j)
    ensures RpzAnswer(ZoneOf(rules, external), q) in {[], [Nxdomain]}
  {
    var zone := ZoneOf(rules, external);
    var i := FirstOwner(zone, q, 0);
    if i.Some? {
      UnmatchedUnclaimed(rules, q, i.value);
      UnclaimedOwner(rules, external, q, i.value);
    }
  }

  /** What dnsdist does with a name no pass list holds. */
  lemma PatternsDecide(rules: seq<Rule>, localZones: set<Name>, q: Name, rx: Matcher)
    requires !SuffixMatch(localZones, q) && !ExactPass(rules, q)
    requires forall i: nat :: i < |q| ==> !SuffixPass(rules, q[i..])
    ensures DnsdistForwards(ListsOf(rules, localZones), q, rx)
            <==> RegexHit(rules, true, q, rx) || !RegexHit(rules, false, q, rx)
  {
    SuffixPassMatches(rules, localZones, q);
    RegexFilesMatch(rules, true, q, rx);
    RegexFilesMatch(rules, false, q, rx);
  }

  /** No domain rule matches: only the regex lists and the external entries decide. */
  lemma NoMatchAgrees(rules: seq<Rule>, localZones: set<Name>, external: set<Name>, q: Name, rx: Matcher)
    requires !SuffixMatch(localZones, q) && BestMatch(rules, q, 0).None?
    ensures Deployment(rules, localZones, external, q, rx) == Evaluation(rules, localZones, external, q, rx)
  {
    forall i: nat | i < |q|
      ensures !SuffixPass(rules, q[i..])
    {
      PassMeansMatched(rules, q, i);
    }
    PassMeansMatched(rules, q, 0);
    PatternsDecide(rules, localZones, q, rx);
    UnmatchedAnswer(rules, external, q);
  }

  /** A name with rules of its own is answered by them alone. */
  lemma ExactAnswer(rules: seq<Rule>, external: set<Name>, q: Name)
    requires MatchedAt(rules, q, 0)
    ensures RpzAnswer(ZoneOf(rules, external), q) == CustomRecords(Compiled(rules, q), false) != []
  {
    assert q[0..] == q;
    RewriteHasAddress(rules, q);
    BelowFirstClaim(rules, external, q, 0);
  }

  lemma ExactForwards(rules: seq<Rule>, localZones: set<Name>, q: Name, rx: Matcher)
    requires Compiled(rules, q).rewrite.Some? || Compiled(rules, q).allow.Some?
    ensures DnsdistForwards(ListsOf(rules, localZones), q, rx)
  {
    assert q[0..] == q;
    SuffixPassMatches(rules, localZones, q);
    assert SuffixPass(rules, q[0..]) || ExactPass(rules, q);
  }

  /** Rewrite, else allow, else block, among what survives at the name itself. */
  function ExactResult(n: NameRules): Outcome {
    if n.rewrite.Some? then Rewritten else if n.allow.Some? then Resolves else Blocked
  }

  lemma ExactOutcome(rules: seq<Rule>, localZones: set<Name>, external: set<Name>, q: Name, rx: Matcher)
    requires !SuffixMatch(localZones, q) && MatchedAt(rules, q, 0)
    ensures Deployment(rules, localZones, external, q, rx) == ExactResult(Compiled(rules, q))
  {
    var n := Compiled(rules, q);
    ExactAnswer(rules, external, q);
    if n.rewrite.Some? || n.allow.Some? { ExactForwards(rules, localZones, q, rx); }
  }

  lemma ExactVerdict(rules: seq<Rule>, q: Name)
    requires MatchedAt(rules, q, 0)
    ensures OutcomeOf(VerdictAt(rules, q, 0)) == ExactResult(Compiled(rules, q))
  {
    assert q[0..] == q;
  }

  /** The name is itself a rule's domain: no side condition at all. */
  lemma ExactMatchAgrees(rules: seq<Rule>, localZones: set<Name>, external: set<Name>, q: Name, rx: Matcher)
    requires !SuffixMatch(localZones, q) && MatchedAt(rules, q, 0)
    ensures Deployment(rules, localZones, external, q, rx) == Evaluation(rules, localZones, external, q, rx)
  {
    ExactOutcome(rules, localZones, external, q, rx);
    ExactVerdict(rules, q);
    assert BestMatch(rules, q, 0) == Some(0);
  }

  /** An external entry at or above q but strictly below its best match still stands. */
  predicate ExternalIntrudes(rules: seq<Rule>, external: set<Name>, q: Name, i: nat) {
    exists j: nat :: j < i && j < |q| && q[j..] in Remaining(rules, external)
  }

  lemma SubdomainRewriteAnswer(rules: seq<Rule>, external: set<Name>, q: Name, i: nat)
    requires BestMatch(rules, q, 0) == Some(i) && 0 < i && Has(rules, Match(KRewrite, q, i))
    ensures RpzAnswer(ZoneOf(rules, external), q)
            == if ExternalIntrudes(rules, external, q, i) then [Nxdomain]
                 else AddressRecords(Compiled(rules, q[i..]).rewrite.value)
    ensures AddressRecords(Compiled(rules, q[i..]).rewrite.value) != []
  {
    RewriteHasAddress(rules, q[i..]);
    AboveBestMatch(rules, external, q, i);
    assert ZoneOf(rules, external)(OwnerAt(q, i)) == CustomRecords(Compiled(rules, q[i..]), true);
  }

  lemma SuffixForwards(rules: seq<Rule>, localZones: set<Name>, q: Name, i: nat, rx: Matcher)
    requires i < |q| && SuffixPass(rules, q[i..])
    ensures DnsdistForwards(ListsOf(rules, localZones), q, rx)
  {
    SuffixPassMatches(rules, localZones, q);
  }

  lemma SubdomainRewriteOutcome(rules: seq<Rule>, localZones: set<Name>, external: set<Name>, q: Name, i: nat,
      rx: Matcher)
    requires !SuffixMatch(localZones, q) && BestMatch(rules, q, 0) == Some(i) && 0 < i
    requires Has(rules, Match(KRewrite, q, i))
    ensures Deployment(rules, localZones, external, q, rx)
            == if ExternalIntrudes(rules, external, q, i) then Blocked else Rewritten
  {
    assert SuffixPass(rules, q[i..]);
    SuffixForwards(rules, localZones, q, i, rx);
    SubdomainRewriteAnswer(rules, external, q, i);
  }

  lemma KeptAllowOutcome(rules: seq<Rule>, localZones: set<Name>, external: set<Name>, q: Name, i: nat, rx: Matcher)
    requires !SuffixMatch(localZones, q) && BestMatch(rules, q, 0) == Some(i) && 0 < i
    requires !Has(rules, Match(KRewrite, q, i)) && Has(rules, Match(KAllow, q, i))
    requires !Outranked(Merged(rules, q[i..]))
    ensures Deployment(rules, localZones, external, q, rx) == Resolves
  {
    var d := q[i..];
    assert SubdomainAllow(rules, d) && SuffixPass(rules, d);
    SuffixPassMatches(rules, localZones, q);
    forall j: nat | j < i
      ensures q[j..] !in Remaining(rules, external)
    {
      assert q[j..][i - j..] == d;
    }
    AboveBestMatch(rules, external, q, i);
    assert ZoneOf(rules, external)(OwnerAt(q, i)) == [Passthru];
  }

  lemma SubdomainBlockOutcome(rules: seq<Rule>, localZones: set<Name>, external: set<Name>, q: Name, i: nat,
      rx: Matcher)
    requires !SuffixMatch(localZones, q) && BestMatch(rules, q, 0) == Some(i) && 0 < i
    requires !Has(rules, Match(KRewrite, q, i)) && Has(rules, Match(KBlock, q, i))
    requires Has(rules, Match(KAllow, q, i)) ==> Outranked(Merged(rules, q[i..]))
    ensures Deployment(rules, localZones, external, q, rx) == Blocked
  {
    AboveBestMatch(rules, external, q, i);
    assert ZoneOf(rules, external)(OwnerAt(q, i)) == [Nxdomain];
  }

  // ----- when a name is let through -----

  /** The most specific suffix of q, from i on, whose surviving rules reach q. */
  function FirstClaim(rules: seq<Rule>, q: Name, i: nat): (r: Option<nat>)
    ensures r.Some? ==> i <= r.value < |q| && ClaimsAt(rules, q, r.value)
    ensures forall j: nat :: i <= j < |q| && (r.Some? ==> j < r.value) ==> !ClaimsAt(rules, q, j)
    decreases |q| - i
  {
    if i >= |q| then None
    else if ClaimsAt(rules, q, i) then Some(i)
    else FirstClaim(rules, q, i + 1)
  }

  /** An allow is what reaches q from its i-th suffix: no rewrite does. */
  predicate AllowAt(rules: seq<Rule>, q: Name, i: nat)
    requires i < |q|
  {
    var n := Compiled(rules, q[i..]);
    && !(n.rewrite.Some? && (i > 0 ==> n.rewrite.value.subdomains))
    && n.allow.Some? && ((i == 0 && n.allow.value.exact) || n.allow.value.subdomains)
  }

  /**
   The first surviving rules that reach q are an allow; or none reach it, no external
   entry stands at or above it, and no block pattern catches it that an allow pattern does not.
   */
  predicate LetsThrough(rules: seq<Rule>, external: set<Name>, q: Name, rx: Matcher) {
    match FirstClaim(rules, q, 0)
    case Some(i) => AllowAt(rules, q, i)
    case None =>
      && (forall j: nat :: j < |q| ==> q[j..] !in Remaining(rules, external))
      && (RegexHit(rules, true, q, rx) || !RegexHit(rules, false, q, rx))
  }

  lemma AllowAnswers(rules: seq<Rule>, localZones: set<Name>, external: set<Name>, q: Name, i: nat, rx: Matcher)
    requires !SuffixMatch(localZones, q) && FirstClaim(rules, q, 0) == Some(i) && AllowAt(rules, q, i)
    ensures Deployment(rules, localZones, external, q, rx) == Resolves
  {
    assert q[0..] == q;
    forall j: nat | j < i
      ensures q[j..] !in Remaining(rules, external)
    {
      assert q[j..][i - j..] == q[i..];
    }
    BelowFirstClaim(rules, external, q, i);
    assert ZoneOf(rules, external)(OwnerAt(q, i)) == [Passthru];
    SuffixPassMatches(rules, localZones, q);
    assert SuffixPass(rules, q[i..]) || ExactPass(rules, q);
  }

  lemma OtherClaimAnswers(rules: seq<Rule>, localZones: set<Name>, external: set<Name>, q: Name, i: nat, rx: Matcher)
    requires !SuffixMatch(localZones, q) && FirstClaim(rules, q, 0) == Some(i) && !AllowAt(rules, q, i)
    ensures Deployment(rules, localZones, external, q, rx) != Resolves
  {
    assert q[0..] == q;
    RewriteHasAddress(rules, q[i..]);
    BelowFirstClaim(rules, external, q, i);
    assert ZoneOf(rules, external)(OwnerAt(q, i)) == CustomRecords(Compiled(rules, q[i..]), i > 0);
    assert Passthru !in ZoneOf(rules, external)(OwnerAt(q, i)) && ZoneOf(rules, external)(OwnerAt(q, i)) != [];
  }

  lemma PassMeansClaim(rules: seq<Rule>, q: Name, i: nat)
    requires i < |q|
    ensures SuffixPass(rules, q[i..]) ==> ClaimsAt(rules, q, i)
    ensures ExactPass(rules, q) ==> ClaimsAt(rules, q, 0)
  {
    assert q[0..] == q;
  }

  /** No surviving rule reaches q: the lists forward it unless a block pattern catches it. */
  lemma UnclaimedAnswers(rules: seq<Rule>, localZones: set<Name>, external: set<Name>, q: Name, rx: Matcher)
    requires !SuffixMatch(localZones, q) && FirstClaim(rules, q, 0).None?
    ensures Deployment(rules, localZones, external, q, rx) == Resolves <==> LetsThrough(rules, external, q, rx)
  {
    forall i: nat | i < |q|
      ensures !SuffixPass(rules, q[i..])
    {
      PassMeansClaim(rules, q, i);
    }
    PassMeansClaim(rules, q, 0);
    PatternsDecide(rules, localZones, q, rx);
    UnclaimedZone(rules, external, q);
  }

  lemma UnclaimedZone(rules: seq<Rule>, external: set<Name>, q: Name)
    requires forall j: nat :: j < |q| ==> !ClaimsAt(rules, q, j)
    ensures RpzAnswer(ZoneOf(rules, external), q)
            == if exists j: nat :: j < |q| && q[j..] in Remaining(rules, external) then [Nxdomain] else []
  {
    var zone := ZoneOf(rules, external);
    BelowFirstClaim(rules, external, q, |q|);
    var i := FirstOwner(zone, q, 0);
    if i.Some? { UnclaimedOwner(rules, external, q, i.value); }
  }

  /** Which names outside the local zones the deployed policy leaves to normal resolution. */
  lemma ResolvesIff(rules: seq<Rule>, localZones: set<Name>, external: set<Name>, q: Name, rx: Matcher)
    requires !SuffixMatch(localZones, q)
    ensures Deployment(rules, localZones, external, q, rx) == Resolves <==> LetsThrough(rules, external, q, rx)
  {
    match FirstClaim(rules, q, 0)
    case None => UnclaimedAnswers(rules, localZones, external, q, rx);
    case Some(i) =>
      if AllowAt(rules, q, i) { AllowAnswers(rules, localZones, external, q, i, rx); }
      else { OtherClaimAnswers(rules, localZones, external, q, i, rx); }
  }

  /** A lookup only reads the owners it tries. */
  lemma SameZoneSameAnswer(z: Zone, y: Zone, q: Name)
    requires forall j: nat :: j < |q| ==> z(OwnerAt(q, j)) == y(OwnerAt(q, j))
    ensures FirstOwner(z, q, 0) == FirstOwner(y, q, 0)
    ensures RpzAnswer(z, q) == RpzAnswer(y, q)
  {
    var i, j := FirstOwner(z, q, 0), FirstOwner(y, q, 0);
    if i.Some? { assert y(OwnerAt(q, i.value)) == z(OwnerAt(q, i.value)); }
    if j.Some? { assert z(OwnerAt(q, j.value)) == y(OwnerAt(q, j.value)); }
  }

  // ----- the theorems -----

  /** Among the matching rules alone, a block outranks every allow. */
  predicate MatchingBlockWins(rules: seq<Rule>, q: Name, i: nat)
    requires i < |q|
  {
    Has(rules, Match(KBlock, q, i)) && TopPriority(rules, Match(KBlock, q, i)) > TopPriority(rules, Match(KAllow, q, i))
  }

  /**
   When the deployed policy answers q as the evaluation says. Everything hangs on
   the domain d of the most specific match, if q lies strictly below it:
   - d rewrites its subdomains: no external entry stands between d and q;
   - d allows its subdomains and keeps its allow: no matching block outranks it;
   - d's allow is dropped and d blocks its subdomains: a matching block outranks the allow;
   - d's allow is dropped and d blocks no subdomains: the rules left let q through.
   */
  predicate Agrees(rules: seq<Rule>, localZones: set<Name>, external: set<Name>, q: Name, rx: Matcher) {
    SuffixMatch(localZones, q) ||
    match BestMatch(rules, q, 0)
    case None => true
    case Some(i) =>
      if i == 0 then true
      else if Has(rules, Match(KRewrite, q, i)) then !ExternalIntrudes(rules, external, q, i)
      else if !Has(rules, Match(KAllow, q, i)) then true
      else if !Outranked(Merged(rules, q[i..])) then !MatchingBlockWins(rules, q, i)
      else if Has(rules, Match(KBlock, q, i)) then MatchingBlockWins(rules, q, i)
      else LetsThrough(rules, external, q, rx)
  }

  /** Compiler correctness, exactly: deployment and evaluation agree on q iff Agrees. */
  lemma DeploymentAgreesIff(rules: seq<Rule>, localZones: set<Name>, external: set<Name>, q: Name, rx: Matcher)
    ensures Deployment(rules, localZones, external, q, rx) == Evaluation(rules, localZones, external, q, rx)
            <==> Agrees(rules, localZones, external, q, rx)
  {
    if SuffixMatch(localZones, q) {
      SuffixPassMatches(rules, localZones, q);
    } else {
      match BestMatch(rules, q, 0)
      case None => NoMatchAgrees(rules, localZones, external, q, rx);
      case Some(i) =>
        if i == 0 {
          ExactMatchAgrees(rules, localZones, external, q, rx);
        } else if Has(rules, Match(KRewrite, q, i)) {
          SubdomainRewriteOutcome(rules, localZones, external, q, i, rx);
        } else if Has(rules, Match(KAllow, q, i)) && !Outranked(Merged(rules, q[i..])) {
          KeptAllowOutcome(rules, localZones, external, q, i, rx);
        } else if Has(rules, Match(KBlock, q, i)) {
          SubdomainBlockOutcome(rules, localZones, external, q, i, rx);
        } else {
          ResolvesIff(rules, localZones, external, q, rx);
        }
    }
  }

  /** No block rule outranks an allow rule with the same domain. */
  predicate NoBlockOutranksAllow(rules: seq<Rule>) {
    forall a, b | a in rules && b in rules && a.DomainRule? && b.DomainRule? ::
      a.action.Allow? && b.action.Block? && a.domain == b.domain ==> b.priority <= a.priority
  }

  /** No external entry lies strictly below a rewrite with subdomains. */
  predicate NoExternalBelowRewrite(rules: seq<Rule>, external: set<Name>) {
    forall r, x | r in rules && x in external && r.DomainRule? ::
      r.action.Rewrite? && r.subdomains ==> !Below(x, r.domain)
  }

  lemma PrioritiesRespected(rules: seq<Rule>, q: Name, i: nat)
    requires i < |q| && NoBlockOutranksAllow(rules) && Has(rules, Match(KAllow, q, i))
    ensures !Outranked(Merged(rules, q[i..])) && !MatchingBlockWins(rules, q, i)
  {
    forall scope
      ensures TopPriority(rules, Selector(KBlock, q[i..], scope)) <= TopPriority(rules, Selector(KAllow, q[i..], scope))
              || !Has(rules, Selector(KBlock, q[i..], scope)) || !Has(rules, Selector(KAllow, q[i..], scope))
    {
      TopPriorityBound(rules, Selector(KBlock, q[i..], scope));
      TopPriorityBound(rules, Selector(KAllow, q[i..], scope));
    }
  }

  /** Under the two side conditions the deployment answers every name as evaluated. */
  lemma CompilerCorrect(rules: seq<Rule>, localZones: set<Name>, external: set<Name>, q: Name, rx: Matcher)
    requires NoBlockOutranksAllow(rules) && NoExternalBelowRewrite(rules, external)
    ensures Deployment(rules, localZones, external, q, rx) == Evaluation(rules, localZones, external, q, rx)
  {
    DeploymentAgreesIff(rules, localZones, external, q, rx);
    var m := BestMatch(rules, q, 0);
    if m.Some? && m.value > 0 && !SuffixMatch(localZones, q) {
      var i := m.value;
      if Has(rules, Match(KRewrite, q, i)) {
        forall j: nat | j < i
          ensures q[j..] !in external
        {
          SuffixOfSuffix(q, j, i);
        }
      } else if Has(rules, Match(KAllow, q, i)) {
        PrioritiesRespected(rules, q, i);
      }
    }
  }

  /** A name that is itself a rule's domain needs neither condition. */
  lemma CompilerCorrectAtRuleDomains(rules: seq<Rule>, localZones: set<Name>, external: set<Name>, q: Name, rx: Matcher)
    requires exists r :: r in rules && r.DomainRule? && r.domain == q
    ensures Deployment(rules, localZones, external, q, rx) == Evaluation(rules, localZones, external, q, rx)
  {
    var r :| r in rules && r.DomainRule? && r.domain == q;
    assert q[0..] == q;
    assert Selects(Match(KindOf(r.action), q, 0), r);
    DeploymentAgreesIff(rules, localZones, external, q, rx);
  }

  // ----- each side condition is needed -----

  /** A subdomain allow and an important block of the same domain alone. */
  function OutrankedAllow(d: Name): seq<Rule> {
    [DomainRule(Allow, d, true, 0), DomainRule(Block, d, false, 100)]
  }

  lemma OutrankedAllowHas(d: Name, s: Selector)
    ensures Has(OutrankedAllow(d), s)
            <==> Selects(s, DomainRule(Allow, d, true, 0)) || Selects(s, DomainRule(Block, d, false, 100))
  {
    var rules := OutrankedAllow(d);
    assert rules[0] in rules && rules[1] in rules;
  }

  lemma OutrankedAllowCompiles(d: Name, e: Name)
    ensures Compiled(OutrankedAllow(d), e).allow.None?
    ensures e == d ==> Outranked(Merged(OutrankedAllow(d), d))
    ensures e == d ==> Compiled(OutrankedAllow(d), e) == NameRules(None, None, Some(DomainEntry(true, false, 100)))
  {
    var rules := OutrankedAllow(d);
    var a, b := rules[0], rules[1];
    forall s { OutrankedAllowHas(d, s); }
    TopPriorityBound(rules, Selector(KAllow, d, Every));
    TopPriorityBound(rules, Selector(KBlock, d, Every));
    assert Selects(Selector(KAllow, d, Every), a) && Selects(Selector(KBlock, d, Every), b);
    assert Selects(Selector(KBlock, d, ExactOnly), b);
  }

  lemma OutrankedAllowMatches(d: Name, q: Name)
    requires Below(q, d)
    ensures BestMatch(OutrankedAllow(d), q, 0) == Some(|q| - |d|)
    ensures VerdictAt(OutrankedAllow(d), q, |q| - |d|) == VAllow
  {
    var rules, i := OutrankedAllow(d), |q| - |d|;
    assert q[i..] == d;
    forall k: Kind, j: nat | j <= i
      ensures Has(rules, Match(k, q, j)) <==> k == KAllow && j == i
    {
      OutrankedAllowHas(d, Match(k, q, j));
    }
    var m := BestMatch(rules, q, 0);
    assert MatchedAt(rules, q, i);
    assert m.Some? && m.value <= i && MatchedAt(rules, q, m.value);
  }

  lemma OutrankedAllowAnswer(d: Name, q: Name)
    requires Below(q, d)
    ensures RpzAnswer(ZoneOf(OutrankedAllow(d), {d}), q) == [Nxdomain]
  {
    var rules, i := OutrankedAllow(d), |q| - |d|;
    OutrankedAllowMatches(d, q);
    assert q[i..] == d;
    assert d in Remaining(rules, {d}) by {
      forall e { OutrankedAllowCompiles(d, e); }
    }
    OutrankedAllowCompiles(d, d);
    assert ZoneOf(rules, {d})(OwnerAt(q, i)) == [Nxdomain];
    AboveBestMatch(rules, {d}, q, i);
  }

  lemma BlockedWhenZoneBlocks(rules: seq<Rule>, external: set<Name>, q: Name, rx: Matcher)
    requires RpzAnswer(ZoneOf(rules, external), q) == [Nxdomain]
    ensures Deployment(rules, {}, external, q, rx) == Blocked
  {
  }

  lemma ResolvesWhenAllowed(rules: seq<Rule>, external: set<Name>, q: Name, i: nat, rx: Matcher)
    requires i < |q| && BestMatch(rules, q, 0) == Some(i) && VerdictAt(rules, q, i) == VAllow
    ensures Evaluation(rules, {}, external, q, rx) == Resolves
  {
  }

  /** An important exact block takes its domain's subdomain allow with it: every name below is lost. */
  lemma OutrankedAllowCounterexample(d: Name, q: Name, rx: Matcher)
    requires Below(q, d)
    ensures NoExternalBelowRewrite(OutrankedAllow(d), {d})
    ensures Deployment(OutrankedAllow(d), {}, {d}, q, rx) == Blocked
    ensures Evaluation(OutrankedAllow(d), {}, {d}, q, rx) == Resolves
  {
    OutrankedAllowMatches(d, q);
    OutrankedAllowAnswer(d, q);
    BlockedWhenZoneBlocks(OutrankedAllow(d), {d}, q, rx);
    ResolvesWhenAllowed(OutrankedAllow(d), {d}, q, |q| - |d|, rx);
  }

  lemma LoneRuleHas(r: Rule, s: Selector)
    ensures Has([r], s) <==> Selects(s, r)
  {
    assert [r][0] == r;
  }

  lemma LoneRewriteMatches(d: Name, q: Name, r: Rule)
    requires Below(q, d) && r.DomainRule? && r.action.Rewrite? && r.domain == d && r.subdomains
    ensures BestMatch([r], q, 0) == Some(|q| - |d|) && Has([r], Match(KRewrite, q, |q| - |d|))
  {
    var i := |q| - |d|;
    assert q[i..] == d;
    forall k: Kind, j: nat | j <= i
      ensures Has([r], Match(k, q, j)) <==> k == KRewrite && j == i
    {
      LoneRuleHas(r, Match(k, q, j));
    }
    var m := BestMatch([r], q, 0);
    assert MatchedAt([r], q, i);
    assert m.Some? && m.value <= i && MatchedAt([r], q, m.value);
  }

  lemma LoneRewriteSubtractsNothing(q: Name, r: Rule)
    requires r.DomainRule? && r.action.Rewrite?
    ensures NoBlockOutranksAllow([r]) && q in Remaining([r], {q})
  {
    forall k: Kind, e
      ensures k != KRewrite ==> !Has([r], Selector(k, e, Every))
    {
      LoneRuleHas(r, Selector(k, e, Every));
    }
  }

  /** An external entry at any name below a subdomain rewrite answers instead of the rewrite. */
  lemma ExternalBelowRewriteCounterexample(d: Name, q: Name, address: Address, rx: Matcher)
    requires Below(q, d)
    ensures var rules := [DomainRule(Rewrite(address), d, true, 0)];
            && NoBlockOutranksAllow(rules)
            && Deployment(rules, {}, {q}, q, rx) == Blocked
            && Evaluation(rules, {}, {q}, q, rx) == Rewritten
  {
    var r := DomainRule(Rewrite(address), d, true, 0);
    LoneRewriteMatches(d, q, r);
    LoneRewriteSubtractsNothing(q, r);
    assert q[0..] == q;
    SubdomainRewriteOutcome([r], {}, {q}, q, |q| - |d|, rx);
  }

  // ----- allows and blocklists -----

  /**
   At or below a surviving subdomain allow, no external entry is ever the one that answers:
   the answer is the custom records of the first surviving rules that reach the name.
   */
  lemma AllowsSurviveBlocklists(rules: seq<Rule>, d: Name, q: Name, external: set<Name>)
    requires SubdomainAllow(rules, d) && AtOrBelow(q, d)
    ensures var i := FirstClaim(rules, q, 0);
            i.Some? && RpzAnswer(ZoneOf(rules, external), q)
                == CustomRecords(Compiled(rules, q[i.value..]), i.value > 0)
  {
    var k := |q| - |d|;
    assert q[k..] == d;
    assert ClaimsAt(rules, q, k);
    var i := FirstClaim(rules, q, 0).value;
    forall j: nat | j < i
      ensures q[j..] !in Remaining(rules, external)
    {
      assert q[j..][k - j..] == d;
    }
    RewriteHasAddress(rules, q[i..]);
    BelowFirstClaim(rules, external, q, i);
    assert q[0..] == q;
    assert ZoneOf(rules, external)(OwnerAt(q, i)) == CustomRecords(Compiled(rules, q[i..]), i > 0);
  }

  /** The verdict does not depend on the order in which the rows are read. */
  lemma EvaluationIgnoresOrder(rules: seq<Rule>, other: seq<Rule>, localZones: set<Name>, zone: Zone, q: Name,
      rx: Matcher)
    requires forall r :: r in rules <==> r in other
    ensures Evaluate(rules, localZones, zone, q, rx) == Evaluate(other, localZones, zone, q, rx)
  {
    forall s: Selector
      ensures Has(rules, s) == Has(other, s) && TopPriority(rules, s) == TopPriority(other, s)
    {
      TopPriorityBound(rules, s);
      TopPriorityBound(other, s);
      if !Has(rules, s) {
        TopPriorityOfNone(rules, s);
        TopPriorityOfNone(other, s);
      }
    }
    var m, n := BestMatch(rules, q, 0), BestMatch(other, q, 0);
    assert m.Some? ==> MatchedAt(other, q, m.value);
    assert n.Some? ==> MatchedAt(rules, q, n.value);
  }

  // ----- which addresses a rewrite answers with -----

  /** FirstAddress picks the first rewrite of its family, in row order. */
  lemma {:induction false} FirstAddressIsFirst(rules: seq<Rule>, d: Name, v4: bool)
    ensures var s := Selector(KRewrite, d, Every);
            match FirstAddress(rules, d, v4)
            case None => forall r :: r in rules && Selects(s, r) ==> r.action.address.V4? != v4
            case Some(a) =>
              exists i: nat :: i < |rules| && Selects(s, rules[i]) && rules[i].action.address == a && a.V4? == v4
                && forall j: nat :: j < i && Selects(s, rules[j]) ==> rules[j].action.address.V4? != v4
  {
    if rules != [] {
      var init, last := rules[..|rules| - 1], rules[|rules| - 1];
      FirstAddressIsFirst(init, d, v4);
      assert rules == init + [last];
      var s := Selector(KRewrite, d, Every);
      if FirstAddress(init, d, v4).Some? {
        var i: nat :| i < |init| && Selects(s, init[i]) && init[i].action.address == FirstAddress(init, d, v4).value
          && forall j: nat :: j < i && Selects(s, init[j]) ==> init[j].action.address.V4? != v4;
        assert rules[i] == init[i];
        assert forall j: nat :: j < i ==> rules[j] == init[j];
      } else {
        assert rules[|init|] == last;
        assert forall j: nat :: j < |init| ==> rules[j] == init[j] && init[j] in init;
      }
    }
  }

  /** A rewritten name is answered with its best match's first A and first AAAA address. */
  lemma RewriteAnswer(rules: seq<Rule>, localZones: set<Name>, external: set<Name>, q: Name, rx: Matcher)
    requires Deployment(rules, localZones, external, q, rx) == Rewritten
    requires Evaluation(rules, localZones, external, q, rx) == Rewritten
    ensures var m := BestMatch(rules, q, 0);
            && m.Some?
            && RpzAnswer(ZoneOf(rules, external), q)
               == (match FirstAddress(rules, q[m.value..], true) case Some(a) => [A(a)] case None => [])
                  + (match FirstAddress(rules, q[m.value..], false) case Some(a) => [AAAA(a)] case None => [])
  {
    var i := BestMatch(rules, q, 0).value;
    assert q[0..] == q;
    RewriteHasAddress(rules, q[i..]);
    AboveBestMatch(rules, external, q, i);
    assert ZoneOf(rules, external)(OwnerAt(q, i)) == CustomRecords(Compiled(rules, q[i..]), i > 0);
  }

  /** Row j holds the first rewrite of one family stored for d. */
  predicate FirstRewriteRow(rules: seq<Rule>, d: Name, v4: bool, j: nat) {
    && j < |rules| && Selects(Selector(KRewrite, d, Every), rules[j]) && rules[j].action.address.V4? == v4
    && forall k: nat :: k < j && Selects(Selector(KRewrite, d, Every), rules[k]) ==> rules[k].action.address.V4? != v4
  }

  lemma FirstAddressAtRow(rules: seq<Rule>, d: Name, v4: bool, j: nat)
    requires FirstRewriteRow(rules, d, v4, j)
    ensures FirstAddress(rules, d, v4) == Some(rules[j].action.address)
  {
    FirstAddressIsFirst(rules, d, v4);
    assert rules[j] in rules;
  }

  function AddressRecord(a: Address): Rdata { if a.V4? then A(a) else AAAA(a) }

  /**
   Below the rewritten domain, the answer's address of a family is one that some rule matching
   the name stores exactly when the family's first row has subdomains, or a later row with
   subdomains stores the same address.
   */
  lemma AnswerFromMatchingRuleIff(
      rules: seq<Rule>, localZones: set<Name>, external: set<Name>, q: Name, rx: Matcher, v4: bool, j: nat)
    requires Deployment(rules, localZones, external, q, rx) == Rewritten
    requires Evaluation(rules, localZones, external, q, rx) == Rewritten
    requires BestMatch(rules, q, 0).Some? && BestMatch(rules, q, 0).value > 0
    requires FirstRewriteRow(rules, q[BestMatch(rules, q, 0).value..], v4, j)
    ensures var i, a := BestMatch(rules, q, 0).value, rules[j].action.address;
            && AddressRecord(a) in RpzAnswer(ZoneOf(rules, external), q)
            && ((exists r :: r in rules && Selects(Match(KRewrite, q, i), r) && r.action.address == a)
                <==> rules[j].subdomains || SubdomainRowAfter(rules, q[i..], a, j))
  {
    var i := BestMatch(rules, q, 0).value;
    RewriteAnswer(rules, localZones, external, q, rx);
    FirstAddressAtRow(rules, q[i..], v4, j);
    MatchingRowIff(rules, q, i, v4, j);
  }

  /** A row after j rewrites d and its subdomains to a. */
  predicate SubdomainRowAfter(rules: seq<Rule>, d: Name, a: Address, j: nat) {
    exists k: nat :: j < k < |rules| && Selects(Selector(KRewrite, d, WithSubdomains), rules[k])
        && rules[k].action.address == a
  }

  lemma MatchingRowIff(rules: seq<Rule>, q: Name, i: nat, v4: bool, j: nat)
    requires 0 < i < |q| && FirstRewriteRow(rules, q[i..], v4, j)
    ensures var a := rules[j].action.address;
            (exists r :: r in rules && Selects(Match(KRewrite, q, i), r) && r.action.address == a)
            <==> rules[j].subdomains || SubdomainRowAfter(rules, q[i..], a, j)
  {
    var d, a := q[i..], rules[j].action.address;
    if r :| r in rules && Selects(Match(KRewrite, q, i), r) && r.action.address == a {
      var k: nat :| k < |rules| && rules[k] == r;
      assert Selects(Selector(KRewrite, d, Every), rules[k]);
      assert k >= j;
    }
    if rules[j].subdomains { assert Selects(Match(KRewrite, q, i), rules[j]) && rules[j] in rules; }
    if SubdomainRowAfter(rules, d, a, j) {
      var k: nat :| j < k < |rules| && Selects(Selector(KRewrite, d, WithSubdomains), rules[k])
          && rules[k].action.address == a;
      assert rules[k] in rules;
    }
  }

  /** An address stored for one name only, and another of its family for the name and its subdomains. */
  function ExactThenSubdomains(d: Name, a: Address, b: Address): seq<Rule> {
    [DomainRule(Rewrite(a), d, false, 0), DomainRule(Rewrite(b), d, true, 0)]
  }

  lemma ExactThenSubdomainsHas(d: Name, a: Address, b: Address, s: Selector)
    ensures var rules := ExactThenSubdomains(d, a, b);
            Has(rules, s) <==> Selects(s, rules[0]) || Selects(s, rules[1])
  {
    var rules := ExactThenSubdomains(d, a, b);
    assert rules[0] in rules && rules[1] in rules;
  }

  lemma ExactThenSubdomainsMatches(d: Name, q: Name, a: Address, b: Address)
    requires Below(q, d)
    ensures var rules := ExactThenSubdomains(d, a, b);
            BestMatch(rules, q, 0) == Some(|q| - |d|) && Has(rules, Match(KRewrite, q, |q| - |d|))
  {
    var rules, i := ExactThenSubdomains(d, a, b), |q| - |d|;
    assert q[i..] == d;
    forall k: Kind, j: nat | j <= i
      ensures Has(rules, Match(k, q, j)) <==> k == KRewrite && j == i
    {
      ExactThenSubdomainsHas(d, a, b, Match(k, q, j));
    }
    var m := BestMatch(rules, q, 0);
    assert MatchedAt(rules, q, i);
    assert m.Some? && m.value <= i && MatchedAt(rules, q, m.value);
  }

  /** Every name below is answered with the exact rule's address, which no rule matching it stores. */
  lemma ExactAddressAnswersBelow(d: Name, q: Name, a: Address, b: Address, rx: Matcher)
    requires Below(q, d) && a != b && a.V4? == b.V4?
    ensures var rules := ExactThenSubdomains(d, a, b);
            && Deployment(rules, {}, {}, q, rx) == Rewritten == Evaluation(rules, {}, {}, q, rx)
            && AddressRecord(a) in RpzAnswer(ZoneOf(rules, {}), q)
            && !exists r :: r in rules && Selects(Match(KRewrite, q, |q| - |d|), r) && r.action.address == a
  {
    var rules, i := ExactThenSubdomains(d, a, b), |q| - |d|;
    assert q[i..] == d;
    ExactThenSubdomainsMatches(d, q, a, b);
    SubdomainRewriteOutcome(rules, {}, {}, q, i, rx);
    assert FirstRewriteRow(rules, d, a.V4?, 0);
    AnswerFromMatchingRuleIff(rules, {}, {}, q, rx, a.V4?, 0);
    assert !SubdomainRowAfter(rules, d, a, 0);
  }
}
