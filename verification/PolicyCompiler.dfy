/**
 The compiler as the program runs it: dictionaries filled and pruned in place,
 lists and sets grown in loops. Every method is proved against the per-name
 specification in CustomRules.
 */
module PolicyCompiler {
  import opened Wrappers
  import opened DomainNames
  import opened CustomRules
  import opened CompilerCorrectness

  lemma AppendedRule(rules: seq<Rule>, r: Rule, s: Selector)
    ensures Has(rules + [r], s) <==> Has(rules, s) || Selects(s, r)
    ensures TopPriority(rules + [r], s)
            == if Selects(s, r) && r.priority > TopPriority(rules, s) then r.priority else TopPriority(rules, s)
  {
    assert (rules + [r])[..|rules|] == rules;
    assert (rules + [r])[|rules|] == r;
    assert forall x :: x in rules + [r] <==> x in rules || x == r;
  }

  lemma AppendedEntry(rules: seq<Rule>, r: Rule, k: Kind, d: Name)
    ensures Selects(Selector(k, d, Every), r) ==>
              var e := EntryOf(rules, k, d).GetOr(DomainEntry(false, false, 0));
              EntryOf(rules + [r], k, d)
              == Some(DomainEntry(e.exact || !r.subdomains, e.subdomains || r.subdomains,
                                  if r.priority > e.priority then r.priority else e.priority))
    ensures !Selects(Selector(k, d, Every), r) ==> EntryOf(rules + [r], k, d) == EntryOf(rules, k, d)
  {
    AppendedRule(rules, r, Selector(k, d, Every));
    AppendedRule(rules, r, Selector(k, d, WithSubdomains));
    AppendedRule(rules, r, Selector(k, d, ExactOnly));
    if !Has(rules, Selector(k, d, Every)) {
      TopPriorityOfNone(rules, Selector(k, d, Every));
      assert !Has(rules, Selector(k, d, WithSubdomains)) && !Has(rules, Selector(k, d, ExactOnly));
    }
  }

  lemma AppendedRewrite(rules: seq<Rule>, r: Rule, d: Name)
    ensures Selects(Selector(KRewrite, d, Every), r) ==>
              var e := RewriteEntryOf(rules, d).GetOr(RewriteEntry(None, None, false));
              RewriteEntryOf(rules + [r], d)
              == Some(RewriteEntry(if e.a.None? && r.action.address.V4? then Some(r.action.address) else e.a,
                                   if e.aaaa.None? && r.action.address.V6? then Some(r.action.address) else e.aaaa,
                                   e.subdomains || r.subdomains))
    ensures !Selects(Selector(KRewrite, d, Every), r) ==> RewriteEntryOf(rules + [r], d) == RewriteEntryOf(rules, d)
  {
    AppendedRule(rules, r, Selector(KRewrite, d, Every));
    AppendedRule(rules, r, Selector(KRewrite, d, WithSubdomains));
    assert (rules + [r])[..|rules|] == rules;
    if !Has(rules, Selector(KRewrite, d, Every)) {
      NoRewriteNoAddress(rules, d);
      assert !Has(rules, Selector(KRewrite, d, WithSubdomains));
    }
  }

  lemma {:induction false} NoRewriteNoAddress(rules: seq<Rule>, d: Name)
    requires !Has(rules, Selector(KRewrite, d, Every))
    ensures FirstAddress(rules, d, true).None? && FirstAddress(rules, d, false).None?
  {
    if rules != [] {
      assert rules[|rules| - 1] in rules;
      NoRewriteNoAddress(rules[..|rules| - 1], d);
    }
  }

  class ActiveRuleSet {
    var rewrites: map<Name, RewriteEntry>
    var allows: map<Name, DomainEntry>
    var blocks: map<Name, DomainEntry>
    var regexAllow: seq<string>
    var regexBlock: seq<string>

    constructor ()
      ensures forall d: Name :: At(d) == NameRules(None, None, None)
      ensures regexAllow == [] && regexBlock == []
    {
      rewrites, allows, blocks := map[], map[], map[];
      regexAllow, regexBlock := [], [];
    }

    function At(d: Name): NameRules
      reads this
    {
      NameRules(Lookup(rewrites, d), Lookup(allows, d), Lookup(blocks, d))
    }

    /** This object holds exactly what the rules compile to. */
    ghost predicate CompiledFrom(rules: seq<Rule>)
      reads this
    {
      && (forall d: Name :: At(d) == Compiled(rules, d))
      && regexAllow == Patterns(rules, true)
      && regexBlock == Patterns(rules, false)
    }

    /** The dictionaries hold the rules read so far, conflicts still unresolved. */
    ghost predicate MergedFrom(rules: seq<Rule>)
      reads this
    {
      && (forall d: Name :: At(d) == Merged(rules, d))
      && regexAllow == Patterns(rules, true)
      && regexBlock == Patterns(rules, false)
    }

    /** Merges one selected row into the dictionaries. */
    method MergeRow(r: Rule, ghost seen: seq<Rule>)
      requires MergedFrom(seen)
      modifies this
      ensures MergedFrom(seen + [r])
    {
      match r {
      case DomainRule(Rewrite(address), domain, subdomains, _) =>
        var entry := Lookup(rewrites, domain).GetOr(RewriteEntry(None, None, false));
        if address.V4? {
          if entry.a.None? { entry := entry.(a := Some(address)); }
        } else {
          if entry.aaaa.None? { entry := entry.(aaaa := Some(address)); }
        }
        if subdomains { entry := entry.(subdomains := true); }
        rewrites := rewrites[domain := entry];
      case DomainRule(Allow, domain, subdomains, priority) =>
        allows := allows[domain := Flagged(Lookup(allows, domain), subdomains, priority)];
      case DomainRule(Block, domain, subdomains, priority) =>
        blocks := blocks[domain := Flagged(Lookup(blocks, domain), subdomains, priority)];
      case RegexRule(passes, pattern, _) =>
        if passes { regexAllow := regexAllow + [pattern]; } else { regexBlock := regexBlock + [pattern]; }
      case Comment(_) =>
      }
      assert (seen + [r])[..|seen|] == seen;
      forall d: Name
        ensures At(d) == Merged(seen + [r], d)
      {
        assert old(At(d)) == Merged(seen, d);
        AppendedRewrite(seen, r, d);
        AppendedEntry(seen, r, KAllow, d);
        AppendedEntry(seen, r, KBlock, d);
      }
    }

    static function Flagged(e: Option<DomainEntry>, subdomains: bool, priority: nat): DomainEntry {
      var entry := e.GetOr(DomainEntry(false, false, 0));
      DomainEntry(entry.exact || !subdomains, entry.subdomains || subdomains,
                  if priority > entry.priority then priority else entry.priority)
    }

    /** One name of the first pass: shrinks or drops its block, drops an outranked allow. */
    method ResolveBlock(name: Name)
      requires name in blocks
      modifies this
      ensures At(name) == BlockStep(old(At(name)))
      ensures blocks.Keys <= old(blocks.Keys) && forall d: Name :: d != name ==> At(d) == old(At(d))
      ensures regexAllow == old(regexAllow) && regexBlock == old(regexBlock)
    {
      var blk := blocks[name];
      var rewrite, allow := Lookup(rewrites, name), Lookup(allows, name);
      if rewrite.Some? {
        blk := blk.(exact := false);
        if rewrite.value.subdomains { blk := blk.(subdomains := false); }
      }
      if allow.Some? {
        if blk.priority > allow.value.priority {
          allows := allows - {name};
        } else {
          blk := blk.(exact := false);
          if allow.value.subdomains { blk := blk.(subdomains := false); }
        }
      }
      if blk.exact || blk.subdomains {
        blocks := blocks[name := blk];
      } else {
        blocks := blocks - {name};
      }
    }

    /** One name of the second pass: a rewrite shrinks or drops the allow at its name. */
    method ResolveAllow(name: Name)
      requires name in allows
      modifies this
      ensures At(name) == AllowStep(old(At(name)))
      ensures allows.Keys <= old(allows.Keys) && forall d: Name :: d != name ==> At(d) == old(At(d))
      ensures regexAllow == old(regexAllow) && regexBlock == old(regexBlock)
    {
      var rewrite := Lookup(rewrites, name);
      if rewrite.Some? {
        if rewrite.value.subdomains {
          allows := allows - {name};
        } else {
          allows := allows[name := allows[name].(exact := false)];
          if !allows[name].subdomains { allows := allows - {name}; }
        }
      }
    }

    method ResolveBlocks()
      modifies this
      ensures forall d: Name :: At(d) == BlockStep(old(At(d)))
      ensures regexAllow == old(regexAllow) && regexBlock == old(regexBlock)
    {
      var pending := blocks.Keys;
      while pending != {}
        invariant regexAllow == old(regexAllow) && regexBlock == old(regexBlock)
        invariant pending <= blocks.Keys
        invariant forall d: Name :: At(d) == if d in pending then old(At(d)) else BlockStep(old(At(d)))
        decreases |pending|
      {
        var name :| name in pending;
        pending := pending - {name};
        label L:
        ResolveBlock(name);
        assert forall d: Name :: d in blocks <==> At(d).block.Some?;
        assert forall d: Name :: d in pending ==> At(d) == old@L(At(d));
      }
    }

    method ResolveAllows()
      modifies this
      ensures forall d: Name :: At(d) == AllowStep(old(At(d)))
      ensures regexAllow == old(regexAllow) && regexBlock == old(regexBlock)
    {
      var pending := allows.Keys;
      while pending != {}
        invariant regexAllow == old(regexAllow) && regexBlock == old(regexBlock)
        invariant pending <= allows.Keys
        invariant forall d: Name :: At(d) == if d in pending then old(At(d)) else AllowStep(old(At(d)))
        decreases |pending|
      {
        var name :| name in pending;
        pending := pending - {name};
        label L:
        ResolveAllow(name);
        assert forall d: Name :: d in allows <==> At(d).allow.Some?;
        assert forall d: Name :: d in pending ==> At(d) == old@L(At(d));
      }
    }

    /**
     Rewrite > allow > block at one owner, except that a block outranking the allow
     removes the allow as a whole. Works through the block names, then the allow names.
     */
    method ResolveConflicts()
      modifies this
      ensures forall d: Name :: At(d) == Resolved(old(At(d)))
      ensures regexAllow == old(regexAllow) && regexBlock == old(regexBlock)
    {
      ResolveBlocks();
      label Blocks:
      ResolveAllows();
      forall d: Name
        ensures At(d) == Resolved(old(At(d)))
      {
        assert At(d) == AllowStep(old@Blocks(At(d)));
        StepsResolve(old(At(d)));
      }
    }

    static lemma StepsResolve(n: NameRules)
      ensures AllowStep(BlockStep(n)) == Resolved(n)
    {
    }

    static ghost function BlockStep(n: NameRules): NameRules {
      NameRules(n.rewrite, if Outranked(n) then None else n.allow, ResolvedBlock(n))
    }

    static ghost function AllowStep(n: NameRules): NameRules {
      if n.allow.None? || n.rewrite.None? then n
      else if n.rewrite.value.subdomains || !n.allow.value.subdomains then n.(allow := None)
      else n.(allow := Some(n.allow.value.(exact := false)))
    }

    /** The allow table against the rules it was compiled from. */
    lemma AllowsKnown(rules: seq<Rule>)
      requires CompiledFrom(rules)
      ensures forall d: Name :: (d in allows) == Compiled(rules, d).allow.Some?
      ensures forall d: Name :: (d in allows && allows[d].subdomains) == SubdomainAllow(rules, d)
    {
      forall d: Name
        ensures (d in allows) == Compiled(rules, d).allow.Some?
        ensures (d in allows && allows[d].subdomains) == SubdomainAllow(rules, d)
      {
        assert At(d) == Compiled(rules, d);
      }
    }

    lemma SubtractedIff(rules: seq<Rule>, subdomainAllows: set<Name>, domain: Name)
      requires forall d: Name :: (d in allows) == Compiled(rules, d).allow.Some?
      requires forall d: Name :: d in subdomainAllows <==> SubdomainAllow(rules, d)
      ensures Subtracted(rules, domain) <==> domain in allows || SuffixMatch(subdomainAllows, domain)
    {
      if name :| name in subdomainAllows && AtOrBelow(domain, name) {
        assert domain[|domain| - |name|..] == name;
      }
      if i: nat :| i < |domain| && SubdomainAllow(rules, domain[i..]) {
        assert domain[i..] in subdomainAllows && AtOrBelow(domain, domain[i..]);
      }
    }

    /** Keeps the names with no allow at them and no subdomain allow at or above them. */
    method KeepUnallowed(domains: set<Name>, subdomainAllows: set<Name>) returns (remaining: set<Name>)
      ensures remaining == set x | x in domains && x !in allows && !SuffixMatch(subdomainAllows, x)
    {
      remaining := {};
      var pending := domains;
      while pending != {}
        invariant pending <= domains
        invariant remaining == set x | x in domains && x !in pending && x !in allows && !SuffixMatch(subdomainAllows, x)
        decreases |pending|
      {
        var domain :| domain in pending;
        pending := pending - {domain};
        if domain !in allows && !SuffixMatch(subdomainAllows, domain) {
          remaining := remaining + {domain};
        }
      }
    }

    /** Takes custom allows out of the merged external block set. */
    method SubtractAllowed(domains: set<Name>, ghost rules: seq<Rule>) returns (remaining: set<Name>)
      requires CompiledFrom(rules)
      ensures remaining == Remaining(rules, domains)
    {
      AllowsKnown(rules);
      var subdomainAllows := set name | name in allows && allows[name].subdomains;
      forall d
        ensures Subtracted(rules, d) <==> d in allows || SuffixMatch(subdomainAllows, d)
      {
        SubtractedIff(rules, subdomainAllows, d);
      }
      if allows == map[] { return domains; }
      remaining := KeepUnallowed(domains, subdomainAllows);
    }
  }

  /** Reads the selected rows in order, merges them and resolves the conflicts. */
  method CollectActive(rules: seq<Rule>) returns (active: ActiveRuleSet)
    ensures fresh(active) && active.CompiledFrom(rules)
  {
    active := new ActiveRuleSet();
    var i := 0;
    while i < |rules|
      invariant 0 <= i <= |rules|
      invariant fresh(active) && active.MergedFrom(rules[..i])
    {
      assert rules[..i] + [rules[i]] == rules[..i + 1];
      active.MergeRow(rules[i], rules[..i]);
      i := i + 1;
    }
    assert rules[..i] == rules;
    label Before:
    active.ResolveConflicts();
    forall d: Name
      ensures active.At(d) == Compiled(rules, d)
    {
      assert old@Before(active.At(d)) == Merged(rules, d);
    }
  }

  // ----- zone records -----

  lemma Emitted(lines: seq<Record>, owner: Owner, rdata: Rdata)
    ensures forall o :: RecordsAt(lines + [Record(owner, rdata)], o)
                        == RecordsAt(lines, o) + (if o == owner then [rdata] else [])
  {
    assert (lines + [Record(owner, rdata)])[..|lines|] == lines;
  }

  /** Adds one record unless its owner is taken; takes the owner. */
  method EmitOnce(lines: seq<Record>, occupied: set<Owner>, owner: Owner, rdata: Rdata)
    returns (lines': seq<Record>, occupied': set<Owner>)
    ensures occupied' == occupied + {owner}
    ensures forall o :: RecordsAt(lines', o)
                        == RecordsAt(lines, o) + (if o == owner && owner !in occupied then [rdata] else [])
  {
    Emitted(lines, owner, rdata);
    if owner !in occupied {
      return lines + [Record(owner, rdata)], occupied + {owner};
    }
    return lines, occupied;
  }

  /** The records of one rewrite: A and AAAA, each at the name and, if asked for, at its wildcard. */
  method EmitRewrite(lines: seq<Record>, name: Name, e: RewriteEntry) returns (lines': seq<Record>)
    ensures forall o :: RecordsAt(lines', o)
                        == RecordsAt(lines, o)
                           + (if o == Exact(name) || (o == Wildcard(name) && e.subdomains)
                              then AddressRecords(e) else [])
  {
    lines' := lines;
    if e.a.Some? {
      Emitted(lines', Exact(name), A(e.a.value));
      lines' := lines' + [Record(Exact(name), A(e.a.value))];
      if e.subdomains {
        Emitted(lines', Wildcard(name), A(e.a.value));
        lines' := lines' + [Record(Wildcard(name), A(e.a.value))];
      }
    }
    if e.aaaa.Some? {
      Emitted(lines', Exact(name), AAAA(e.aaaa.value));
      lines' := lines' + [Record(Exact(name), AAAA(e.aaaa.value))];
      if e.subdomains {
        Emitted(lines', Wildcard(name), AAAA(e.aaaa.value));
        lines' := lines' + [Record(Wildcard(name), AAAA(e.aaaa.value))];
      }
    }
  }

  /** Lines and owners rendered so far are those of the entries handled so far. */
  ghost predicate Rendered(lines: seq<Record>, occupied: set<Owner>, rewrites: map<Name, RewriteEntry>,
                           allows: map<Name, DomainEntry>, blocks: map<Name, DomainEntry>) {
    forall o :: RenderedAt(RecordsAt(lines, o), o in occupied, o.Wildcard?,
                           NameRules(Lookup(rewrites, o.name), Lookup(allows, o.name), Lookup(blocks, o.name)))
  }

  predicate RenderedAt(records: seq<Rdata>, taken: bool, wildcard: bool, n: NameRules) {
    records == CustomRecords(n, wildcard) && (taken <==> Claims(n, wildcard))
  }

  lemma AllowRenderedAt(records: seq<Rdata>, taken: bool, wildcard: bool, n: NameRules, allow: DomainEntry)
    requires n.allow.None? && n.block.None? && RenderedAt(records, taken, wildcard, n)
    ensures var emits := if wildcard then allow.subdomains else allow.exact || allow.subdomains;
            RenderedAt(records + (if emits && !taken then [Passthru] else []), taken || emits, wildcard,
                       n.(allow := Some(allow)))
  {
  }

  lemma BlockRenderedAt(records: seq<Rdata>, taken: bool, wildcard: bool, n: NameRules, block: DomainEntry)
    requires n.block.None? && RenderedAt(records, taken, wildcard, n)
    ensures var emits := if wildcard then block.subdomains else block.exact || block.subdomains;
            RenderedAt(records + (if emits && !taken then [Nxdomain] else []), taken || emits, wildcard,
                       n.(block := Some(block)))
  {
  }

  predicate AllowEmits(name: Name, allow: DomainEntry, o: Owner) {
    o.name == name && (allow.subdomains || (allow.exact && o.Exact?))
  }

  method EmitAllow(lines: seq<Record>, occupied: set<Owner>, name: Name, allow: DomainEntry)
    returns (lines': seq<Record>, occupied': set<Owner>)
    ensures forall o :: RecordsAt(lines', o)
                        == RecordsAt(lines, o)
                           + (if AllowEmits(name, allow, o) && o !in occupied then [Passthru] else [])
    ensures forall o :: o in occupied' <==> o in occupied || AllowEmits(name, allow, o)
  {
    lines', occupied' := lines, occupied;
    if allow.exact || allow.subdomains { lines', occupied' := EmitOnce(lines', occupied', Exact(name), Passthru); }
    if allow.subdomains { lines', occupied' := EmitOnce(lines', occupied', Wildcard(name), Passthru); }
  }

  method RenderAllow(lines: seq<Record>, occupied: set<Owner>, ghost rewrites: map<Name, RewriteEntry>,
                     ghost done: map<Name, DomainEntry>, name: Name, allow: DomainEntry)
    returns (lines': seq<Record>, occupied': set<Owner>)
    requires Rendered(lines, occupied, rewrites, done, map[]) && name !in done
    ensures Rendered(lines', occupied', rewrites, done[name := allow], map[])
  {
    lines', occupied' := EmitAllow(lines, occupied, name, allow);
    forall o
      ensures RenderedAt(RecordsAt(lines', o), o in occupied', o.Wildcard?,
                         NameRules(Lookup(rewrites, o.name), Lookup(done[name := allow], o.name), None))
    {
      var n := NameRules(Lookup(rewrites, o.name), Lookup(done, o.name), None);
      assert RenderedAt(RecordsAt(lines, o), o in occupied, o.Wildcard?, n);
      if o.name == name {
        AllowRenderedAt(RecordsAt(lines, o), o in occupied, o.Wildcard?, n, allow);
      }
    }
  }

  method EmitBlock(lines: seq<Record>, occupied: set<Owner>, name: Name, block: DomainEntry)
    returns (lines': seq<Record>, occupied': set<Owner>)
    ensures forall o :: RecordsAt(lines', o)
                        == RecordsAt(lines, o)
                           + (if BlockEmits(name, block, o) && o !in occupied then [Nxdomain] else [])
    ensures forall o :: o in occupied' <==> o in occupied || BlockEmits(name, block, o)
  {
    lines', occupied' := lines, occupied;
    if block.exact { lines', occupied' := EmitOnce(lines', occupied', Exact(name), Nxdomain); }
    if block.subdomains {
      lines', occupied' := EmitOnce(lines', occupied', Exact(name), Nxdomain);
      lines', occupied' := EmitOnce(lines', occupied', Wildcard(name), Nxdomain);
    }
  }

  predicate BlockEmits(name: Name, block: DomainEntry, o: Owner) {
    o.name == name && (block.subdomains || (block.exact && o.Exact?))
  }

  method RenderBlock(lines: seq<Record>, occupied: set<Owner>, ghost rewrites: map<Name, RewriteEntry>,
                     ghost allows: map<Name, DomainEntry>,
                     ghost done: map<Name, DomainEntry>, name: Name, block: DomainEntry)
    returns (lines': seq<Record>, occupied': set<Owner>)
    requires Rendered(lines, occupied, rewrites, allows, done) && name !in done
    ensures Rendered(lines', occupied', rewrites, allows, done[name := block])
  {
    lines', occupied' := EmitBlock(lines, occupied, name, block);
    forall o
      ensures RenderedAt(RecordsAt(lines', o), o in occupied', o.Wildcard?,
                         NameRules(Lookup(rewrites, o.name), Lookup(allows, o.name),
                             Lookup(done[name := block], o.name)))
    {
      var n := NameRules(Lookup(rewrites, o.name), Lookup(allows, o.name), Lookup(done, o.name));
      assert RenderedAt(RecordsAt(lines, o), o in occupied, o.Wildcard?, n);
      if o.name == name {
        BlockRenderedAt(RecordsAt(lines, o), o in occupied, o.Wildcard?, n, block);
      }
    }
  }

  method RenderRewrite(lines: seq<Record>, occupied: set<Owner>, ghost done: map<Name, RewriteEntry>, name: Name,
      e: RewriteEntry)
    returns (lines': seq<Record>, occupied': set<Owner>)
    requires Rendered(lines, occupied, done, map[], map[]) && name !in done
    ensures Rendered(lines', occupied', done[name := e], map[], map[])
  {
    lines' := EmitRewrite(lines, name, e);
    occupied' := occupied + {Exact(name)} + (if e.subdomains then {Wildcard(name)} else {});
    forall o
      ensures RenderedAt(RecordsAt(lines', o), o in occupied', o.Wildcard?,
              NameRules(Lookup(done[name := e], o.name), None, None))
    {
      assert RenderedAt(RecordsAt(lines, o), o in occupied, o.Wildcard?, NameRules(Lookup(done, o.name), None, None));
    }
  }

  method RewritePass(rewrites: map<Name, RewriteEntry>) returns (lines: seq<Record>, occupied: set<Owner>)
    ensures Rendered(lines, occupied, rewrites, map[], map[])
  {
    lines, occupied := [], {};
    var pending := rewrites.Keys;
    ghost var done: map<Name, RewriteEntry> := map[];
    while pending != {}
      invariant pending <= rewrites.Keys && done == rewrites - pending
      invariant Rendered(lines, occupied, done, map[], map[])
      decreases |pending|
    {
      var name :| name in pending;
      lines, occupied := RenderRewrite(lines, occupied, done, name, rewrites[name]);
      pending, done := pending - {name}, done[name := rewrites[name]];
    }
    assert done == rewrites;
  }

  method AllowPass(ghost rewrites: map<Name, RewriteEntry>, allows: map<Name, DomainEntry>, lines0: seq<Record>,
      occupied0: set<Owner>)
    returns (lines: seq<Record>, occupied: set<Owner>)
    requires Rendered(lines0, occupied0, rewrites, map[], map[])
    ensures Rendered(lines, occupied, rewrites, allows, map[])
  {
    lines, occupied := lines0, occupied0;
    var pending := allows.Keys;
    ghost var done: map<Name, DomainEntry> := map[];
    while pending != {}
      invariant pending <= allows.Keys && done == allows - pending
      invariant Rendered(lines, occupied, rewrites, done, map[])
      decreases |pending|
    {
      var name :| name in pending;
      lines, occupied := RenderAllow(lines, occupied, rewrites, done, name, allows[name]);
      pending, done := pending - {name}, done[name := allows[name]];
    }
    assert done == allows;
  }

  method BlockPass(ghost rewrites: map<Name, RewriteEntry>, ghost allows: map<Name, DomainEntry>,
                   blocks: map<Name, DomainEntry>,
                   lines0: seq<Record>, occupied0: set<Owner>)
    returns (lines: seq<Record>, occupied: set<Owner>)
    requires Rendered(lines0, occupied0, rewrites, allows, map[])
    ensures Rendered(lines, occupied, rewrites, allows, blocks)
  {
    lines, occupied := lines0, occupied0;
    var pending := blocks.Keys;
    ghost var done: map<Name, DomainEntry> := map[];
    while pending != {}
      invariant pending <= blocks.Keys && done == blocks - pending
      invariant Rendered(lines, occupied, rewrites, allows, done)
      decreases |pending|
    {
      var name :| name in pending;
      lines, occupied := RenderBlock(lines, occupied, rewrites, allows, done, name, blocks[name]);
      pending, done := pending - {name}, done[name := blocks[name]];
    }
    assert done == blocks;
  }

  /** Custom records in three passes: rewrites, then allows, then blocks; earlier passes win an owner. */
  method RpzRecords(active: ActiveRuleSet) returns (lines: seq<Record>, occupied: set<Owner>)
    ensures forall o :: RecordsAt(lines, o) == CustomRecords(active.At(o.name), o.Wildcard?)
    ensures forall o :: o in occupied <==> Claims(active.At(o.name), o.Wildcard?)
  {
    lines, occupied := RewritePass(active.rewrites);
    lines, occupied := AllowPass(active.rewrites, active.allows, lines, occupied);
    lines, occupied := BlockPass(active.rewrites, active.allows, active.blocks, lines, occupied);
    forall o
      ensures RecordsAt(lines, o) == CustomRecords(active.At(o.name), o.Wildcard?)
      ensures o in occupied <==> Claims(active.At(o.name), o.Wildcard?)
    {
      assert RenderedAt(RecordsAt(lines, o), o in occupied, o.Wildcard?, active.At(o.name));
    }
  }

  /** One CNAME alone, or at most one A and at most one AAAA and nothing else. */
  predicate ConflictFree(rs: seq<Rdata>) {
    || (|rs| == 1 && (rs[0].Passthru? || rs[0].Nxdomain?))
    || ((forall r :: r in rs ==> r.A? || r.AAAA?)
        && forall i, j :: 0 <= i < j < |rs| ==> rs[i].A? && rs[j].AAAA?)
  }

  /** A name and a wildcard block for each external domain that no custom rule claims. */
  method RenderExternal(domains: set<Name>, custom: seq<Record>, occupied: set<Owner>) returns (lines: seq<Record>)
    ensures forall o :: RecordsAt(lines, o)
                        == RecordsAt(custom, o) + (if o.name in domains && o !in occupied then [Nxdomain] else [])
  {
    lines := custom;
    var pending := domains;
    while pending != {}
      invariant pending <= domains
      invariant forall o :: RecordsAt(lines, o)
                            == RecordsAt(custom, o)
                               + (if o.name in domains - pending && o !in occupied then [Nxdomain] else [])
      decreases |pending|
    {
      var domain :| domain in pending;
      pending := pending - {domain};
      Emitted(lines, Exact(domain), Nxdomain);
      if Exact(domain) !in occupied {
        lines := lines + [Record(Exact(domain), Nxdomain)];
      }
      Emitted(lines, Wildcard(domain), Nxdomain);
      if Wildcard(domain) !in occupied {
        lines := lines + [Record(Wildcard(domain), Nxdomain)];
      }
    }
  }

  /** The custom records, then the external blocks. */
  method RenderRpz(domains: set<Name>, active: ActiveRuleSet) returns (lines: seq<Record>)
    ensures forall o :: RecordsAt(lines, o) == OwnerRecords(active.At(o.name), o.Wildcard?, o.name in domains)
    ensures forall o :: ConflictFree(RecordsAt(lines, o))
  {
    var occupied;
    lines, occupied := RpzRecords(active);
    lines := RenderExternal(domains, lines, occupied);
    forall o
      ensures RecordsAt(lines, o) == OwnerRecords(active.At(o.name), o.Wildcard?, o.name in domains)
      ensures ConflictFree(RecordsAt(lines, o))
    {
      OwnerRecordsConflictFree(active.At(o.name), o.Wildcard?, o.name in domains);
    }
  }

  lemma OwnerRecordsConflictFree(n: NameRules, wildcard: bool, external: bool)
    ensures ConflictFree(OwnerRecords(n, wildcard, external))
    ensures !Claims(n, wildcard) ==> CustomRecords(n, wildcard) == []
  {
  }

  /** The pass lists and regex lists of a compiled rule set. */
  method RenderDnsdistData(active: ActiveRuleSet, localZones: set<Name>, ghost rules: seq<Rule>)
    returns (l: DnsdistLists)
    requires active.CompiledFrom(rules)
    ensures l == ListsOf(rules, localZones)
  {
    var suffixes := localZones
      + (set name | name in active.allows && active.allows[name].subdomains)
      + (set name | name in active.rewrites && active.rewrites[name].subdomains);
    var exacts := (set name | name in active.allows && active.allows[name].exact && !active.allows[name].subdomains)
      + (set name | name in active.rewrites && !active.rewrites[name].subdomains);
    l := DnsdistLists(suffixes, exacts - suffixes, Deployed(active.regexAllow), Deployed(active.regexBlock));
    forall d: Name
      ensures d in suffixes <==> d in localZones || SuffixPass(rules, d)
      ensures d in exacts <==> ExactPass(rules, d)
    {
      assert active.At(d) == Compiled(rules, d);
    }
    assert suffixes == ListsOf(rules, localZones).suffixes;
    assert exacts - suffixes == ListsOf(rules, localZones).exacts;
  }

  function View(lines: seq<Record>): Zone {
    (o: Owner) => RecordsAt(lines, o)
  }

  /** Precedence of the i-th owner tried for q: exact first, then more labels first. */
  predicate Outranks(q: Name, i: nat, best: nat) {
    (i == 0 && best != 0) || (i != 0 && best != 0 && |q| - i > |q| - best)
  }

  /** What the compiled zone file answers for q, and from which owner. */
  method RpzStatus(lines: seq<Record>, q: Name) returns (entry: Option<Owner>, answer: seq<Rdata>)
    ensures entry == RpzEntry(View(lines), q) && answer == RpzAnswer(View(lines), q)
  {
    var zone := View(lines);
    var best: Option<nat> := None;
    if zone(Exact(q)) != [] { best := Some(0); }
    for i := 1 to |q|
      invariant best.Some? ==> best.value < i && zone(OwnerAt(q, best.value)) != []
      invariant forall j: nat :: j < i && (best.Some? ==> j < best.value) ==> zone(OwnerAt(q, j)) == []
    {
      if zone(Wildcard(q[i..])) != [] {
        if best.None? || Outranks(q, i, best.value) { best := Some(i); }
      }
    }
    assert best == FirstOwner(zone, q, 0);
    if best.None? { return None, []; }
    entry := Some(OwnerAt(q, best.value));
    answer := zone(entry.value);
  }

  /** collect, subtract, render: the artefacts of one deployment, and what they are worth. */
  method Deploy(rules: seq<Rule>, allBlocks: set<Name>, allAllows: set<Name>, localZones: set<Name>, ghost rx: Matcher)
    returns (lines: seq<Record>, lists: DnsdistLists, activeBlocks: set<Name>)
    ensures activeBlocks == Remaining(rules, allBlocks - allAllows)
    ensures forall o :: ConflictFree(RecordsAt(lines, o))
    ensures forall q: Name ::
              Execute(lists, View(lines), localZones, q, rx)
                  == OutcomeOf(Evaluate(rules, localZones, View(lines), q, rx))
              <==> Agrees(rules, localZones, allBlocks - allAllows, q, rx)
    ensures NoBlockOutranksAllow(rules) && NoExternalBelowRewrite(rules, allBlocks - allAllows) ==>
              forall q: Name ::
                Execute(lists, View(lines), localZones, q, rx)
                    == OutcomeOf(Evaluate(rules, localZones, View(lines), q, rx))
  {
    var external := allBlocks - allAllows;
    var active := CollectActive(rules);
    activeBlocks := active.SubtractAllowed(external, rules);
    lines := RenderRpz(activeBlocks, active);
    lists := RenderDnsdistData(active, localZones, rules);
    forall o
      ensures View(lines)(o) == ZoneOf(rules, external)(o)
    {
      assert active.At(o.name) == Compiled(rules, o.name);
    }
    forall q: Name {
      ArtefactsCorrect(rules, localZones, external, lines, lists, q, rx);
    }
  }

  /** The correctness theorem, for the files of a deployment. */
  lemma ArtefactsCorrect(rules: seq<Rule>, localZones: set<Name>, external: set<Name>, lines: seq<Record>,
      lists: DnsdistLists, q: Name, rx: Matcher)
    requires lists == ListsOf(rules, localZones)
    requires forall o :: View(lines)(o) == ZoneOf(rules, external)(o)
    ensures Execute(lists, View(lines), localZones, q, rx) == OutcomeOf(Evaluate(rules, localZones, View(lines), q, rx))
            <==> Agrees(rules, localZones, external, q, rx)
    ensures NoBlockOutranksAllow(rules) && NoExternalBelowRewrite(rules, external) ==>
              Execute(lists, View(lines), localZones, q, rx)
                  == OutcomeOf(Evaluate(rules, localZones, View(lines), q, rx))
  {
    SameZoneSameAnswer(View(lines), ZoneOf(rules, external), q);
    assert Execute(lists, View(lines), localZones, q, rx) == Deployment(rules, localZones, external, q, rx);
    assert OutcomeOf(Evaluate(rules, localZones, View(lines), q, rx)) == Evaluation(rules, localZones, external, q, rx);
    DeploymentAgreesIff(rules, localZones, external, q, rx);
    if NoBlockOutranksAllow(rules) && NoExternalBelowRewrite(rules, external) {
      CompilerCorrect(rules, localZones, external, q, rx);
    }
  }

  // ----- direct evaluation as a loop over the rows -----

  predicate MatchesName(r: Rule, q: Name) {
    r.DomainRule? && (r.domain == q || (r.subdomains && Below(q, r.domain)))
  }

  /** (exact, labels) of a is at most that of b. */
  predicate KeyAtMost(q: Name, a: Rule, b: Rule)
    requires a.DomainRule? && b.DomainRule?
  {
    b.domain == q || (a.domain != q && |a.domain| <= |b.domain|)
  }

  lemma SelectedMatches(q: Name, j: nat, k: Kind, r: Rule)
    requires j < |q| && Selects(Match(k, q, j), r)
    ensures MatchesName(r, q) && |r.domain| == |q| - j && (j == 0 <==> r.domain == q)
  {
  }

  predicate InBest(matches: seq<Rule>, q: Name, best: Rule, k: Kind, r: Rule)
    requires best.DomainRule?
  {
    r in matches && IsBest(q, best, k, r)
  }

  predicate IsBest(q: Name, best: Rule, k: Kind, r: Rule)
    requires best.DomainRule?
  {
    r.DomainRule? && KeyAtMost(q, best, r) && KindOf(r.action) == k
  }

  /** Rules whose key equals the best one are exactly those selected at one suffix of q. */
  lemma BestKeySelects(rules: seq<Rule>, matches: seq<Rule>, q: Name, best: Rule)
    requires forall r :: r in matches <==> r in rules && MatchesName(r, q)
    requires best.DomainRule? && best in matches && forall r :: r in matches ==> r.DomainRule? && KeyAtMost(q, r, best)
    ensures var i := |q| - |best.domain|;
            && BestMatch(rules, q, 0) == Some(i)
            && forall r, k :: (r in rules && Selects(Match(k, q, i), r)) == InBest(matches, q, best, k, r)
  {
    var i := |q| - |best.domain|;
    assert q[0..] == q && q[i..] == best.domain;
    assert Selects(Match(KindOf(best.action), q, i), best);
    assert MatchedAt(rules, q, i);
    forall k, j: nat, r | j < |q| && r in rules && Selects(Match(k, q, j), r)
      ensures r in matches && |r.domain| == |q| - j && i <= j
    {
      SelectedMatches(q, j, k, r);
    }
    var m := BestMatch(rules, q, 0);
    assert m.Some? && m.value <= i && MatchedAt(rules, q, m.value);
    forall r, k
      ensures (r in rules && Selects(Match(k, q, i), r)) == InBest(matches, q, best, k, r)
    {
    }
  }

  /** The rows of one kind among the best matches, and their largest priority. */
  method BestOfKind(matches: seq<Rule>, q: Name, best: Rule, k: Kind, ghost rules: seq<Rule>, ghost s: Selector)
    returns (found: bool, priority: nat)
    requires best.DomainRule? && forall r :: r in matches ==> r.DomainRule?
    requires forall r :: (r in rules && Selects(s, r)) == InBest(matches, q, best, k, r)
    ensures found == Has(rules, s) && priority == TopPriority(rules, s)
  {
    found, priority := false, 0;
    for j := 0 to |matches|
      invariant found <==> exists r :: r in matches[..j] && IsBest(q, best, k, r)
      invariant forall r :: r in matches[..j] && IsBest(q, best, k, r) ==> r.priority <= priority
      invariant if found then exists r :: r in matches[..j] && IsBest(q, best, k, r) && r.priority == priority
                else priority == 0
    {
      var m := matches[j];
      assert m in matches;
      assert matches[..j + 1] == matches[..j] + [m];
      assert forall r :: r in matches[..j + 1] <==> r in matches[..j] || r == m;
      if KeyAtMost(q, best, m) && KindOf(m.action) == k {
        assert IsBest(q, best, k, m);
        if !found || m.priority > priority { priority := m.priority; }
        found := true;
      }
    }
    assert matches[..|matches|] == matches;
    TopPriorityBound(rules, s);
    if !found { TopPriorityOfNone(rules, s); }
  }

  lemma RegexHitNext(before: seq<Rule>, r: Rule, passes: bool, q: Name, rx: Matcher)
    ensures RegexHit(before + [r], passes, q, rx)
            <==> RegexHit(before, passes, q, rx)
                 || (r.RegexRule? && r.passes == passes && rx(DeployedPattern(r.pattern), q))
  {
    assert r in before + [r];
    if x :| x in before && x.RegexRule? && x.passes == passes && rx(DeployedPattern(x.pattern), q) {
      assert x in before + [r];
    }
  }

  /** The rows that match a name, and whether a pattern of either kind does. */
  method CollectMatches(rules: seq<Rule>, q: Name, rx: Matcher)
    returns (matches: seq<Rule>, allowHit: bool, blockHit: bool)
    ensures forall r :: r in matches <==> r in rules && MatchesName(r, q)
    ensures allowHit == RegexHit(rules, true, q, rx) && blockHit == RegexHit(rules, false, q, rx)
  {
    matches, allowHit, blockHit := [], false, false;
    for i := 0 to |rules|
      invariant forall r :: r in matches <==> r in rules[..i] && MatchesName(r, q)
      invariant allowHit == RegexHit(rules[..i], true, q, rx) && blockHit == RegexHit(rules[..i], false, q, rx)
    {
      var r := rules[i];
      assert rules[..i + 1] == rules[..i] + [r];
      RegexHitNext(rules[..i], r, true, q, rx);
      RegexHitNext(rules[..i], r, false, q, rx);
      if MatchesName(r, q) {
        matches := matches + [r];
      } else if r.RegexRule? && r.passes && rx(DeployedPattern(r.pattern), q) {
        allowHit := true;
      } else if r.RegexRule? && !r.passes && rx(DeployedPattern(r.pattern), q) {
        blockHit := true;
      }
    }
    assert rules[..|rules|] == rules;
  }

  /** The match with the greatest (exact, labels) key. */
  method MostSpecific(matches: seq<Rule>, q: Name) returns (best: Rule)
    requires |matches| > 0 && forall r :: r in matches ==> r.DomainRule?
    ensures best in matches && best.DomainRule? && forall r :: r in matches ==> r.DomainRule? && KeyAtMost(q, r, best)
  {
    best := matches[0];
    for j := 1 to |matches|
      invariant best in matches && best.DomainRule?
      invariant forall x :: 0 <= x < j ==> matches[x].DomainRule? && KeyAtMost(q, matches[x], best)
    {
      assert matches[j] in matches;
      if !KeyAtMost(q, matches[j], best) { best := matches[j]; }
    }
  }

  /** The precedence among the most specific rows. */
  method DecideAmong(matches: seq<Rule>, q: Name, best: Rule, ghost rules: seq<Rule>) returns (v: Verdict)
    requires forall r :: r in matches <==> r in rules && MatchesName(r, q)
    requires best in matches && best.DomainRule? && forall r :: r in matches ==> r.DomainRule? && KeyAtMost(q, r, best)
    ensures BestMatch(rules, q, 0).Some? && v == VerdictAt(rules, q, BestMatch(rules, q, 0).value)
  {
    BestKeySelects(rules, matches, q, best);
    ghost var i := |q| - |best.domain|;
    var rewrites, _ := BestOfKind(matches, q, best, KRewrite, rules, Match(KRewrite, q, i));
    var allows, allowPriority := BestOfKind(matches, q, best, KAllow, rules, Match(KAllow, q, i));
    var blocks, blockPriority := BestOfKind(matches, q, best, KBlock, rules, Match(KBlock, q, i));
    if rewrites { return VRewrite; }
    if allows && blocks && blockPriority > allowPriority { return VBlock; }
    return if allows then VAllow else VBlock;
  }

  /** "Test a domain": collects the matching rows, keeps the most specific, applies the precedence. */
  method EvaluateDomain(rules: seq<Rule>, localZones: set<Name>, lines: seq<Record>, q: Name, rx: Matcher)
    returns (v: Verdict)
    ensures v == Evaluate(rules, localZones, View(lines), q, rx)
  {
    var _, rpz := RpzStatus(lines, q);
    if SuffixMatch(localZones, q) { return VLocal; }
    var matches, regexAllowHit, regexBlockHit := CollectMatches(rules, q, rx);
    if |matches| > 0 {
      forall r | r in matches ensures r.DomainRule? { assert MatchesName(r, q); }
      var best := MostSpecific(matches, q);
      v := DecideAmong(matches, q, best, rules);
      return;
    }
    NothingMatches(rules, q);
    if regexAllowHit { return if RpzBlocks(rpz) then VBlock else VAllow; }
    if regexBlockHit { return VBlock; }
    return if RpzBlocks(rpz) then VBlock else VResolve;
  }

  lemma NothingMatches(rules: seq<Rule>, q: Name)
    requires forall r :: r in rules ==> !MatchesName(r, q)
    ensures BestMatch(rules, q, 0).None?
  {
    forall j: nat, k, r | j < |q| && r in rules
      ensures !Selects(Match(k, q, j), r)
    {
      assert q[0..] == q;
    }
  }
}
