/**
 Access policy: deny beats allow beats default, evaluated directly and compiled to the
 netmask, SNI and path lists a fixed Lua loader runs in front of the resolver.
 */
module AccessPolicy {
  import opened Wrappers
  import opened ClientId
  import Positional

  // ----- addresses, identifiers, rules -----

  datatype Ip = V4(bits: nat) | V6(bits: nat)

  function Width(ip: Ip): nat { if ip.V4? then 32 else 128 }

  type Hex = h: string | Canonical(h) witness seq(48, _ => '0')

  /** ipv4 and ipv6, ipv4_cidr and ipv6_cidr, clientid */
  datatype Identifier = Host(ip: Ip) | Cidr(mask: Netmask) | Presented(id: Hex)

  datatype Netmask = Netmask(ip: Ip, prefix: nat)

  datatype Action = Allow | Deny

  datatype Rule = Direct(action: Action, identifier: Identifier) | OfClient(action: Action, client: nat)

  datatype Client = Client(name: string, enabled: bool, identifiers: seq<Identifier>)

  datatype Effective = Effective(action: Action, identifier: Identifier)

  /** `address in network`: the same version and the same leading bits. */
  predicate Covers(m: Netmask, a: Ip) {
    && m.ip.V4? == a.V4?
    && m.prefix <= Width(m.ip)
    && Shifted(m.ip.bits, Width(m.ip) - m.prefix) == Shifted(a.bits, Width(m.ip) - m.prefix)
  }

  function Shifted(bits: nat, n: nat): nat {
    if n == 0 then bits else Shifted(bits / 2, n - 1)
  }

  lemma {:induction false} ShiftedBounds(bits: nat, n: nat)
    ensures Positional.Pow(2, n) > 0
    ensures Shifted(bits, n) * Positional.Pow(2, n) <= bits < (Shifted(bits, n) + 1) * Positional.Pow(2, n)
    decreases n
  {
    if n > 0 {
      ShiftedBounds(bits / 2, n - 1);
      var s, p := Shifted(bits, n), Positional.Pow(2, n - 1);
      Doubled(s, p);
      Doubled(s + 1, p);
    }
  }

  lemma Doubled(s: nat, p: nat)
    ensures s * (2 * p) == 2 * (s * p)
  {
  }

  lemma QuotientIs(q: nat, p: nat, v: nat)
    requires p > 0 && q * p <= v < (q + 1) * p
    ensures v / p == q && q * p == v - v % p
  {
    Positional.DivModOf(q, p, v - q * p);
  }

  lemma ShiftedIsQuotient(bits: nat, n: nat)
    ensures Positional.Pow(2, n) > 0 && Shifted(bits, n) == bits / Positional.Pow(2, n)
    ensures Shifted(bits, n) * Positional.Pow(2, n) == bits - bits % Positional.Pow(2, n)
  {
    ShiftedBounds(bits, n);
    QuotientIs(Shifted(bits, n), Positional.Pow(2, n), bits);
  }

  /** The addresses of a network: its own with the bits after the prefix cleared, and those up to the next network. */
  lemma CoversIff(m: Netmask, a: Ip)
    ensures var width := if m.ip.V4? then 32 else 128;
            if m.prefix > width then !Covers(m, a)
            else
              var size := Positional.Pow(2, width - m.prefix);
              && size > 0
              && (Covers(m, a) <==>
                  m.ip.V4? == a.V4?
                  && m.ip.bits - m.ip.bits % size <= a.bits < m.ip.bits - m.ip.bits % size + size)
  {
    if m.prefix <= Width(m.ip) {
      var n := Width(m.ip) - m.prefix;
      ShiftedIsQuotient(m.ip.bits, n);
      ShiftedBounds(a.bits, n);
      SameQuotientIff(Shifted(m.ip.bits, n), Positional.Pow(2, n), a.bits, Shifted(a.bits, n));
    }
  }

  lemma SameQuotientIff(q: nat, p: nat, v: nat, r: nat)
    requires p > 0 && r * p <= v < (r + 1) * p
    ensures q == r <==> q * p <= v < q * p + p
  {
    if q < r { Positional.MulMonotone(q + 1, r, p); }
    if r < q { Positional.MulMonotone(r + 1, q, p); }
  }

  // ----- expansion of client rules -----

  /** e is one of the entries the rules expand to; a disabled or missing client contributes none. */
  predicate IsEffective(rules: seq<Rule>, clients: map<nat, Client>, e: Effective) {
    exists r :: r in rules && r.action == e.action &&
      match r
      case Direct(_, i) => i == e.identifier
      case OfClient(_, c) => c in clients && clients[c].enabled && e.identifier in clients[c].identifiers
  }

  /** One entry per identifier, in order. */
  function EntriesFor(action: Action, ids: seq<Identifier>): seq<Effective> {
    if |ids| == 0 then [] else EntriesFor(action, ids[..|ids| - 1]) + [Effective(action, ids[|ids| - 1])]
  }

  function EntriesOf(r: Rule, clients: map<nat, Client>): seq<Effective> {
    match r
    case Direct(action, i) => [Effective(action, i)]
    case OfClient(action, c) =>
      if c in clients && clients[c].enabled then EntriesFor(action, clients[c].identifiers) else []
  }

  /** The effective entries in rule order. */
  function Expansion(rules: seq<Rule>, clients: map<nat, Client>): seq<Effective> {
    if |rules| == 0 then [] else Expansion(rules[..|rules| - 1], clients) + EntriesOf(rules[|rules| - 1], clients)
  }

  lemma {:induction false} EntriesForMember(action: Action, ids: seq<Identifier>, e: Effective)
    ensures e in EntriesFor(action, ids) <==> e.action == action && e.identifier in ids
  {
    if |ids| > 0 {
      EntriesForMember(action, ids[..|ids| - 1], e);
      assert ids == ids[..|ids| - 1] + [ids[|ids| - 1]];
    }
  }

  /** The expansion holds exactly the effective entries. */
  lemma {:induction false} ExpansionExact(rules: seq<Rule>, clients: map<nat, Client>, e: Effective)
    ensures e in Expansion(rules, clients) <==> IsEffective(rules, clients, e)
  {
    if |rules| > 0 {
      var init, last := rules[..|rules| - 1], rules[|rules| - 1];
      ExpansionExact(init, clients, e);
      assert rules == init + [last];
      if last.OfClient? && last.client in clients {
        EntriesForMember(last.action, clients[last.client].identifiers, e);
      }
    }
  }

  method ExpandRules(rules: seq<Rule>, clients: map<nat, Client>) returns (expanded: seq<Effective>)
    ensures expanded == Expansion(rules, clients)
    ensures forall e :: e in expanded <==> IsEffective(rules, clients, e)
  {
    expanded := [];
    for i := 0 to |rules|
      invariant expanded == Expansion(rules[..i], clients)
    {
      assert rules[..i + 1][..i] == rules[..i];
      match rules[i]
      case OfClient(action, c) =>
        if c in clients && clients[c].enabled {
          var ids := clients[c].identifiers;
          ghost var before := expanded;
          for j := 0 to |ids|
            invariant expanded == before + EntriesFor(action, ids[..j])
          {
            assert ids[..j + 1][..j] == ids[..j];
            expanded := expanded + [Effective(action, ids[j])];
          }
          assert ids[..|ids|] == ids;
        }
      case Direct(action, identifier) =>
        expanded := expanded + [Effective(action, identifier)];
    }
    assert rules[..|rules|] == rules;
    forall e
      ensures e in expanded <==> IsEffective(rules, clients, e)
    {
      ExpansionExact(rules, clients, e);
    }
  }

  // ----- direct evaluation -----

  predicate MatchesIp(i: Identifier, a: Ip) {
    match i
    case Host(ip) => ip == a
    case Cidr(m) => Covers(m, a)
    case Presented(_) => false
  }

  /** A rule entry matches by presented ClientID or, when the source address is known, by address. */
  predicate Matches(i: Identifier, address: Option<Ip>, id: Option<string>) {
    if i.Presented? then id.Some? && id.value != "" && i.id == id.value
    else address.Some? && MatchesIp(i, address.value)
  }

  ghost predicate AnyMatch(rules: seq<Rule>, clients: map<nat, Client>, action: Action, address: Option<Ip>,
      id: Option<string>) {
    exists e :: IsEffective(rules, clients, e) && e.action == action && Matches(e.identifier, address, id)
  }

  /** Deny beats allow beats the default. */
  ghost predicate Permitted(rules: seq<Rule>, clients: map<nat, Client>, byDefault: Action, address: Option<Ip>,
      id: Option<string>) {
    if AnyMatch(rules, clients, Deny, address, id) then false
    else if AnyMatch(rules, clients, Allow, address, id) then true
    else byDefault == Allow
  }

  /** The first entry of an action that matches. */
  function FirstMatch(entries: seq<Effective>, action: Action, address: Option<Ip>,
      id: Option<string>): (r: Option<Effective>)
    ensures r.Some? ==> r.value in entries && r.value.action == action && Matches(r.value.identifier, address, id)
    ensures r.None? ==> forall e :: e in entries && e.action == action ==> !Matches(e.identifier, address, id)
    decreases |entries|
  {
    if |entries| == 0 then None
    else if entries[0].action == action && Matches(entries[0].identifier, address, id) then Some(entries[0])
    else FirstMatch(entries[1..], action, address, id)
  }

  /** The entries before a first match, and those after it, do not change it. */
  lemma {:induction false} FirstMatchNext(entries: seq<Effective>, e: Effective, action: Action, address: Option<Ip>,
      id: Option<string>)
    ensures FirstMatch(entries + [e], action, address, id)
            == if FirstMatch(entries, action, address, id).Some? then FirstMatch(entries, action, address, id)
               else if e.action == action && Matches(e.identifier, address, id) then Some(e) else None
    decreases |entries|
  {
    if |entries| > 0 {
      assert (entries + [e])[0] == entries[0] && (entries + [e])[1..] == entries[1..] + [e];
      FirstMatchNext(entries[1..], e, action, address, id);
    } else {
      assert (entries + [e])[1..] == [];
    }
  }

  function Head(s: seq<Effective>): Option<Effective> { if |s| > 0 then Some(s[0]) else None }

  /** The decision, and the entry reported as its reason: the first deny that matches, else the first allow. */
  method EvaluateAccess(rules: seq<Rule>, clients: map<nat, Client>, byDefault: Action, address: Option<Ip>,
      id: Option<string>)
    returns (allowed: bool, reason: Option<Effective>)
    ensures allowed == Permitted(rules, clients, byDefault, address, id)
    ensures var deny := FirstMatch(Expansion(rules, clients), Deny, address, id);
            reason == if deny.Some? then deny else FirstMatch(Expansion(rules, clients), Allow, address, id)
    ensures reason.Some? ==> IsEffective(rules, clients, reason.value) && Matches(reason.value.identifier, address, id)
    ensures allowed == if reason.Some? then reason.value.action == Allow else byDefault == Allow
  {
    var expanded := ExpandRules(rules, clients);
    var deny, allow: seq<Effective> := [], [];
    for i := 0 to |expanded|
      invariant Head(deny) == FirstMatch(expanded[..i], Deny, address, id)
      invariant Head(allow) == FirstMatch(expanded[..i], Allow, address, id)
    {
      var rule := expanded[i];
      assert expanded[..i + 1] == expanded[..i] + [rule];
      FirstMatchNext(expanded[..i], rule, Deny, address, id);
      FirstMatchNext(expanded[..i], rule, Allow, address, id);
      if Matches(rule.identifier, address, id) {
        if rule.action == Deny { deny := deny + [rule]; } else { allow := allow + [rule]; }
      }
    }
    assert expanded[..|expanded|] == expanded;
    if |deny| > 0 { return false, Some(deny[0]); }
    if |allow| > 0 { return true, Some(allow[0]); }
    return byDefault == Allow, None;
  }

  // ----- compilation -----

  datatype Lists = Lists(v4: set<Netmask>, v6: set<Netmask>, sni: set<string>, paths: set<string>)

  datatype AccessData = AccessData(allow: Lists, deny: Lists, byDefault: Action)

  /** The netmask of an address identifier: a host is its own /32 or /128. */
  function MaskOf(i: Identifier): Netmask
    requires !i.Presented?
  {
    match i
    case Host(ip) => Netmask(ip, Width(ip))
    case Cidr(m) => m
  }

  /** Adds one effective entry to the lists of its action. */
  function Added(l: Lists, i: Identifier, basePath: string): Lists {
    match i
    case Presented(h) => l.(sni := l.sni + {SniHostname(h)}, paths := l.paths + {DohPath(basePath, h)})
    case _ =>
      var m := MaskOf(i);
      if m.ip.V4? then l.(v4 := l.v4 + {m}) else l.(v6 := l.v6 + {m})
  }

  ghost predicate MasksHold(masks: set<Netmask>, v4: bool, entries: seq<Effective>, action: Action) {
    forall m: Netmask :: m in masks <==> m.ip.V4? == v4 && HasMask(entries, action, m)
  }

  ghost predicate HasName(entries: seq<Effective>, action: Action, name: Hex -> string, s: string) {
    exists h: Hex :: Effective(action, Presented(h)) in entries && s == name(h)
  }

  ghost predicate NamesHold(names: set<string>, entries: seq<Effective>, action: Action, name: Hex -> string) {
    forall s :: s in names <==> HasName(entries, action, name, s)
  }

  function SniName(): Hex -> string { (h: Hex) => SniHostname(h) }

  function PathName(basePath: string): Hex -> string { (h: Hex) => DohPath(basePath, h) }

  /** The four lists of one action hold exactly its effective entries. */
  ghost predicate ListsHold(l: Lists, entries: seq<Effective>, action: Action, basePath: string) {
    && MasksHold(l.v4, true, entries, action)
    && MasksHold(l.v6, false, entries, action)
    && NamesHold(l.sni, entries, action, SniName())
    && NamesHold(l.paths, entries, action, PathName(basePath))
  }

  ghost predicate HasMask(entries: seq<Effective>, action: Action, m: Netmask) {
    exists e :: e in entries && e.action == action && !e.identifier.Presented? && MaskOf(e.identifier) == m
  }

  method RenderAccessData(rules: seq<Rule>, clients: map<nat, Client>, byDefault: Action, basePath: string)
    returns (data: AccessData, ghost entries: seq<Effective>)
    ensures forall e :: e in entries <==> IsEffective(rules, clients, e)
    ensures ListsHold(data.allow, entries, Allow, basePath) && ListsHold(data.deny, entries, Deny, basePath)
    ensures data.byDefault == byDefault
  {
    var expanded := ExpandRules(rules, clients);
    var allow, deny := Lists({}, {}, {}, {}), Lists({}, {}, {}, {});
    for i := 0 to |expanded|
      invariant ListsHold(allow, expanded[..i], Allow, basePath) && ListsHold(deny, expanded[..i], Deny, basePath)
    {
      var rule := expanded[i];
      assert expanded[..i + 1] == expanded[..i] + [rule];
      AddedHolds(allow, expanded[..i], rule, Allow, basePath);
      AddedHolds(deny, expanded[..i], rule, Deny, basePath);
      if rule.action == Allow { allow := Added(allow, rule.identifier, basePath); }
      else { deny := Added(deny, rule.identifier, basePath); }
    }
    assert expanded[..|expanded|] == expanded;
    return AccessData(allow, deny, byDefault), expanded;
  }

  lemma AddedMask(masks: set<Netmask>, v4: bool, entries: seq<Effective>, e: Effective, action: Action)
    requires MasksHold(masks, v4, entries, action)
    ensures var added := e.action == action && !e.identifier.Presented? && MaskOf(e.identifier).ip.V4? == v4;
            MasksHold(if added then masks + {MaskOf(e.identifier)} else masks, v4, entries + [e], action)
  {
    assert forall x :: x in entries + [e] <==> x in entries || x == e;
    forall m: Netmask
      ensures HasMask(entries + [e], action, m)
              <==> HasMask(entries, action, m)
                   || (e.action == action && !e.identifier.Presented? && MaskOf(e.identifier) == m)
    {
    }
  }

  lemma AddedName(names: set<string>, entries: seq<Effective>, e: Effective, action: Action, name: Hex -> string)
    requires NamesHold(names, entries, action, name)
    ensures var added := e.action == action && e.identifier.Presented?;
            NamesHold(if added then names + {name(e.identifier.id)} else names, entries + [e], action, name)
  {
    assert forall x :: x in entries + [e] <==> x in entries || x == e;
    forall s
      ensures HasName(entries + [e], action, name, s)
              <==> HasName(entries, action, name, s)
                   || (e.action == action && e.identifier.Presented? && s == name(e.identifier.id))
    {
      if e.action == action && e.identifier.Presented? {
        assert e == Effective(action, Presented(e.identifier.id));
      }
    }
  }

  lemma AddedHolds(l: Lists, entries: seq<Effective>, e: Effective, action: Action, basePath: string)
    requires ListsHold(l, entries, action, basePath)
    ensures var added := if e.action == action then Added(l, e.identifier, basePath) else l;
            ListsHold(added, entries + [e], action, basePath)
  {
    AddedMask(l.v4, true, entries, e, action);
    AddedMask(l.v6, false, entries, e, action);
    AddedName(l.sni, entries, e, action, SniName());
    AddedName(l.paths, entries, e, action, PathName(basePath));
  }

  // ----- the Lua loader -----

  datatype Query = Query(source: Ip, sni: Option<string>, path: Option<string>)

  predicate GroupMatches(group: set<Netmask>, a: Ip) { exists m :: m in group && Covers(m, a) }

  predicate ListMatches(l: Lists, q: Query) {
    || GroupMatches(l.v4, q.source)
    || GroupMatches(l.v6, q.source)
    || (q.sni.Some? && q.sni.value in l.sni)
    || (q.path.Some? && q.path.value in l.paths)
  }

  const LOOPBACK4 := Netmask(V4(0x7F00_0001), 32)
  const LOOPBACK6 := Netmask(V6(1), 128)

  /** Deny lists first; then, under default deny only, the gate, with loopback always let through. */
  predicate Refuses(d: AccessData, q: Query) {
    || ListMatches(d.deny, q)
    || (d.byDefault == Deny
        && !ListMatches(d.allow.(v4 := d.allow.v4 + {LOOPBACK4}, v6 := d.allow.v6 + {LOOPBACK6}), q))
  }

  // ----- what a query presents -----

  ghost predicate Carries(q: Query, basePath: string, h: Hex) {
    q.sni == Some(SniHostname(h)) || q.path == Some(DohPath(basePath, h))
  }

  /** The one identifier a query presents by its SNI hostname, its DoH path or both, or none at all. */
  ghost predicate Presents(q: Query, basePath: string, id: Option<Hex>) {
    forall h: Hex :: Carries(q, basePath, h) <==> id == Some(h)
  }

  /** Plain DNS, and DoH on the base path, present nothing. */
  lemma PlainQueryPresentsNothing(q: Query, basePath: string)
    requires q.sni.None? && (q.path.None? || q.path.value == basePath)
    ensures Presents(q, basePath, None)
  {
    forall h: Hex
      ensures DohPath(basePath, h) != basePath
    {
      PlainPathPresentsNothing(basePath, h);
    }
  }

  /** By one way alone an identifier is always presented: hostnames and paths name exactly one. */
  lemma OneWayPresents(q: Query, basePath: string, h: Hex)
    requires (q.sni == Some(SniHostname(h))
             && (q.path.None? || q.path.value == basePath || q.path == Some(DohPath(basePath, h))))
          || (q.sni.None? && q.path == Some(DohPath(basePath, h)))
    ensures Presents(q, basePath, Some(h))
  {
    forall g: Hex
      ensures Carries(q, basePath, g) <==> Some(h) == Some(g)
    {
      PlainPathPresentsNothing(basePath, g);
      if q.sni == Some(SniHostname(g)) { SniInjective(g, h); }
      if q.path == Some(DohPath(basePath, g)) && q.path == Some(DohPath(basePath, h)) {
        DohPathInjective(basePath, g, h);
      }
    }
  }

  lemma ShiftedByNothing(m: Netmask, a: Ip)
    requires m.prefix == Width(m.ip)
    ensures Covers(m, a) <==> m.ip == a
  {
  }

  /** The lists of one action match a query exactly when some rule of that action does. */
  lemma ListsMatchRules(l: Lists, entries: seq<Effective>, action: Action, basePath: string, q: Query, id: Option<Hex>)
    requires ListsHold(l, entries, action, basePath) && Presents(q, basePath, id)
    ensures ListMatches(l, q)
            <==> exists e :: e in entries && e.action == action && Matches(e.identifier, Some(q.source), id)
  {
    if ListMatches(l, q) {
      if GroupMatches(l.v4, q.source) || GroupMatches(l.v6, q.source) {
        var m :| (m in l.v4 || m in l.v6) && Covers(m, q.source);
        var e :| e in entries && e.action == action && !e.identifier.Presented? && MaskOf(e.identifier) == m;
        if e.identifier.Host? { ShiftedByNothing(m, q.source); }
        assert Matches(e.identifier, Some(q.source), id);
      } else if q.sni.Some? && q.sni.value in l.sni {
        assert HasName(entries, action, SniName(), q.sni.value);
        var h: Hex :| Effective(action, Presented(h)) in entries && q.sni.value == SniName()(h);
        assert Carries(q, basePath, h);
        assert Matches(Presented(h), Some(q.source), id);
      } else {
        assert HasName(entries, action, PathName(basePath), q.path.value);
        var h: Hex :| Effective(action, Presented(h)) in entries && q.path.value == PathName(basePath)(h);
        assert Carries(q, basePath, h);
        assert Matches(Presented(h), Some(q.source), id);
      }
    }
    if exists e :: e in entries && e.action == action && Matches(e.identifier, Some(q.source), id) {
      var e :| e in entries && e.action == action && Matches(e.identifier, Some(q.source), id);
      if e.identifier.Presented? {
        assert e == Effective(action, Presented(e.identifier.id)) && Carries(q, basePath, e.identifier.id);
        assert HasName(entries, action, SniName(), SniHostname(e.identifier.id));
        assert HasName(entries, action, PathName(basePath), DohPath(basePath, e.identifier.id));
      } else {
        var m := MaskOf(e.identifier);
        assert HasMask(entries, action, m);
        if e.identifier.Host? { ShiftedByNothing(m, q.source); }
        assert Covers(m, q.source) && (m in l.v4 || m in l.v6);
      }
    }
  }

  /** 127.0.0.1 and ::1 */
  predicate Loopback(a: Ip) { a == V4(127 * 0x100_0000 + 1) || a == V6(1) }

  /**
   The compiled policy refuses a query exactly when evaluation denies it, except that a
   loopback source passes the default-deny gate when no deny rule matches it.
   */
  lemma CompiledPolicyExact(d: AccessData, entries: seq<Effective>, rules: seq<Rule>, clients: map<nat, Client>,
      basePath: string, q: Query, id: Option<Hex>)
    requires forall e :: e in entries <==> IsEffective(rules, clients, e)
    requires ListsHold(d.allow, entries, Allow, basePath) && ListsHold(d.deny, entries, Deny, basePath)
    requires Presents(q, basePath, id)
    ensures Refuses(d, q)
            <==> !Permitted(rules, clients, d.byDefault, Some(q.source), id)
                 && (d.byDefault == Deny && Loopback(q.source) ==> AnyMatch(rules, clients, Deny, Some(q.source), id))
  {
    ListsMatchRules(d.deny, entries, Deny, basePath, q, id);
    ListsMatchRules(d.allow, entries, Allow, basePath, q, id);
    ShiftedByNothing(LOOPBACK4, q.source);
    ShiftedByNothing(LOOPBACK6, q.source);
    var gate := d.allow.(v4 := d.allow.v4 + {LOOPBACK4}, v6 := d.allow.v6 + {LOOPBACK6});
    assert ListMatches(gate, q) <==> ListMatches(d.allow, q) || Loopback(q.source) by {
      assert LOOPBACK4 in gate.v4 && LOOPBACK6 in gate.v6;
    }
  }

  /** Deployment and preview side by side, for every query. */
  method CompileAccess(rules: seq<Rule>, clients: map<nat, Client>, byDefault: Action, basePath: string)
    returns (d: AccessData)
    ensures forall q: Query, id: Option<Hex> :: Presents(q, basePath, id) ==>
              (Refuses(d, q)
               <==> !Permitted(rules, clients, byDefault, Some(q.source), id)
                    && (byDefault == Deny && Loopback(q.source) ==> AnyMatch(rules, clients, Deny, Some(q.source), id)))
  {
    ghost var entries;
    d, entries := RenderAccessData(rules, clients, byDefault, basePath);
    forall q: Query, id: Option<Hex> | Presents(q, basePath, id)
      ensures Refuses(d, q)
              <==> !Permitted(rules, clients, byDefault, Some(q.source), id)
                   && (byDefault == Deny && Loopback(q.source) ==> AnyMatch(rules, clients, Deny, Some(q.source), id))
    {
      CompiledPolicyExact(d, entries, rules, clients, basePath, q, id);
    }
  }
}
