/**
 The client tables (app/clients.py): persistent clients, their identifiers, access
 rules, and the legacy alias table (app/local_dns.py) that every initialisation
 copies from again.
 */
module ClientRegistry {
  import opened Wrappers
  import AccessPolicy

  type Identifier = AccessPolicy.Identifier
  type Netmask = AccessPolicy.Netmask

  datatype ClientRow = ClientRow(name: string, enabled: bool)
  datatype IdentifierRow = IdentifierRow(client: nat, value: Identifier)
  datatype RuleRow = RuleRow(action: AccessPolicy.Action, client: Option<nat>, value: Option<Identifier>)
  datatype AliasRow = AliasRow(network: Netmask, name: string)

  /** Tables by rowid; the alias table, one row per canonical network, in the order it is read. */
  datatype Db = Db(
    clients: map<nat, ClientRow>,
    identifiers: map<nat, IdentifierRow>,
    rules: map<nat, RuleRow>,
    aliases: seq<AliasRow>)

  lemma {:induction false} HasMaximum(keys: set<nat>)
    requires keys != {}
    ensures exists top :: top in keys && forall k :: k in keys ==> k <= top
    decreases |keys|
  {
    var some :| some in keys;
    var others := keys - {some};
    assert forall k :: k in keys <==> k in others || k == some;
    if others == {} {
      assert forall k :: k in keys ==> k <= some;
    } else {
      HasMaximum(others);
      var top :| top in others && forall k :: k in others ==> k <= top;
      var higher := if top < some then some else top;
      assert higher in keys && forall k :: k in keys ==> k <= higher;
    }
  }

  /** The rowid of a new row: the largest one present plus one. */
  function NextId(keys: set<nat>): (n: nat)
    ensures forall k :: k in keys ==> k < n
  {
    if keys == {} then 1
    else
      HasMaximum(keys);
      var top :| top in keys && forall k :: k in keys ==> k <= top;
      top + 1
  }

  predicate Assigned(db: Db, v: Identifier) { exists i :: i in db.identifiers && db.identifiers[i].value == v }

  predicate Listed(aliases: seq<AliasRow>, m: Netmask) { exists k :: 0 <= k < |aliases| && aliases[k].network == m }

  predicate HasRule(db: Db, row: RuleRow) { exists i :: i in db.rules && db.rules[i] == row }

  function WithClient(db: Db, row: ClientRow): Db { db.(clients := db.clients[NextId(db.clients.Keys) := row]) }

  function WithIdentifier(db: Db, row: IdentifierRow): Db {
    db.(identifiers := db.identifiers[NextId(db.identifiers.Keys) := row])
  }

  // ----- migration -----

  /** An alias becomes a client with one network identifier, unless that identifier exists. */
  function MigrateAlias(db: Db, a: AliasRow): Db {
    var v := AccessPolicy.Cidr(a.network);
    if Assigned(db, v) then db
    else WithIdentifier(WithClient(db, ClientRow(a.name, true)), IdentifierRow(NextId(db.clients.Keys), v))
  }

  function MigrateAll(db: Db, aliases: seq<AliasRow>): Db {
    if |aliases| == 0 then db else MigrateAlias(MigrateAll(db, aliases[..|aliases| - 1]), aliases[|aliases| - 1])
  }

  function Migrated(db: Db): Db { MigrateAll(db, db.aliases) }

  // ----- deletion -----

  /** The aliases an identifier was, or could have been, migrated from. */
  function Origins(identifiers: map<nat, IdentifierRow>, client: nat): set<Netmask> {
    set i | i in identifiers && identifiers[i].client == client && !identifiers[i].value.Presented?
      :: AccessPolicy.MaskOf(identifiers[i].value)
  }

  function Without(aliases: seq<AliasRow>, retired: set<Netmask>): (kept: seq<AliasRow>)
    ensures forall m :: Listed(kept, m) <==> Listed(aliases, m) && m !in retired
  {
    if |aliases| == 0 then []
    else
      var last := aliases[|aliases| - 1];
      var rest := Without(aliases[..|aliases| - 1], retired);
      WithoutStep(aliases, rest, retired);
      if last.network in retired then rest else rest + [last]
  }

  lemma WithoutStep(aliases: seq<AliasRow>, rest: seq<AliasRow>, retired: set<Netmask>)
    requires |aliases| > 0
    requires forall m :: Listed(rest, m) <==> Listed(aliases[..|aliases| - 1], m) && m !in retired
    ensures var last := aliases[|aliases| - 1];
            forall m :: Listed(if last.network in retired then rest else rest + [last], m)
                <==> Listed(aliases, m) && m !in retired
  {
    var last := aliases[|aliases| - 1];
    var kept := if last.network in retired then rest else rest + [last];
    forall m
      ensures Listed(kept, m) <==> Listed(aliases, m) && m !in retired
    {
      ListedSplit(aliases, m);
      if last.network !in retired { ListedSplit(kept, m); assert kept[..|kept| - 1] == rest; }
    }
  }

  lemma ListedSplit(aliases: seq<AliasRow>, m: Netmask)
    requires |aliases| > 0
    ensures Listed(aliases, m) <==> Listed(aliases[..|aliases| - 1], m) || aliases[|aliases| - 1].network == m
  {
    if Listed(aliases[..|aliases| - 1], m) {
      var k :| 0 <= k < |aliases| - 1 && aliases[..|aliases| - 1][k].network == m;
      assert aliases[k].network == m;
    }
    if Listed(aliases, m) && aliases[|aliases| - 1].network != m {
      var k :| 0 <= k < |aliases| && aliases[k].network == m;
      assert aliases[..|aliases| - 1][k].network == m;
    }
  }

  // ----- operations -----

  datatype Operation =
    | InitDb
    | CreateClient(row: ClientRow, identifiers: seq<Identifier>)
    | UpdateClient(client: nat, row: ClientRow)
    | DeleteClient(client: nat)
    | AddIdentifier(client: nat, value: Identifier)
    | RemoveIdentifier(id: nat)
    | AddRule(rule: RuleRow)
    | RemoveRule(id: nat)
    | UpsertAlias(network: Netmask, name: string)
    | DeleteAlias(network: Netmask)

  /** Inserts every identifier for a client, or fails at the first one already assigned. */
  function InsertAll(db: Db, client: nat, ids: seq<Identifier>): Option<Db> {
    if |ids| == 0 then Some(db)
    else
      match InsertAll(db, client, ids[..|ids| - 1])
      case None => None
      case Some(d) =>
        var v := ids[|ids| - 1];
        if Assigned(d, v) then None else Some(WithIdentifier(d, IdentifierRow(client, v)))
  }

  function ClientCreated(m: Db, row: ClientRow, ids: seq<Identifier>): Option<Db> {
    InsertAll(WithClient(m, row), NextId(m.clients.Keys), ids)
  }

  function ClientDeleted(m: Db, c: nat): Db {
    Db(m.clients - {c},
       map i | i in m.identifiers && m.identifiers[i].client != c :: m.identifiers[i],
       map i | i in m.rules && m.rules[i].client != Some(c) :: m.rules[i],
       Without(m.aliases, Origins(m.identifiers, c)))
  }

  function IdentifierRemoved(m: Db, id: nat): Db
    requires id in m.identifiers
  {
    var v := m.identifiers[id].value;
    m.(identifiers := m.identifiers - {id},
       aliases := if v.Presented? then m.aliases else Without(m.aliases, {AccessPolicy.MaskOf(v)}))
  }

  function AliasStored(aliases: seq<AliasRow>, m: Netmask, name: string): (stored: seq<AliasRow>)
    ensures forall n :: Listed(stored, n) <==> Listed(aliases, n) || n == m
  {
    if |aliases| == 0 then
      var stored := [AliasRow(m, name)];
      assert stored[0].network == m;
      stored
    else
      var last := aliases[|aliases| - 1];
      var front := aliases[..|aliases| - 1];
      var stored := if last.network == m then front + [AliasRow(m, name)] else AliasStored(front, m, name) + [last];
      assert forall n :: Listed(stored, n) <==> Listed(aliases, n) || n == m by {
        forall n
          ensures Listed(stored, n) <==> Listed(aliases, n) || n == m
        {
          ListedSplit(aliases, n);
          ListedSplit(stored, n);
          assert stored[..|stored| - 1] == if last.network == m then front else AliasStored(front, m, name);
        }
      }
      stored
  }

  /** A client rule must name an existing client; a stored rule names a client or a value. */
  predicate RuleAccepted(m: Db, rule: RuleRow) {
    && rule.client.Some? != rule.value.Some?
    && (rule.client.Some? ==> rule.client.value in m.clients)
    && !HasRule(m, rule)
  }

  /** A failing operation leaves only the migration behind: its own transaction is rolled back. */
  function Applied(db: Db, op: Operation): Db {
    var m := Migrated(db);
    match op
    case InitDb => m
    case CreateClient(row, ids) => ClientCreated(m, row, ids).GetOr(m)
    case UpdateClient(c, row) => if c in m.clients then m.(clients := m.clients[c := row]) else m
    case DeleteClient(c) => if c in m.clients then ClientDeleted(m, c) else m
    case AddIdentifier(c, v) => if c in m.clients && !Assigned(m, v) then WithIdentifier(m, IdentifierRow(c, v)) else m
    case RemoveIdentifier(id) => if id in m.identifiers then IdentifierRemoved(m, id) else m
    case AddRule(rule) => if RuleAccepted(m, rule) then m.(rules := m.rules[NextId(m.rules.Keys) := rule]) else m
    case RemoveRule(id) => m.(rules := m.rules - {id})
    // the alias functions belong to Local DNS and do not run the migration
    case UpsertAlias(n, name) => db.(aliases := AliasStored(db.aliases, n, name))
    case DeleteAlias(n) => db.(aliases := Without(db.aliases, {n}))
  }

  function AppliedAll(db: Db, ops: seq<Operation>): Db {
    if |ops| == 0 then db else Applied(AppliedAll(db, ops[..|ops| - 1]), ops[|ops| - 1])
  }

  // ----- what every run keeps -----

  predicate UniqueIdentifiers(db: Db) {
    forall i, j | i in db.identifiers && j in db.identifiers ::
      db.identifiers[i].value == db.identifiers[j].value ==> i == j
  }

  predicate RulesRefer(db: Db) {
    forall i :: i in db.rules && db.rules[i].client.Some? ==> db.rules[i].client.value in db.clients
  }

  predicate IdentifiersOwned(db: Db) { forall i :: i in db.identifiers ==> db.identifiers[i].client in db.clients }

  predicate UniqueRules(db: Db) {
    forall i, j :: i in db.rules && j in db.rules && db.rules[i] == db.rules[j] ==> i == j
  }

  predicate Consistent(db: Db) { UniqueIdentifiers(db) && RulesRefer(db) && IdentifiersOwned(db) && UniqueRules(db) }

  lemma WithIdentifierAssigned(db: Db, row: IdentifierRow)
    ensures forall w :: Assigned(WithIdentifier(db, row), w) <==> Assigned(db, w) || w == row.value
  {
    var d, n := WithIdentifier(db, row), NextId(db.identifiers.Keys);
    assert n in d.identifiers && d.identifiers[n] == row;
    forall w
      ensures Assigned(d, w) <==> Assigned(db, w) || w == row.value
    {
      if Assigned(db, w) {
        var i :| i in db.identifiers && db.identifiers[i].value == w;
        assert i in d.identifiers && d.identifiers[i].value == w;
      }
    }
  }

  lemma WithIdentifierConsistent(db: Db, row: IdentifierRow)
    requires Consistent(db) && row.client in db.clients && !Assigned(db, row.value)
    ensures Consistent(WithIdentifier(db, row))
  {
  }

  lemma {:induction false} MigrateAllKeeps(db: Db, aliases: seq<AliasRow>)
    requires Consistent(db)
    ensures Consistent(MigrateAll(db, aliases)) && MigrateAll(db, aliases).aliases == db.aliases
    ensures MigrateAll(db, aliases).rules == db.rules && db.clients.Keys <= MigrateAll(db, aliases).clients.Keys
  {
    if |aliases| > 0 {
      MigrateAllKeeps(db, aliases[..|aliases| - 1]);
      var d, a := MigrateAll(db, aliases[..|aliases| - 1]), aliases[|aliases| - 1];
      if !Assigned(d, AccessPolicy.Cidr(a.network)) {
        var c := WithClient(d, ClientRow(a.name, true));
        assert Consistent(c);
        WithIdentifierConsistent(c, IdentifierRow(NextId(d.clients.Keys), AccessPolicy.Cidr(a.network)));
      }
    }
  }

  lemma {:induction false} MigrateAllAssigned(db: Db, aliases: seq<AliasRow>)
    ensures forall v ::
              Assigned(MigrateAll(db, aliases), v) <==> Assigned(db, v) || (v.Cidr? && Listed(aliases, v.mask))
  {
    if |aliases| > 0 {
      var front, a := aliases[..|aliases| - 1], aliases[|aliases| - 1];
      MigrateAllAssigned(db, front);
      var d := MigrateAll(db, front);
      var row := IdentifierRow(NextId(d.clients.Keys), AccessPolicy.Cidr(a.network));
      WithIdentifierAssigned(WithClient(d, ClientRow(a.name, true)), row);
      forall v: Identifier
        ensures Assigned(MigrateAll(db, aliases), v) <==> Assigned(db, v) || (v.Cidr? && Listed(aliases, v.mask))
      {
        assert Assigned(WithClient(d, ClientRow(a.name, true)), v) <==> Assigned(d, v);
        if v.Cidr? { ListedSplit(aliases, v.mask); }
      }
    }
  }

  /** After a migration exactly the aliased networks are assigned besides what was. */
  lemma MigratedAssigned(db: Db, v: Identifier)
    ensures Assigned(Migrated(db), v) <==> Assigned(db, v) || (v.Cidr? && Listed(db.aliases, v.mask))
  {
    MigrateAllAssigned(db, db.aliases);
  }

  lemma {:induction false} MigrateNothing(db: Db, aliases: seq<AliasRow>)
    requires forall k :: 0 <= k < |aliases| ==> Assigned(db, AccessPolicy.Cidr(aliases[k].network))
    ensures MigrateAll(db, aliases) == db
  {
    if |aliases| > 0 { MigrateNothing(db, aliases[..|aliases| - 1]); }
  }

  /** Repeating the migration changes nothing. */
  lemma MigrationIdempotent(db: Db)
    requires Consistent(db)
    ensures Migrated(Migrated(db)) == Migrated(db)
  {
    MigrateAllKeeps(db, db.aliases);
    MigrateAllAssigned(db, db.aliases);
    forall k | 0 <= k < |db.aliases|
      ensures Assigned(Migrated(db), AccessPolicy.Cidr(db.aliases[k].network))
    {
      assert Listed(db.aliases, db.aliases[k].network);
    }
    MigrateNothing(Migrated(db), db.aliases);
  }

  lemma {:induction false} InsertAllKeeps(db: Db, client: nat, ids: seq<Identifier>)
    requires Consistent(db) && client in db.clients
    ensures var r := InsertAll(db, client, ids);
            r.Some? ==> Consistent(r.value) && r.value.clients == db.clients && r.value.aliases == db.aliases
                        && forall v :: Assigned(r.value, v) <==> Assigned(db, v) || v in ids
  {
    if |ids| > 0 {
      var front, v := ids[..|ids| - 1], ids[|ids| - 1];
      assert ids == front + [v];
      InsertAllKeeps(db, client, front);
      var before := InsertAll(db, client, front);
      if before.Some? && !Assigned(before.value, v) {
        WithIdentifierConsistent(before.value, IdentifierRow(client, v));
        WithIdentifierAssigned(before.value, IdentifierRow(client, v));
      }
    }
  }

  lemma ClientDeletedConsistent(m: Db, c: nat)
    requires Consistent(m)
    ensures Consistent(ClientDeleted(m, c))
  {
  }

  /** Every operation keeps identifiers and rules unique, owned and referring to existing clients. */
  lemma ConsistentStep(db: Db, op: Operation)
    requires Consistent(db)
    ensures Consistent(Applied(db, op))
  {
    MigrateAllKeeps(db, db.aliases);
    var m := Migrated(db);
    match op
    case CreateClient(row, ids) =>
      assert Consistent(WithClient(m, row));
      InsertAllKeeps(WithClient(m, row), NextId(m.clients.Keys), ids);
    case DeleteClient(c) => ClientDeletedConsistent(m, c);
    case AddIdentifier(c, v) =>
      if c in m.clients && !Assigned(m, v) { WithIdentifierConsistent(m, IdentifierRow(c, v)); }
    case _ =>
  }

  lemma {:induction false} ConsistentRun(db: Db, ops: seq<Operation>)
    requires Consistent(db)
    ensures Consistent(AppliedAll(db, ops))
  {
    if |ops| > 0 {
      ConsistentRun(db, ops[..|ops| - 1]);
      ConsistentStep(AppliedAll(db, ops[..|ops| - 1]), ops[|ops| - 1]);
    }
  }

  // ----- what each operation stores, and what it leaves alone -----

  /** A row under a new number, every other row as it was. */
  ghost predicate OneMore<T(!new)>(before: map<nat, T>, after: map<nat, T>, row: T) {
    exists n: nat :: n !in before && after == before[n := row]
  }

  lemma NextIdIsNew(keys: set<nat>)
    ensures NextId(keys) !in keys
  {
    assert NextId(keys) in keys ==> NextId(keys) < NextId(keys);
  }

  /** Adding an identifier stores it for the client if nobody has it, and changes nothing else. */
  lemma AddIdentifierStores(db: Db, c: nat, v: Identifier)
    ensures var m, after := Migrated(db), Applied(db, AddIdentifier(c, v));
            && after.clients == m.clients && after.rules == m.rules && after.aliases == m.aliases
            && if c in m.clients && (forall i :: i in m.identifiers ==> m.identifiers[i].value != v)
               then OneMore(m.identifiers, after.identifiers, IdentifierRow(c, v))
               else after.identifiers == m.identifiers
  {
    var m := Migrated(db);
    var n := NextId(m.identifiers.Keys);
    NextIdIsNew(m.identifiers.Keys);
    assert n !in m.identifiers;
  }

  /** Adding a rule stores it if it is new and any client it names exists, and changes nothing else. */
  lemma AddRuleStores(db: Db, rule: RuleRow)
    requires rule.client.Some? != rule.value.Some?
    ensures var m, after := Migrated(db), Applied(db, AddRule(rule));
            && after.clients == m.clients && after.identifiers == m.identifiers && after.aliases == m.aliases
            && if (rule.client.Some? ==> rule.client.value in m.clients)
                  && forall i :: i in m.rules ==> m.rules[i] != rule
               then OneMore(m.rules, after.rules, rule)
               else after.rules == m.rules
  {
    var m := Migrated(db);
    NextIdIsNew(m.rules.Keys);
    assert NextId(m.rules.Keys) !in m.rules;
  }

  /** Removing a rule, and updating a client, touch that row alone. */
  lemma OneRowTouched(db: Db, id: nat, c: nat, row: ClientRow)
    ensures var m, after := Migrated(db), Applied(db, RemoveRule(id));
            && after.clients == m.clients && after.identifiers == m.identifiers && after.aliases == m.aliases
            && id !in after.rules && forall i :: i != id ==> Lookup(after.rules, i) == Lookup(m.rules, i)
    ensures var m, after := Migrated(db), Applied(db, UpdateClient(c, row));
            && after.identifiers == m.identifiers && after.rules == m.rules && after.aliases == m.aliases
            && Lookup(after.clients, c) == (if c in m.clients then Some(row) else None)
            && forall i :: i != c ==> Lookup(after.clients, i) == Lookup(m.clients, i)
  {
  }

  /** The identifiers are distinct and nobody has any of them. */
  predicate AllFree(m: Db, ids: seq<Identifier>) {
    && (forall j, k :: 0 <= j < k < |ids| ==> ids[j] != ids[k])
    && (forall i, k :: i in m.identifiers && 0 <= k < |ids| ==> m.identifiers[i].value != ids[k])
  }

  /** The rows kept, and every identifier of the list stored for the client. */
  ghost predicate StoredFor(m: Db, after: Db, client: nat, ids: seq<Identifier>) {
    && (forall i :: i in m.identifiers ==> Lookup(after.identifiers, i) == Some(m.identifiers[i]))
    && (forall i :: i in after.identifiers && i !in m.identifiers ==>
                      after.identifiers[i].client == client && after.identifiers[i].value in ids)
    && (forall k :: 0 <= k < |ids| ==> HasIdentifier(after, IdentifierRow(client, ids[k])))
  }

  predicate HasIdentifier(db: Db, row: IdentifierRow) { exists i :: i in db.identifiers && db.identifiers[i] == row }

  lemma {:induction false} InsertAllStores(db: Db, client: nat, ids: seq<Identifier>)
    ensures var r := InsertAll(db, client, ids);
            && (r.Some? <==> AllFree(db, ids))
            && (r.Some? ==> r.value.clients == db.clients && r.value.rules == db.rules && r.value.aliases == db.aliases
                            && StoredFor(db, r.value, client, ids))
  {
    if |ids| > 0 {
      var front, v := ids[..|ids| - 1], ids[|ids| - 1];
      assert ids == front + [v];
      InsertAllStores(db, client, front);
      var before := InsertAll(db, client, front);
      if before.Some? {
        AssignedAfter(db, before.value, client, front, v);
        if !Assigned(before.value, v) {
          InsertOneStores(db, before.value, client, front, v);
        }
      }
    }
  }

  lemma AssignedAfter(db: Db, before: Db, client: nat, front: seq<Identifier>, v: Identifier)
    requires StoredFor(db, before, client, front) && AllFree(db, front)
    ensures AllFree(db, front + [v]) <==> !Assigned(before, v)
  {
    if Assigned(before, v) {
      var i :| i in before.identifiers && before.identifiers[i].value == v;
      if i in db.identifiers {
        assert db.identifiers[i].value == (front + [v])[|front|];
      } else {
        var k :| 0 <= k < |front| && front[k] == v;
        assert (front + [v])[k] == (front + [v])[|front|];
      }
    } else {
      forall i | i in db.identifiers
        ensures db.identifiers[i].value != v
      {
        assert Lookup(before.identifiers, i) == Some(db.identifiers[i]);
      }
      forall k | 0 <= k < |front|
        ensures front[k] != v
      {
        assert HasIdentifier(before, IdentifierRow(client, front[k]));
      }
    }
  }

  lemma InsertOneStores(db: Db, before: Db, client: nat, front: seq<Identifier>, v: Identifier)
    requires StoredFor(db, before, client, front)
    ensures StoredFor(db, WithIdentifier(before, IdentifierRow(client, v)), client, front + [v])
  {
    var n := NextId(before.identifiers.Keys);
    var after := WithIdentifier(before, IdentifierRow(client, v));
    NextIdIsNew(before.identifiers.Keys);
    forall i | i in db.identifiers
      ensures Lookup(after.identifiers, i) == Some(db.identifiers[i])
    {
      assert Lookup(before.identifiers, i) == Some(db.identifiers[i]);
    }
    forall k | 0 <= k < |front + [v]|
      ensures HasIdentifier(after, IdentifierRow(client, (front + [v])[k]))
    {
      if k < |front| {
        assert HasIdentifier(before, IdentifierRow(client, front[k]));
        var i :| i in before.identifiers && before.identifiers[i] == IdentifierRow(client, front[k]);
        assert after.identifiers[i] == IdentifierRow(client, (front + [v])[k]);
      } else {
        assert after.identifiers[n] == IdentifierRow(client, (front + [v])[k]);
      }
    }
  }

  /**
   Creating a client stores its row under a new number and all its identifiers for it, exactly when
   they are distinct and free; otherwise nothing but the migration happens. Other rows stay.
   */
  lemma CreateClientStores(db: Db, row: ClientRow, ids: seq<Identifier>)
    ensures var m, after := Migrated(db), Applied(db, CreateClient(row, ids));
            && after.rules == m.rules && after.aliases == m.aliases
            && if AllFree(m, ids)
               then exists c: nat :: c !in m.clients && after.clients == m.clients[c := row]
                                     && StoredFor(m, after, c, ids)
               else after == m
  {
    var m := Migrated(db);
    var c := NextId(m.clients.Keys);
    NextIdIsNew(m.clients.Keys);
    InsertAllStores(WithClient(m, row), c, ids);
  }

  /** Deleting a client touches only its own rows, and of the aliases those its address identifiers stand for. */
  lemma DeletionKeepsOthers(db: Db, c: nat)
    ensures var m, after := Migrated(db), Applied(db, DeleteClient(c));
            && (forall k :: Lookup(after.clients, k) == if k == c then None else Lookup(m.clients, k))
            && (c in m.clients ==>
                  && (forall i :: Lookup(after.identifiers, i)
                                  == if i in m.identifiers && m.identifiers[i].client == c then None
                                     else Lookup(m.identifiers, i))
                  && (forall i :: Lookup(after.rules, i)
                                  == if i in m.rules && m.rules[i].client == Some(c) then None else Lookup(m.rules, i))
                  && (forall a :: a in after.aliases <==>
                        a in m.aliases
                        && !exists i :: i in m.identifiers && m.identifiers[i].client == c
                                        && StandsFor(m.identifiers[i].value, a.network)))
            && (c !in m.clients ==> after == m)
  {
    var m := Migrated(db);
    if c in m.clients {
      forall a: AliasRow
        ensures a.network in Origins(m.identifiers, c)
                <==> exists i :: i in m.identifiers && m.identifiers[i].client == c
                                 && StandsFor(m.identifiers[i].value, a.network)
        ensures a in Without(m.aliases, Origins(m.identifiers, c))
                <==> a in m.aliases && a.network !in Origins(m.identifiers, c)
      {
        WithoutRows(m.aliases, Origins(m.identifiers, c), a);
      }
    }
  }

  /** An address identifier and the network of an alias: the same network, or the host's own. */
  predicate StandsFor(v: Identifier, n: Netmask) {
    match v
    case Host(ip) => n == AccessPolicy.Netmask(ip, if ip.V4? then 32 else 128)
    case Cidr(mask) => n == mask
    case Presented(_) => false
  }

  lemma {:induction false} WithoutRows(aliases: seq<AliasRow>, retired: set<Netmask>, a: AliasRow)
    ensures a in Without(aliases, retired) <==> a in aliases && a.network !in retired
  {
    if |aliases| > 0 {
      var front, last := aliases[..|aliases| - 1], aliases[|aliases| - 1];
      WithoutRows(front, retired, a);
      assert aliases == front + [last];
    }
  }

  /** Removing an identifier touches that row alone, and the alias it stands for. */
  lemma RemovalKeepsOthers(db: Db, id: nat)
    ensures var m, after := Migrated(db), Applied(db, RemoveIdentifier(id));
            && after.clients == m.clients && after.rules == m.rules
            && (forall i :: Lookup(after.identifiers, i) == if i == id then None else Lookup(m.identifiers, i))
            && forall a :: a in after.aliases <==>
                             a in m.aliases && !(id in m.identifiers && StandsFor(m.identifiers[id].value, a.network))
  {
    var m := Migrated(db);
    if id in m.identifiers && !m.identifiers[id].value.Presented? {
      forall a: AliasRow
        ensures a in Without(m.aliases, {AccessPolicy.MaskOf(m.identifiers[id].value)})
                <==> a in m.aliases && a.network != AccessPolicy.MaskOf(m.identifiers[id].value)
      {
        WithoutRows(m.aliases, {AccessPolicy.MaskOf(m.identifiers[id].value)}, a);
      }
    }
  }

  /** The network belongs to an enabled client with this name. */
  predicate NamedNetwork(m: Db, a: AliasRow) {
    exists i :: i in m.identifiers && m.identifiers[i].value == AccessPolicy.Cidr(a.network)
                && Lookup(m.clients, m.identifiers[i].client) == Some(ClientRow(a.name, true))
  }

  /** Migration keeps every row; a network nobody had gets an enabled client with its alias' name. */
  lemma {:induction false} MigrationStores(db: Db, aliases: seq<AliasRow>, k: nat)
    requires k < |aliases| && forall j :: 0 <= j < k ==> aliases[j].network != aliases[k].network
    ensures var m := MigrateAll(db, aliases);
            && (forall c :: c in db.clients ==> Lookup(m.clients, c) == Some(db.clients[c]))
            && (forall i :: i in db.identifiers ==> Lookup(m.identifiers, i) == Some(db.identifiers[i]))
            && (!Assigned(db, AccessPolicy.Cidr(aliases[k].network)) ==> NamedNetwork(m, aliases[k]))
  {
    var front, last := aliases[..|aliases| - 1], aliases[|aliases| - 1];
    var before, v := MigrateAll(db, front), AccessPolicy.Cidr(aliases[k].network);
    if k < |front| {
      MigrationStores(db, front, k);
      MigrateAliasKeeps(before, last);
      if !Assigned(db, v) {
        assert front[k] == aliases[k] && NamedNetwork(before, aliases[k]);
        StillNamed(before, MigrateAlias(before, last), aliases[k]);
      }
    } else {
      MigrationKeeps(db, front);
      MigrateAliasKeeps(before, last);
      if !Assigned(db, v) {
        MigrateAllAssigned(db, front);
        assert !Listed(front, last.network);
        MigrateAliasStores(before, last);
      }
    }
  }

  lemma StillNamed(before: Db, after: Db, a: AliasRow)
    requires NamedNetwork(before, a)
    requires forall c :: c in before.clients ==> Lookup(after.clients, c) == Some(before.clients[c])
    requires forall i :: i in before.identifiers ==> Lookup(after.identifiers, i) == Some(before.identifiers[i])
    ensures NamedNetwork(after, a)
  {
    var i :| i in before.identifiers && before.identifiers[i].value == AccessPolicy.Cidr(a.network)
      && Lookup(before.clients, before.identifiers[i].client) == Some(ClientRow(a.name, true));
    assert Lookup(after.identifiers, i) == Some(before.identifiers[i]);
    assert Lookup(after.clients, before.identifiers[i].client) == Some(ClientRow(a.name, true));
  }

  lemma MigrateAliasKeeps(db: Db, a: AliasRow)
    ensures forall c :: c in db.clients ==> Lookup(MigrateAlias(db, a).clients, c) == Some(db.clients[c])
    ensures forall i :: i in db.identifiers ==> Lookup(MigrateAlias(db, a).identifiers, i) == Some(db.identifiers[i])
  {
    NextIdIsNew(db.clients.Keys);
    NextIdIsNew(db.identifiers.Keys);
  }

  lemma {:induction false} MigrationKeeps(db: Db, aliases: seq<AliasRow>)
    ensures var m := MigrateAll(db, aliases);
            && (forall c :: c in db.clients ==> Lookup(m.clients, c) == Some(db.clients[c]))
            && (forall i :: i in db.identifiers ==> Lookup(m.identifiers, i) == Some(db.identifiers[i]))
  {
    if |aliases| > 0 {
      MigrationKeeps(db, aliases[..|aliases| - 1]);
      MigrateAliasKeeps(MigrateAll(db, aliases[..|aliases| - 1]), aliases[|aliases| - 1]);
    }
  }

  lemma MigrateAliasStores(db: Db, a: AliasRow)
    requires !Assigned(db, AccessPolicy.Cidr(a.network))
    ensures var m := MigrateAlias(db, a);
            NamedNetwork(m, a)
  {
    var m, i := MigrateAlias(db, a), NextId(db.identifiers.Keys);
    assert i in m.identifiers
        && m.identifiers[i] == IdentifierRow(NextId(db.clients.Keys), AccessPolicy.Cidr(a.network));
  }

  /** Storing an alias renames the row of its network, or adds one; the other rows stay. */
  lemma {:induction false} AliasStoredRows(aliases: seq<AliasRow>, n: Netmask, name: string, a: AliasRow)
    requires forall j, k :: 0 <= j < k < |aliases| ==> aliases[j].network != aliases[k].network
    ensures a in AliasStored(aliases, n, name) <==> if a.network == n then a.name == name else a in aliases
  {
    if |aliases| > 0 {
      var front, last := aliases[..|aliases| - 1], aliases[|aliases| - 1];
      assert aliases == front + [last];
      AliasStoredRows(front, n, name, a);
    }
  }

  // ----- deleted identifiers stay deleted -----

  /** Neither assigned now nor about to be by the next migration. */
  predicate Gone(db: Db, v: Identifier) { !Assigned(db, v) && (v.Cidr? ==> !Listed(db.aliases, v.mask)) }

  /** The operations by which an administrator adds this identifier, or its alias, again. */
  predicate AddsAgain(op: Operation, v: Identifier) {
    || (op.CreateClient? && v in op.identifiers)
    || (op.AddIdentifier? && op.value == v)
    || (op.UpsertAlias? && v == AccessPolicy.Cidr(op.network))
  }

  lemma GoneStep(db: Db, op: Operation, v: Identifier)
    requires Consistent(db) && Gone(db, v) && !AddsAgain(op, v)
    ensures Gone(Applied(db, op), v)
  {
    MigrateAllKeeps(db, db.aliases);
    MigratedAssigned(db, v);
    var m := Migrated(db);
    match op
    case CreateClient(row, ids) =>
      assert Consistent(WithClient(m, row));
      InsertAllKeeps(WithClient(m, row), NextId(m.clients.Keys), ids);
      assert Assigned(WithClient(m, row), v) <==> Assigned(m, v);
    case AddIdentifier(c, w) => WithIdentifierAssigned(m, IdentifierRow(c, w));
    case _ =>
  }

  /** Deleting a client takes its identifiers, its rules and their aliases with it. */
  lemma DeletedIsGone(db: Db, c: nat, id: nat)
    requires Consistent(db)
    requires id in Migrated(db).identifiers && Migrated(db).identifiers[id].client == c
    ensures var after := Applied(db, DeleteClient(c));
            c !in after.clients && Gone(after, Migrated(db).identifiers[id].value)
            && forall i :: i in after.rules ==> after.rules[i].client != Some(c)
  {
    MigrateAllKeeps(db, db.aliases);
    var m := Migrated(db);
    var v := m.identifiers[id].value;
    if v.Cidr? { assert AccessPolicy.MaskOf(v) in Origins(m.identifiers, c); }
  }

  lemma RemovedIsGone(db: Db, id: nat)
    requires Consistent(db) && id in Migrated(db).identifiers
    ensures Gone(Applied(db, RemoveIdentifier(id)), Migrated(db).identifiers[id].value)
  {
    MigrateAllKeeps(db, db.aliases);
  }

  lemma {:induction false} GoneRun(db: Db, ops: seq<Operation>, v: Identifier)
    requires Consistent(db) && Gone(db, v)
    requires forall k :: 0 <= k < |ops| ==> !AddsAgain(ops[k], v)
    ensures Gone(AppliedAll(db, ops), v)
  {
    if |ops| > 0 {
      GoneRun(db, ops[..|ops| - 1], v);
      ConsistentRun(db, ops[..|ops| - 1]);
      GoneStep(AppliedAll(db, ops[..|ops| - 1]), ops[|ops| - 1], v);
    }
  }

  /** No later run of operations, migrations included, brings a deleted client's identifier back. */
  lemma NoZombieClient(db: Db, c: nat, id: nat, ops: seq<Operation>)
    requires Consistent(db)
    requires id in Migrated(db).identifiers && Migrated(db).identifiers[id].client == c
    requires forall k :: 0 <= k < |ops| ==> !AddsAgain(ops[k], Migrated(db).identifiers[id].value)
    ensures !Assigned(AppliedAll(Applied(db, DeleteClient(c)), ops), Migrated(db).identifiers[id].value)
  {
    DeletedIsGone(db, c, id);
    ConsistentStep(db, DeleteClient(c));
    GoneRun(Applied(db, DeleteClient(c)), ops, Migrated(db).identifiers[id].value);
  }

  /** Adding the alias again does bring the network identifier back. */
  lemma AliasReturns(db: Db, n: Netmask, name: string)
    ensures Assigned(Applied(Applied(db, UpsertAlias(n, name)), InitDb), AccessPolicy.Cidr(n))
  {
    MigratedAssigned(Applied(db, UpsertAlias(n, name)), AccessPolicy.Cidr(n));
  }

  /** Deleting only an alias never removes the client that was migrated from it. */
  lemma AliasDeletionKeepsClients(db: Db, n: Netmask, v: Identifier)
    requires Assigned(db, v)
    ensures Assigned(Applied(Applied(db, DeleteAlias(n)), InitDb), v)
  {
    MigratedAssigned(Applied(db, DeleteAlias(n)), v);
  }

  // ----- the operations as they update the tables -----

  class Registry {
    var clients: map<nat, ClientRow>
    var identifiers: map<nat, IdentifierRow>
    var rules: map<nat, RuleRow>
    var aliases: seq<AliasRow>

    function Contents(): Db
      reads this
    {
      Db(clients, identifiers, rules, aliases)
    }

    /** _migrate_client_aliases, as init_db runs it. */
    method InitDb()
      modifies this`clients, this`identifiers
      ensures Contents() == Migrated(old(Contents()))
    {
      ghost var before := Contents();
      var k := 0;
      while k < |aliases|
        invariant 0 <= k <= |aliases|
        invariant Contents() == MigrateAll(before, aliases[..k])
        invariant aliases == before.aliases && rules == before.rules
      {
        var v := AccessPolicy.Cidr(aliases[k].network);
        assert aliases[..k + 1][..k] == aliases[..k];
        if !Assigned(Contents(), v) {
          var client := NextId(clients.Keys);
          clients := clients[client := ClientRow(aliases[k].name, true)];
          identifiers := identifiers[NextId(identifiers.Keys) := IdentifierRow(client, v)];
        }
        k := k + 1;
      }
      assert aliases[..k] == aliases;
    }

    method CreateClient(row: ClientRow, ids: seq<Identifier>) returns (created: Option<nat>)
      modifies this`clients, this`identifiers
      ensures Contents() == Applied(old(Contents()), Operation.CreateClient(row, ids))
      ensures created.Some? <==> ClientCreated(Migrated(old(Contents())), row, ids).Some?
      ensures created.Some? ==> created.value !in Migrated(old(Contents())).clients && created.value in clients
    {
      InitDb();
      var savedClients, savedIdentifiers := clients, identifiers;
      ghost var m := Contents();
      var client := NextId(clients.Keys);
      clients := clients[client := row];
      ghost var entered := Contents();
      var k := 0;
      while k < |ids|
        invariant 0 <= k <= |ids|
        invariant InsertAll(entered, client, ids[..k]) == Some(Contents())
        invariant clients == entered.clients && rules == m.rules && aliases == m.aliases
      {
        assert ids[..k + 1][..k] == ids[..k];
        if Assigned(Contents(), ids[k]) {
          InsertAllStops(entered, client, ids, k + 1);
          clients, identifiers := savedClients, savedIdentifiers;
          return None;
        }
        identifiers := identifiers[NextId(identifiers.Keys) := IdentifierRow(client, ids[k])];
        k := k + 1;
      }
      assert ids[..k] == ids;
      return Some(client);
    }

    method DeleteClient(client: nat) returns (found: bool)
      modifies this
      ensures Contents() == Applied(old(Contents()), Operation.DeleteClient(client))
      ensures found <==> client in Migrated(old(Contents())).clients
    {
      InitDb();
      found := client in clients;
      if found {
        var retired := Origins(identifiers, client);
        aliases := Without(aliases, retired);
        rules := map i | i in rules && rules[i].client != Some(client) :: rules[i];
        identifiers := map i | i in identifiers && identifiers[i].client != client :: identifiers[i];
        clients := clients - {client};
      }
    }

    method RemoveIdentifier(id: nat) returns (found: bool)
      modifies this
      ensures Contents() == Applied(old(Contents()), Operation.RemoveIdentifier(id))
      ensures found <==> id in Migrated(old(Contents())).identifiers
    {
      InitDb();
      found := id in identifiers;
      if found {
        var v := identifiers[id].value;
        if !v.Presented? { aliases := Without(aliases, {AccessPolicy.MaskOf(v)}); }
        identifiers := identifiers - {id};
      }
    }
  }

  lemma {:induction false} InsertAllStops(db: Db, client: nat, ids: seq<Identifier>, k: nat)
    requires k <= |ids| && InsertAll(db, client, ids[..k]).None?
    ensures InsertAll(db, client, ids).None?
    decreases |ids| - k
  {
    if k < |ids| {
      assert ids[..k + 1][..k] == ids[..k];
      InsertAllStops(db, client, ids, k + 1);
    } else {
      assert ids[..k] == ids;
    }
  }
}
