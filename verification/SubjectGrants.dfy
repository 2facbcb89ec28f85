/**
 The table of subject grants. Every transaction is one step of a history: a row is added under a new
 id, or revoked once and for good. No step removes a row or changes anything else of one.
 */
module SubjectGrants {
  import opened Bytes
  import opened Identifiers
  import opened Sorting

  const MAX_GRANTS: nat := 4096

  datatype Permission = MetadataRead | ContentRead | ContentWrite | Edit | Objective | Commit | Pause | Resume

  /** Printable text of at most 128 bytes. */
  predicate ValidText(s: bytes) {
    1 <= |s| <= 128 && forall k :: 0 <= k < |s| ==> 0x21 <= s[k] <= 0x7E
  }

  /** A grant as reserved; `GrantSpec` is the same without a generation. */
  datatype Grant = Grant(grantId: Id, issuer: bytes, subject: Id, permission: Permission, scope: Scope,
                         notBefore: u64, expiresAt: u64, generation: u64)

  datatype Row = Row(grant: Grant, revoked: bool)

  type Table = map<Id, Row>

  datatype GrantError = InvalidGrant | Duplicate | Capacity | Denied | NotFound | StoreUnavailable

  predicate ValidSpec(g: Grant) {
    && ValidId(g.grantId) && ValidText(g.issuer) && ValidId(g.subject) && ValidScope(g.scope)
    && g.notBefore < g.expiresAt <= I64_MAX && g.generation == 0
  }

  // ---- Steps of the table ----

  /** Rows stand under their own ids, and a generation counts at most one revocation. */
  predicate WellKept(t: Table) {
    forall id :: id in t ==> t[id].grant.grantId == id && t[id].grant.notBefore < t[id].grant.expiresAt
                             && t[id].grant.generation == if t[id].revoked then 1 else 0
  }

  predicate Adds(t: Table, u: Table, g: Grant) {
    g.grantId !in t && u == t[g.grantId := Row(g, false)]
  }

  predicate Revokes(t: Table, u: Table, id: Id) {
    id in t && !t[id].revoked && t[id].grant.generation + 1 < U64_LIMIT
    && u == t[id := Row(t[id].grant.(generation := t[id].grant.generation + 1), true)]
  }

  ghost predicate Step(t: Table, u: Table) {
    t == u || (exists g :: Adds(t, u, g)) || (exists id :: Revokes(t, u, id))
  }

  ghost predicate History(history: seq<Table>) {
    && history != []
    && (forall k :: 0 <= k < |history| ==> WellKept(history[k]))
    && (forall k :: 0 <= k < |history| - 1 ==> Step(history[k], history[k + 1]))
  }

  /** The grant's own row is present, exactly as granted, and not revoked. */
  predicate Live(t: Table, g: Grant) {
    g.grantId in t && t[g.grantId] == Row(g, false)
  }

  /**
   A grant live at one state and at a later one was live all the time between: its id is never
   reused, and a revocation is never undone.
   */
  lemma {:induction false} LiveBetween(history: seq<Table>, i: nat, k: nat, j: nat, g: Grant)
    requires History(history) && i <= k <= j < |history|
    requires Live(history[i], g) && Live(history[j], g)
    ensures Live(history[k], g)
  {
    StillPresent(history, i, k, g);
    if history[k][g.grantId].revoked {
      StillRevoked(history, k, j, g.grantId);
    }
  }

  /** A row is never lost, and until it is revoked it never changes. */
  lemma {:induction false} StillPresent(history: seq<Table>, i: nat, k: nat, g: Grant)
    requires History(history) && i <= k < |history| && Live(history[i], g)
    ensures g.grantId in history[k]
    ensures !history[k][g.grantId].revoked ==> Live(history[k], g)
  {
    if i < k {
      StillPresent(history, i, k - 1, g);
      assert Step(history[k - 1], history[k - 1 + 1]);
    }
  }

  lemma {:induction false} StillRevoked(history: seq<Table>, i: nat, k: nat, id: Id)
    requires History(history) && i <= k < |history| && id in history[i] && history[i][id].revoked
    ensures id in history[k] && history[k][id] == history[i][id]
  {
    if i < k {
      StillRevoked(history, i, k - 1, id);
      assert Step(history[k - 1], history[k - 1 + 1]);
    }
  }

  // ---- Reservation ----

  /** A row a reservation may return for one permission. */
  predicate Admissible(row: Row, issuer: bytes, subject: Id, scope: Scope, permission: Permission, now: u64) {
    && row.grant.issuer == issuer && row.grant.subject == subject && row.grant.scope == scope
    && row.grant.permission == permission && !row.revoked && row.grant.notBefore <= now < row.grant.expiresAt
  }

  /** The later expiry comes first, then the smaller id. */
  predicate Precedes(a: Grant, b: Grant) {
    a.expiresAt > b.expiresAt || (a.expiresAt == b.expiresAt && AtMost(a.grantId, b.grantId))
  }

  lemma PrecedesOrder(a: Grant, b: Grant, c: Grant)
    ensures Precedes(a, b) || Precedes(b, a)
    ensures Precedes(a, b) && Precedes(b, c) ==> Precedes(a, c)
  {
    AtMostTotal(a.grantId, b.grantId);
    if AtMost(a.grantId, b.grantId) && AtMost(b.grantId, c.grantId) {
      AtMostTransitive(a.grantId, b.grantId, c.grantId);
    }
  }

  /** The first admissible row of the table. */
  predicate Found(t: Table, issuer: bytes, subject: Id, scope: Scope, permission: Permission, now: u64, g: Grant) {
    && g.grantId in t && t[g.grantId].grant == g && Admissible(t[g.grantId], issuer, subject, scope, permission, now)
    && forall id :: id in t && Admissible(t[id], issuer, subject, scope, permission, now) ==> Precedes(g, t[id].grant)
  }

  /** A grant that can be used now, of the one asked for. */
  predicate Usable(g: Grant, issuer: bytes, subject: Id, scope: Scope, permission: Permission, now: u64) {
    && g.issuer == issuer && g.subject == subject && g.scope == scope && g.permission == permission
    && g.notBefore <= now && now < g.expiresAt
  }

  /** The grant found is a live one that can be used now, and none of those expires later; of equals, it has the least id. */
  lemma FoundExactly(t: Table, issuer: bytes, subject: Id, scope: Scope, permission: Permission, now: u64, g: Grant)
    requires WellKept(t)
    ensures Found(t, issuer, subject, scope, permission, now, g)
            <==> && Live(t, g) && Usable(g, issuer, subject, scope, permission, now)
                 && forall id :: id in t && !t[id].revoked && Usable(t[id].grant, issuer, subject, scope, permission, now)
                                 ==> || t[id].grant.expiresAt < g.expiresAt
                                     || (t[id].grant.expiresAt == g.expiresAt && AtMost(g.grantId, id))
  {
    hide AtMost;
  }

  lemma FoundOnce(t: Table, issuer: bytes, subject: Id, scope: Scope, permission: Permission, now: u64, g: Grant, h: Grant)
    requires Found(t, issuer, subject, scope, permission, now, g) && Found(t, issuer, subject, scope, permission, now, h)
    ensures g == h
  {
    AtMostTotal(g.grantId, h.grantId);
  }

  /** No row of the table can be returned for the permission. */
  predicate Barren(t: Table, issuer: bytes, subject: Id, scope: Scope, permission: Permission, now: u64) {
    forall id :: id in t ==> !Admissible(t[id], issuer, subject, scope, permission, now)
  }

  // ---- What one transaction makes of the table ----

  /** Whether a provision is taken; `working` says that no statement of it fails. */
  function ProvisionAnswer(t: Table, spec: Grant, working: bool): Result<(), GrantError> {
    if !ValidSpec(spec) then Err(InvalidGrant)
    else if !working then Err(StoreUnavailable)
    else if |t| >= MAX_GRANTS then Err(Capacity)
    else if spec.grantId in t then Err(Duplicate)
    else Ok(())
  }

  /** The generation a revocation answers with. */
  function RevokeAnswer(t: Table, id: Id, working: bool): Result<u64, GrantError>
    requires WellKept(t)
  {
    if !ValidId(id) then Err(InvalidGrant)
    else if !working then Err(StoreUnavailable)
    else if id !in t then Err(NotFound)
    else Ok(1)
  }

  function Revoked(t: Table, id: Id): Table
    requires WellKept(t) && id in t
  {
    t[id := Row(t[id].grant.(generation := 1), true)]
  }

  /** What other holders of the store do. */
  datatype Action = ProvisionAction(spec: Grant, working: bool) | RevokeAction(id: Id, working: bool)

  function After(t: Table, action: Action): Table
    requires WellKept(t)
  {
    match action
    case ProvisionAction(spec, working) =>
      if ProvisionAnswer(t, spec, working).Ok? then t[spec.grantId := Row(spec, false)] else t
    case RevokeAction(id, working) =>
      if RevokeAnswer(t, id, working).Ok? then Revoked(t, id) else t
  }

  /** The table after actions in order. */
  function AfterAll(t: Table, actions: seq<Action>): (u: Table)
    requires WellKept(t)
    ensures WellKept(u)
    decreases |actions|
  {
    if actions == [] then t
    else
      var before := AfterAll(t, actions[..|actions| - 1]);
      var last := actions[|actions| - 1];
      AfterSteps(before, last);
      After(before, last)
  }

  /** A provision is taken exactly when its fields are in order, there is room and the id is new. */
  lemma ProvisionExactly(t: Table, spec: Grant, working: bool)
    ensures ProvisionAnswer(t, spec, working).Ok?
            <==> && working && |t| < 4096 && spec.grantId !in t
                 && ValidId(spec.grantId) && ValidText(spec.issuer) && ValidId(spec.subject) && ValidScope(spec.scope)
                 && spec.notBefore < spec.expiresAt <= 0x7FFF_FFFF_FFFF_FFFF && spec.generation == 0
  {}

  lemma AfterSteps(t: Table, action: Action)
    requires WellKept(t)
    ensures WellKept(After(t, action)) && Step(t, After(t, action))
  {
    var u := After(t, action);
    match action
    case ProvisionAction(spec, working) =>
      if ProvisionAnswer(t, spec, working).Ok? {
        assert Adds(t, u, spec);
      }
    case RevokeAction(id, working) =>
      if RevokeAnswer(t, id, working).Ok? {
        if t[id].revoked {
          assert t[id] == Row(t[id].grant.(generation := 1), true);
        } else {
          assert Revokes(t, u, id);
        }
      }
  }

  /** The action led from this state of the history to the next. */
  ghost predicate Led(history: seq<Table>, k: nat, action: Action) {
    k + 1 < |history| && WellKept(history[k]) && history[k + 1] == After(history[k], action)
  }

  /** The actions led through the history, one state each. */
  ghost predicate LedBy(history: seq<Table>, from: nat, actions: seq<Action>) {
    forall n :: 0 <= n < |actions| ==> Led(history, from + n, actions[n])
  }

  lemma LedKept(history: seq<Table>, later: seq<Table>, from: nat, actions: seq<Action>)
    requires history <= later && LedBy(history, from, actions)
    ensures LedBy(later, from, actions)
  {
    forall n | 0 <= n < |actions| ensures Led(later, from + n, actions[n]) {
      assert Led(history, from + n, actions[n]);
    }
  }

  lemma NoActions(t: Table)
    requires WellKept(t)
    ensures AfterAll(t, []) == t
  {}

  lemma NextAction(t: Table, actions: seq<Action>, n: nat)
    requires WellKept(t) && n < |actions|
    ensures AfterAll(t, actions[..n + 1]) == After(AfterAll(t, actions[..n]), actions[n])
  {
    hide After;
    assert actions[..n + 1][..n] == actions[..n];
  }

  lemma LedFurther(history: seq<Table>, later: seq<Table>, from: nat, actions: seq<Action>, n: nat)
    requires n < |actions| && LedBy(history, from, actions[..n]) && |history| == from + n + 1
    requires WellKept(history[from + n]) && later == history + [After(history[from + n], actions[n])]
    ensures LedBy(later, from, actions[..n + 1])
  {
    hide After, WellKept;
    LedKept(history, later, from, actions[..n]);
    var all := actions[..n + 1];
    forall k | 0 <= k < |all| ensures Led(later, from + k, all[k]) {
      assert k < n ==> all[k] == actions[..n][k];
    }
  }

  class GrantStore {
    var table: Table
    /** Every state the table has been in. */
    ghost var history: seq<Table>

    ghost predicate Valid()
      reads this
    {
      History(history) && table == history[|history| - 1]
    }

    lemma ValidHistory()
      requires Valid()
      ensures History(history) && WellKept(table)
    {}

    constructor ()
      ensures Valid()
    {
      table := map[];
      history := [map[]];
    }

    /** A statement of the database may fail. */
    method Statement(working: bool) returns (r: Result<(), GrantError>)
      ensures r == if working then Ok(()) else Err(StoreUnavailable)
    {
      r := if working then Ok(()) else Err(StoreUnavailable);
    }

    /** A new row under a new id, or nothing. */
    method Provision(spec: Grant, working: bool) returns (r: Result<(), GrantError>)
      requires Valid()
      modifies this
      ensures Valid() && table == After(old(table), ProvisionAction(spec, working))
      ensures history == old(history) + [table] && r == ProvisionAnswer(old(table), spec, working)
    {
      AfterSteps(table, ProvisionAction(spec, working));
      history := history + [After(table, ProvisionAction(spec, working))];
      if !ValidSpec(spec) {
        return Err(InvalidGrant);
      }
      var _ :- Statement(working);
      if |table| >= MAX_GRANTS {
        return Err(Capacity);
      }
      if spec.grantId in table {
        return Err(Duplicate);
      }
      table := table[spec.grantId := Row(spec, false)];
      r := Ok(());
    }

    /** One way: the first revocation counts a generation, any other changes nothing. */
    method Revoke(id: Id, working: bool) returns (r: Result<u64, GrantError>)
      requires Valid()
      modifies this
      ensures Valid() && table == After(old(table), RevokeAction(id, working))
      ensures history == old(history) + [table] && r == RevokeAnswer(old(table), id, working)
    {
      AfterSteps(table, RevokeAction(id, working));
      history := history + [After(table, RevokeAction(id, working))];
      if !ValidId(id) {
        return Err(InvalidGrant);
      }
      var _ :- Statement(working);
      if id !in table {
        return Err(NotFound);
      }
      var row := table[id];
      var next := if row.revoked then row.grant.generation else row.grant.generation + 1;
      if !row.revoked {
        table := table[id := Row(row.grant.(generation := next), true)];
      }
      r := Ok(next);
    }

    /** Others' actions in order: each leaves one state of the history, the one it leads to. */
    method Perform(actions: seq<Action>)
      requires Valid()
      modifies this
      ensures Valid() && old(history) <= history && |history| == |old(history)| + |actions|
      ensures LedBy(history, |old(history)| - 1, actions) && table == AfterAll(old(table), actions)
    {
      hide After, AfterAll, WellKept, Step;
      NoActions(table);
      for n := 0 to |actions|
        invariant Valid() && WellKept(old(table)) && old(history) <= history && |history| == |old(history)| + n
        invariant LedBy(history, |old(history)| - 1, actions[..n])
        invariant table == AfterAll(old(table), actions[..n])
      {
        NextAction(old(table), actions, n);
        ghost var before := history;
        match actions[n] {
          case ProvisionAction(spec, working) => var _ := Provision(spec, working);
          case RevokeAction(id, working) => var _ := Revoke(id, working);
        }
        LedFurther(before, history, |old(history)| - 1, actions, n);
      }
      assert actions[..|actions|] == actions;
    }

    /** `find_admitted_grant`: the first admissible row in the query's order. */
    method Find(issuer: bytes, subject: Id, scope: Scope, permission: Permission, now: u64) returns (r: Option<Grant>)
      requires Valid()
      ensures r.Some? ==> Found(table, issuer, subject, scope, permission, now, r.value)
      ensures r.None? ==> Barren(table, issuer, subject, scope, permission, now)
    {
      r := None;
      var left := table.Keys;
      while left != {}
        invariant left <= table.Keys
        invariant r.Some? ==> r.value.grantId in table && table[r.value.grantId].grant == r.value
                              && Admissible(table[r.value.grantId], issuer, subject, scope, permission, now)
        invariant forall id :: id in table && id !in left && Admissible(table[id], issuer, subject, scope, permission, now)
                               ==> r.Some? && Precedes(r.value, table[id].grant)
        decreases left
      {
        var id :| id in left;
        left := left - {id};
        var row := table[id];
        if Admissible(row, issuer, subject, scope, permission, now) {
          PrecedesOrder(row.grant, row.grant, row.grant);
          if r.None? || Precedes(row.grant, r.value) {
            forall other | other in table && other !in left + {id}
                           && Admissible(table[other], issuer, subject, scope, permission, now)
              ensures Precedes(row.grant, table[other].grant)
            {
              PrecedesOrder(row.grant, r.value, table[other].grant);
            }
            r := Some(row.grant);
          } else {
            PrecedesOrder(row.grant, r.value, r.value);
          }
        }
      }
    }

    /**
     `reserve`: one transaction that finds a grant for each required permission, or denies; `working` says
     that no statement of it fails.
     */
    method Reserve(issuer: bytes, subject: Id, scope: Scope, required: seq<Permission>, now: u64, working: bool)
      returns (r: Result<seq<Grant>, GrantError>)
      requires Valid()
      ensures r.Ok? ==> |r.value| == |required|
      ensures r.Ok? ==> (forall k :: 0 <= k < |required|
                                     ==> Found(table, issuer, subject, scope, required[k], now, r.value[k]))
      ensures r == Err(Denied) ==> (exists k :: 0 <= k < |required| && Barren(table, issuer, subject, scope, required[k], now))
      ensures r == Err(InvalidGrant) <==> !ValidScope(scope) || required == [] || !Distinct(required)
      ensures r == Err(StoreUnavailable) ==> !working
      ensures r.Err? ==> r.error == Denied || r.error == InvalidGrant || r.error == StoreUnavailable
      ensures r.Ok? ==> working
    {
      if !ValidScope(scope) || required == [] || !Distinct(required) {
        return Err(InvalidGrant);
      }
      var _ :- Statement(working);
      var admitted: seq<Grant> := [];
      for k := 0 to |required|
        invariant |admitted| == k
        invariant forall j :: 0 <= j < k ==> Found(table, issuer, subject, scope, required[j], now, admitted[j])
      {
        var grant := Find(issuer, subject, scope, required[k], now);
        if grant.None? {
          return Err(Denied);
        }
        admitted := admitted + [grant.value];
      }
      r := Ok(admitted);
    }
  }
}
