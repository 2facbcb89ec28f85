/**
 The two protocols over a shared grant table: admitting an owner invocation, and revalidating one that
 was admitted. What others do to the table meanwhile, what the system clock reads, and what bearer
 verification and credential resolution answer are given, and may be anything.
 */
module OwnerIngress {
  import opened Bytes
  import opened Identifiers
  import opened Sorting
  import opened SubjectGrants
  import opened OwnerAdmission
  import opened OwnerDecision

  function GrantFailure(error: GrantError): AuthError {
    if error == StoreUnavailable then GrantStoreUnavailable else GrantDenied
  }

  class Ingress {
    const store: GrantStore

    constructor (store: GrantStore)
      ensures this.store == store
    {
      this.store := store;
    }

    ghost function Now(): nat
      reads store
      requires store.Valid()
    {
      |store.history| - 1
    }

    /** Reserves for a principal. If `expected` is what the table holds for it, that is what is found. */
    method Reserve(principal: Principal, scope: Scope, required: seq<Permission>, now: u64, working: bool,
                   ghost expected: seq<Grant>)
      returns (r: Result<seq<Grant>, AuthError>)
      requires store.Valid()
      ensures r.Ok? ==> AllLive(store.history[Now()], r.value) && working && ValidScope(scope) && required != []
                        && Distinct(required)
                        && Reserves(store.table, principal.issuer, principal.subject, scope, required, now, r.value)
      ensures working && ValidScope(scope) && required != [] && Distinct(required)
              && Reserves(store.table, principal.issuer, principal.subject, scope, required, now, expected)
              ==> r == Ok(expected)
    {
      var reserved := store.Reserve(principal.issuer, principal.subject, scope, required, now, working);
      r := if reserved.Ok? then Ok(reserved.value) else Err(GrantFailure(reserved.error));
      if Reserves(store.table, principal.issuer, principal.subject, scope, required, now, expected) {
        ReservesNone(store.table, principal.issuer, principal.subject, scope, required, now, expected);
        if reserved.Ok? {
          ReservesOnce(store.table, principal.issuer, principal.subject, scope, required, now, expected, r.value);
        }
      }
    }

    /** Verifies the bearer, with the clock read on both sides of it. */
    method Identify(clock: WallClock, invocation: Invocation, outside: Outside, ghost expected: Principal)
      returns (r: Result<Principal, AuthError>)
      requires clock.Valid()
      modifies clock
      ensures clock.Valid()
      ensures r.Ok? ==> Identified(invocation, outside, clock.readings, old(clock.read), r.value)
      ensures r.Ok? ==> clock.read == old(clock.read) + 3
      ensures Identified(invocation, outside, clock.readings, old(clock.read), expected) ==> r == Ok(expected)
    {
      hide PrincipalFits, Current, Highest;
      if !outside.envelope {
        return Err(InvalidRequest);
      }
      var now :- clock.Advance();
      var verified := outside.verified;
      now :- clock.Advance();
      if verified.None? {
        return Err(InvalidBearer);
      }
      var principal := verified.value;
      if !PrincipalFits(principal, invocation, now) {
        return Err(Unauthorized);
      }
      now :- clock.Advance();
      if !Current(principal, now) {
        return Err(Unauthorized);
      }
      r := Ok(principal);
    }

    /** The first reservation. */
    method ReserveFirst(clock: WallClock, principal: Principal, scope: Scope, policy: Policy, working: bool,
                        ghost expected: seq<Grant>)
      returns (r: Result<seq<Grant>, AuthError>)
      requires store.Valid() && clock.Valid()
      modifies clock
      ensures clock.Valid()
      ensures r.Ok? ==> AllLive(store.history[Now()], r.value) && clock.read == old(clock.read) + 2
      ensures r.Ok? ==> FirstReserved(store.table, principal, scope, policy, working, clock.readings, old(clock.read), r.value)
      ensures FirstReserved(store.table, principal, scope, policy, working, clock.readings, old(clock.read), expected)
              ==> r == Ok(expected)
    {
      hide SelectedGrantsFit, AllLive, Highest, Reserves, ValidScope, Current;
      var first := Reserve(principal, scope, policy.required, clock.floor, working, expected);
      var now :- clock.Advance();
      var admitted :- first;
      var _ :- ValidateSelectedGrants(admitted, principal, scope, policy, now);
      now :- clock.Advance();
      if !Current(principal, now) {
        return Err(Unauthorized);
      }
      var _ :- ValidateSelectedGrants(admitted, principal, scope, policy, now);
      r := Ok(admitted);
    }

    /** Resolves the credential, and checks everything again afterwards. */
    method Resolve(clock: WallClock, principal: Principal, admitted: seq<Grant>, scope: Scope, policy: Policy,
                   outside: Outside, ghost expected: Credential)
      returns (r: Result<Credential, AuthError>)
      requires clock.Valid()
      modifies clock
      ensures clock.Valid()
      ensures r.Ok? ==> clock.read == old(clock.read) + 2
      ensures r.Ok? ==> Resolved(principal, admitted, scope, policy, outside, clock.readings, old(clock.read), r.value)
      ensures Resolved(principal, admitted, scope, policy, outside, clock.readings, old(clock.read), expected)
              ==> r == Ok(expected)
    {
      hide SelectedGrantsFit, CredentialFits, Highest, Current;
      var now :- clock.Advance();
      if outside.resolved.None? {
        return Err(CredentialUnavailable);
      }
      var credential := outside.resolved.value;
      if !Current(principal, now) {
        return Err(Unauthorized);
      }
      var _ :- ValidateSelectedGrants(admitted, principal, scope, policy, now);
      var _ :- CredentialFits(credential, principal, scope, policy.required, now);
      now :- clock.Advance();
      if !Current(principal, now) {
        return Err(Unauthorized);
      }
      r := Ok(credential);
    }

    /** The second reservation, which must find the grants of the first. */
    method ReserveAgain(clock: WallClock, principal: Principal, admitted: seq<Grant>, credential: Credential, scope: Scope,
                        policy: Policy, working: bool, ghost expected: seq<Grant>)
      returns (r: Result<seq<Grant>, AuthError>)
      requires store.Valid() && clock.Valid()
      modifies clock
      ensures clock.Valid() && clock.read == old(clock.read) + 1
      ensures r.Ok? ==> AllLive(store.history[Now()], r.value)
      ensures r.Ok? ==> ReservedAgain(store.table, principal, credential, admitted, scope, policy, working, clock.readings,
                                      old(clock.read), r.value)
      ensures ReservedAgain(store.table, principal, credential, admitted, scope, policy, working, clock.readings,
                            old(clock.read), expected)
              ==> r == Ok(expected)
    {
      hide SelectedGrantsFit, CredentialFits, AllLive, SameGrants, Highest, Reserves, ValidScope, Current;
      var second := Reserve(principal, scope, policy.required, clock.floor, working, expected);
      var now :- clock.Advance();
      var refreshed :- second;
      if !Current(principal, now) {
        return Err(Unauthorized);
      }
      var _ :- ValidateSelectedGrants(refreshed, principal, scope, policy, now);
      if !SameGrants(admitted, refreshed) {
        return Err(GrantDenied);
      }
      var _ :- CredentialFits(credential, principal, scope, policy.required, now);
      r := Ok(refreshed);
    }

    /**
     `admit_owner_invocation`, with others performing `before` ahead of the first reservation and `between`
     ahead of the second. It succeeds exactly when the request is admissible against the tables those actions
     lead to. Then every sealed grant was live in each state of the table between the two reservations, so
     through all of `between`, and nothing sealed has expired at the highest of the nine readings taken.
     */
    method Admit(facadeScope: Scope, invocation: Invocation, outside: Outside, readings: Readings, before: seq<Action>,
                 between: seq<Action>)
      returns (r: Result<Admitted, AuthError>)
      requires store.Valid()
      modifies store
      ensures store.Valid() && old(store.history) <= store.history
      ensures r.Ok? <==> Admittable(facadeScope, invocation, outside, readings, TableAfter(old(store.table), before),
                                    TableAfter(old(store.table), before + between))
      ensures r.Ok? ==> Admits(r.value, invocation, outside) && fresh(r.value) && fresh(r.value.clock)
      ensures r.Ok? ==> r.value.clock.Valid() && r.value.clock.readings == readings && r.value.clock.read == 9
      ensures r.Ok? ==> !r.value.ExpiredAt(Highest(readings, 9))
      ensures r.Ok? ==> SealFits(r.value.principal, r.value.grants, r.value.credential, invocation, r.value.policy,
                                 Highest(readings, 9))
      ensures r.Ok? ==> r.value.from == old(Now()) + |before| && Now() == r.value.from + |between|
      ensures r.Ok? ==> LedBy(store.history, old(Now()), before) && LedBy(store.history, r.value.from, between)
      ensures r.Ok? ==> r.value.LiveUpTo(store.history, Now()) && SealedIn(r.value) && NoneRevoked(r.value, between)
    {
      hide SealFits, SelectedPolicy, AllLive, Highest, store.Valid, NoneRevoked, LedBy, Admittable, TableAfter, Passes;
      hide Admits, SealedIn, AfterAll;
      TablesAfter(store, before, between);
      ghost var first, second := TableAfter(store.table, before), TableAfter(store.table, before + between);
      ghost var p, c, grants := Expected(facadeScope, invocation, outside, readings, first, second);
      if readings(0).None? {
        return Err(Unauthorized);
      }
      var clock := new WallClock(readings, readings(0).value);
      if !invocation.wellFormed {
        return Err(InvalidRequest);
      }
      var scope := invocation.identity.scope;
      if facadeScope != scope {
        return Err(Unauthorized);
      }
      var policy :- SelectedPolicy(invocation);
      ghost var admitted;
      r, admitted := AdmitFrom(clock, invocation, policy, outside, before, between, p, c, grants);
      if r.Ok? {
        PassesAdmittable(scope, invocation, outside, readings, first, second, r.value.principal, r.value.credential,
                         policy, admitted, r.value.grants);
      }
    }

    /** The admission from its first clock reading on, given what it would be expected to seal. */
    method AdmitFrom(clock: WallClock, invocation: Invocation, policy: Policy, outside: Outside, before: seq<Action>,
                     between: seq<Action>, ghost p: Principal, ghost c: Credential, ghost grants: seq<Grant>)
      returns (r: Result<Admitted, AuthError>, ghost admitted: seq<Grant>)
      requires store.Valid() && clock.Valid() && clock.read == 1 && SelectedPolicy(invocation) == Ok(policy)
      modifies store, clock
      ensures store.Valid() && clock.Valid() && old(store.history) <= store.history
      ensures Passes(invocation, outside, clock.readings, TableAfter(old(store.table), before),
                     TableAfter(old(store.table), before + between), p, c, policy, grants, grants)
              ==> r.Ok?
      ensures r.Ok? ==> Passes(invocation, outside, clock.readings, TableAfter(old(store.table), before),
                               TableAfter(old(store.table), before + between), r.value.principal, r.value.credential,
                               policy, admitted, r.value.grants)
      ensures r.Ok? ==> fresh(r.value) && Sealed(r.value, clock, invocation, policy, outside, old(Now()) + |before|, between)
      ensures r.Ok? ==> LedBy(store.history, old(Now()), before)
    {
      hide AllLive, Highest, store.Valid, LedBy, TableAfter, Sealed, Identified, FirstReserved, PassesRest, SelectedPolicy;
      TablesAfter(store, before, between);
      admitted := [];
      var principal :- Identify(clock, invocation, outside, p);
      store.ValidHistory();
      store.Perform(before);
      ghost var from, performed := |store.history| - 1, store.history;
      var reserved :- ReserveFirst(clock, principal, invocation.identity.scope, policy, outside.firstWorks, grants);
      admitted := reserved;
      IdentifiedIs(invocation, outside, clock.readings, 1, principal);
      r := AdmitRest(clock, invocation, policy, outside, between, principal, reserved, c, grants);
      LedKept(performed, store.history, from - |before|, before);
    }

    /** The admission from its first reservation on. */
    method AdmitRest(clock: WallClock, invocation: Invocation, policy: Policy, outside: Outside, between: seq<Action>,
                     principal: Principal, reserved: seq<Grant>, ghost c: Credential, ghost grants: seq<Grant>)
      returns (r: Result<Admitted, AuthError>)
      requires store.Valid() && clock.Valid() && clock.read == 6 && SelectedPolicy(invocation) == Ok(policy)
      requires AllLive(store.history[Now()], reserved) && outside.verified == Some(principal)
      modifies store, clock
      ensures store.Valid() && clock.Valid() && old(store.history) <= store.history
      ensures PassesRest(invocation, outside, clock.readings, AfterAll(old(store.table), between), principal, c, policy,
                         reserved, grants)
              ==> r.Ok?
      ensures r.Ok? ==> PassesRest(invocation, outside, clock.readings, AfterAll(old(store.table), between), principal,
                                   r.value.credential, policy, reserved, r.value.grants)
      ensures r.Ok? ==> fresh(r.value) && r.value.principal == principal
                        && Sealed(r.value, clock, invocation, policy, outside, old(Now()), between)
    {
      hide SealFits, SelectedPolicy, SameGrants, AllLive, Highest, store.Valid, NoneRevoked, LedBy, Resolved, ReservedAgain;
      var scope := invocation.identity.scope;
      store.ValidHistory();
      ghost var from, second := |store.history| - 1, AfterAll(store.table, between);
      store.Perform(between);
      var credential :- Resolve(clock, principal, reserved, scope, policy, outside, c);
      var refreshed :- ReserveAgain(clock, principal, reserved, credential, scope, policy, outside.secondWorks, grants);
      StretchesNamed(second, outside, clock.readings, scope, principal, credential, reserved, policy, refreshed);
      r := Seal(clock, principal, reserved, refreshed, credential, invocation, policy, from, between, outside.late);
    }

    /** What an admission sealed, of what and from when: live between the reservations, and in time. */
    ghost predicate Sealed(a: Admitted, clock: WallClock, invocation: Invocation, policy: Policy, outside: Outside,
                           from: nat, between: seq<Action>)
      requires store.Valid()
      reads store, clock
    {
      && a.clock == clock && clock.read == 9 && a.policy == policy && Admits(a, invocation, outside)
      && a.from == from && Now() == from + |between| && LedBy(store.history, from, between)
      && a.LiveUpTo(store.history, Now()) && SealedIn(a) && NoneRevoked(a, between)
      && !a.ExpiredAt(Highest(clock.readings, 9))
    }

    /** Seals the refreshed grants, unless something leaves less than a second. */
    method Seal(clock: WallClock, principal: Principal, admitted: seq<Grant>, refreshed: seq<Grant>,
                credential: Credential, invocation: Invocation, policy: Policy, ghost from: nat,
                ghost between: seq<Action>, late: bool)
      returns (r: Result<Admitted, AuthError>)
      requires store.Valid() && SameGrants(admitted, refreshed) && Now() == from + |between|
      requires AllLive(store.history[from], admitted) && AllLive(store.history[Now()], refreshed)
      requires LedBy(store.history, from, between)
      ensures r.Ok? <==> !late && SealFits(principal, refreshed, credential, invocation, policy, clock.floor)
      ensures r.Ok? ==> && fresh(r.value) && r.value.principal == principal && r.value.grants == refreshed
                        && r.value.credential == credential && r.value.invocation == invocation
                        && r.value.policy == policy && r.value.clock == clock && r.value.from == from
      ensures r.Ok? ==> !r.value.ExpiredAt(clock.floor) && r.value.LiveUpTo(store.history, Now())
      ensures r.Ok? ==> NoneRevoked(r.value, between) && AllLive(store.history[from], r.value.grants)
    {
      hide SealFits, SameGrants, AllLive, NoneRevoked, LedBy;
      var now := clock.floor;
      if !SealFits(principal, refreshed, credential, invocation, policy, now) {
        return Err(GrantDenied);
      }
      var sealed := new Admitted(principal, refreshed, credential, invocation, policy, clock, from);
      SealedValid(sealed, now);
      if !sealed.ValidAt(now, late) {
        return Err(GrantDenied);
      }
      LiveThroughout(sealed, store.history, |store.history| - 1, admitted, refreshed);
      sealed.LiveAtFirst(store.history, |store.history| - 1);
      RevocationDenies(sealed, store.history, |store.history| - 1, between);
      r := Ok(sealed);
    }

    /** The admission seals this invocation, with what the other components answered. */
    predicate Admits(a: Admitted, invocation: Invocation, outside: Outside) {
      && a.invocation == invocation && Ok(a.policy) == SelectedPolicy(invocation)
      && outside.verified == Some(a.principal) && outside.resolved == Some(a.credential)
    }

    /** The checks of a revalidation ahead of its reservation. */
    method Recheck(a: Admitted, attempt: Attempt) returns (r: Result<Policy, AuthError>)
      requires a.clock.Valid()
      modifies a.clock
      ensures a.clock.Valid() && a.clock.read > old(a.clock.read)
      ensures r.Ok? ==> Rechecked(a, r.value, attempt, old(a.clock.read)) && a.clock.read == old(a.clock.read) + 2
      ensures SelectedPolicy(a.invocation).Ok?
              && Rechecked(a, SelectedPolicy(a.invocation).value, attempt, old(a.clock.read))
              ==> r.Ok?
    {
      hide CredentialFits, SelectedGrantsFit, SelectedPolicy, PrincipalFits, Highest, Current;
      var now :- a.clock.Advance();
      var policy :- SelectedPolicy(a.invocation);
      var scope := a.invocation.identity.scope;
      if !PrincipalFits(a.principal, a.invocation, now) {
        return Err(Unauthorized);
      }
      if !a.ValidAt(now, attempt.lateBefore) {
        return Err(GrantDenied);
      }
      var _ :- ValidateSelectedGrants(a.grants, a.principal, scope, policy, now);
      var _ :- CredentialFits(a.credential, a.principal, scope, policy.required, now);
      now :- a.clock.Advance();
      if !Current(a.principal, now) {
        return Err(Unauthorized);
      }
      r := Ok(policy);
    }

    /**
     `revalidate_owner_invocation`, with others acting ahead of its reservation. It succeeds exactly when what
     was sealed is still found and still in time. Then every sealed grant has been live ever since the first
     reservation of the admission, and nothing sealed has expired at the highest reading ever taken for it.
     */
    method Revalidate(a: Admitted, attempt: Attempt) returns (r: Result<(), AuthError>)
      requires store.Valid() && a.clock.Valid() && SealedIn(a)
      modifies store, a.clock
      ensures store.Valid() && a.clock.Valid() && SealedIn(a)
      ensures old(store.history) <= store.history && Now() == old(Now()) + |attempt.others|
      ensures r.Ok? <==> Revalidatable(a, attempt, old(a.clock.read), TableAfter(old(store.table), attempt.others))
      ensures old(a.clock.read) < a.clock.read && (r.Ok? ==> a.clock.read == old(a.clock.read) + 3)
      ensures LedBy(store.history, old(Now()), attempt.others)
      ensures r.Ok? ==> a.LiveUpTo(store.history, Now())
      ensures r.Ok? ==> !a.ExpiredAt(Highest(a.clock.readings, a.clock.read))
      ensures r.Ok? ==> PrincipalFits(a.principal, a.invocation, Highest(a.clock.readings, a.clock.read))
    {
      hide CredentialFits, SelectedPolicy, PrincipalFits, SameGrants, AllLive, Highest, store.Valid, Rechecked;
      hide Revalidatable, ReservedAgain, TableAfter, LedBy, a.ValidAt, a.ExpiredAt, Current;
      ghost var at, table := a.clock.read, TableAfter(store.table, attempt.others);
      ghost var expected := ExpectedAgain(a, attempt, at, table);
      TablesAfter(store, attempt.others, []);
      store.Perform(attempt.others);
      var policy :- Recheck(a, attempt);
      RecheckedPolicy(a, policy, attempt, at);
      var scope := a.invocation.identity.scope;
      var refreshed :- ReserveAgain(a.clock, a.principal, a.grants, a.credential, scope, policy, attempt.working, expected);
      var now := a.clock.floor;
      if !PrincipalFits(a.principal, a.invocation, now) {
        return Err(Unauthorized);
      }
      if !a.ValidAt(now, attempt.lateAfter) {
        return Err(GrantDenied);
      }
      ValidNotExpired(a, now, attempt.lateAfter);
      PassesRevalidatable(a, attempt, at, table, policy, refreshed);
      SameReserved(table, a, policy, attempt.working, at + 2, refreshed);
      assert History(store.history) by { store.ValidHistory(); }
      LiveThroughout(a, store.history, |store.history| - 1, a.grants, refreshed);
      r := Ok(());
    }

    /** The admission was sealed from this store: its grants were live at its first reservation. */
    ghost predicate SealedIn(a: Admitted)
      reads store
    {
      a.from < |store.history| && AllLive(store.history[a.from], a.grants)
    }

    /**
     Any number of revalidations, with anything in between. `marks` says how often the clock had been read
     before each and at the end: once the readings taken say that something sealed has expired, nothing
     succeeds any more, whatever the clock reads then.
     */
    method RevalidateRepeatedly(a: Admitted, attempts: seq<Attempt>) returns (ok: seq<bool>, ghost marks: seq<nat>)
      requires store.Valid() && a.clock.Valid() && SealedIn(a)
      modifies store, a.clock
      ensures store.Valid() && a.clock.Valid() && SealedIn(a)
      ensures |ok| == |attempts| && |marks| == |attempts| + 1
      ensures marks[0] == old(a.clock.read) && marks[|attempts|] == a.clock.read
      ensures forall i :: 0 <= i < |attempts| ==> marks[i] < marks[i + 1] && (ok[i] ==> marks[i + 1] == marks[i] + 3)
      ensures forall i, j :: 0 <= j < |attempts| && 0 <= i <= j + 1
                             ==> (ok[j] ==> !a.ExpiredAt(Highest(a.clock.readings, marks[i])))
    {
      hide Highest, AllLive, store.Valid, a.ExpiredAt;
      ok, marks := [], [a.clock.read];
      for n := 0 to |attempts|
        invariant store.Valid() && a.clock.Valid() && SealedIn(a)
        invariant |ok| == n && |marks| == n + 1 && marks[0] == old(a.clock.read) && marks[n] == a.clock.read
        invariant forall i :: 0 <= i < n ==> marks[i] < marks[i + 1] && (ok[i] ==> marks[i + 1] == marks[i] + 3)
        invariant forall j :: 0 <= j < n && ok[j] ==> !a.ExpiredAt(Highest(a.clock.readings, marks[j + 1]))
      {
        var r := Revalidate(a, attempts[n]);
        ok, marks := ok + [r.Ok?], marks + [a.clock.read];
      }
      forall i, j | 0 <= j < |attempts| && 0 <= i <= j + 1
        ensures ok[j] ==> !a.ExpiredAt(Highest(a.clock.readings, marks[i]))
      {
        MarksGrow(marks, i, j + 1);
        HighestGrows(a.clock.readings, marks[i], marks[j + 1]);
        a.ExpiresForGood(Highest(a.clock.readings, marks[i]), Highest(a.clock.readings, marks[j + 1]));
      }
    }
  }

  /** None of the actions revokes a sealed grant. */
  ghost predicate NoneRevoked(a: Admitted, actions: seq<Action>) {
    forall n, k :: 0 <= n < |actions| && 0 <= k < |a.grants| && ValidId(a.grants[k].grantId)
                   ==> actions[n] != RevokeAction(a.grants[k].grantId, true)
  }

  /** Grants live all through the actions were revoked by none of them. */
  lemma RevocationDenies(a: Admitted, history: seq<Table>, to: nat, actions: seq<Action>)
    requires a.LiveUpTo(history, to) && LedBy(history, a.from, actions) && to == a.from + |actions|
    ensures NoneRevoked(a, actions)
  {
    forall n, k | 0 <= n < |actions| && 0 <= k < |a.grants| && ValidId(a.grants[k].grantId)
      ensures actions[n] != RevokeAction(a.grants[k].grantId, true)
    {
      assert Led(history, a.from + n, actions[n]);
      assert Live(history[a.from + n], a.grants[k]) && Live(history[a.from + n + 1], a.grants[k]);
    }
  }

  /** The table after others' actions. */
  ghost function TableAfter(t: Table, actions: seq<Action>): Table {
    if WellKept(t) then AfterAll(t, actions) else t
  }

  /** What two rounds of actions make of a store's table. */
  lemma TablesAfter(store: GrantStore, before: seq<Action>, between: seq<Action>)
    requires store.Valid()
    ensures WellKept(store.table)
    ensures TableAfter(store.table, before) == AfterAll(store.table, before)
    ensures TableAfter(store.table, before + between) == AfterAll(AfterAll(store.table, before), between)
  {
    AfterBoth(store.table, before, between);
  }

  lemma {:induction false} AfterBoth(t: Table, a: seq<Action>, b: seq<Action>)
    requires WellKept(t)
    ensures AfterAll(t, a + b) == AfterAll(AfterAll(t, a), b)
  {
    if b == [] {
      assert a + b == a;
    } else {
      var n := |b| - 1;
      assert (a + b)[..|a + b| - 1] == a + b[..n];
      AfterBoth(t, a, b[..n]);
    }
  }

  lemma IdentifiedIs(invocation: Invocation, outside: Outside, readings: Readings, at: nat, p: Principal)
    requires Identified(invocation, outside, readings, at, p)
    ensures outside.verified == Some(p)
  {}

  lemma StretchesNamed(t: Table, outside: Outside, readings: Readings, scope: Scope, p: Principal, c: Credential,
                       admitted: seq<Grant>, policy: Policy, grants: seq<Grant>)
    requires Resolved(p, admitted, scope, policy, outside, readings, 6, c)
    requires ReservedAgain(t, p, c, admitted, scope, policy, outside.secondWorks, readings, 8, grants)
    ensures SameGrants(admitted, grants) && outside.resolved == Some(c)
  {}

  lemma SameReserved(t: Table, a: Admitted, policy: Policy, working: bool, at: nat, grants: seq<Grant>)
    requires ReservedAgain(t, a.principal, a.credential, a.grants, a.invocation.identity.scope, policy, working,
                           a.clock.readings, at, grants)
    ensures SameGrants(a.grants, grants)
  {}

  lemma RecheckedPolicy(a: Admitted, policy: Policy, attempt: Attempt, at: nat)
    requires Rechecked(a, policy, attempt, at)
    ensures SelectedPolicy(a.invocation) == Ok(policy)
  {}

  lemma ValidNotExpired(a: Admitted, now: u64, late: bool)
    requires a.ValidAt(now, late)
    ensures !a.ExpiredAt(now)
  {}

  lemma SealedValid(a: Admitted, now: u64)
    requires SealFits(a.principal, a.grants, a.credential, a.invocation, a.policy, now)
    ensures a.ValidAt(now, false)
  {}

  lemma {:induction false} MarksGrow(marks: seq<nat>, i: nat, j: nat)
    requires i <= j < |marks| && forall k :: 0 <= k < |marks| - 1 ==> marks[k] < marks[k + 1]
    ensures marks[i] <= marks[j]
  {
    if i < j {
      MarksGrow(marks, i, j - 1);
      assert marks[j - 1] < marks[j - 1 + 1];
    }
  }
}
