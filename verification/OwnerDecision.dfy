/**
 When an admission and a revalidation succeed, as conditions on what the other components answer, on the
 clock's readings and on the grants found: what the checks made on the way amount to in the end.
 */
module OwnerDecision {
  import opened Bytes
  import opened Identifiers
  import opened SubjectGrants
  import opened OwnerAdmission

  /** The answers of the other components to one admission, and what of it fails. */
  datatype Outside = Outside(envelope: bool, verified: Option<Principal>, resolved: Option<Credential>,
                             firstWorks: bool, secondWorks: bool, late: bool)

  /** One revalidation: what others do ahead of it, and what of it fails. */
  datatype Attempt = Attempt(others: seq<Action>, working: bool, lateBefore: bool, lateAfter: bool)

  // ---- What a reservation finds ----

  /** These are the grants found, permission by permission. */
  ghost predicate Reserves(t: Table, issuer: bytes, subject: Id, scope: Scope, required: seq<Permission>, now: u64,
                           grants: seq<Grant>)
  {
    |grants| == |required|
    && forall k :: 0 <= k < |required| ==> Found(t, issuer, subject, scope, required[k], now, grants[k])
  }

  lemma ReservesNone(t: Table, issuer: bytes, subject: Id, scope: Scope, required: seq<Permission>, now: u64,
                     grants: seq<Grant>)
    requires Reserves(t, issuer, subject, scope, required, now, grants)
    ensures forall k :: 0 <= k < |required| ==> !Barren(t, issuer, subject, scope, required[k], now)
  {
    forall k | 0 <= k < |required| ensures !Barren(t, issuer, subject, scope, required[k], now) {
      assert Found(t, issuer, subject, scope, required[k], now, grants[k]);
    }
  }

  lemma ReservesOnce(t: Table, issuer: bytes, subject: Id, scope: Scope, required: seq<Permission>, now: u64,
                     a: seq<Grant>, b: seq<Grant>)
    requires Reserves(t, issuer, subject, scope, required, now, a) && Reserves(t, issuer, subject, scope, required, now, b)
    ensures a == b
  {
    forall k | 0 <= k < |a| ensures a[k] == b[k] {
      FoundOnce(t, issuer, subject, scope, required[k], now, a[k], b[k]);
    }
  }

  /** Grants found by two reservations that compare the same are found in the same order. */
  lemma ReservedSame(t: Table, u: Table, issuer: bytes, subject: Id, scope: Scope, required: seq<Permission>, now: u64,
                     later: u64, a: seq<Grant>, b: seq<Grant>)
    requires Distinct(required)
    requires Reserves(t, issuer, subject, scope, required, now, a) && Reserves(u, issuer, subject, scope, required, later, b)
    ensures SameGrants(a, b) <==> a == b
  {
    if SameGrants(a, b) {
      SameMembers(a, b);
      forall k | 0 <= k < |a| ensures a[k] == b[k] {
        assert a[k] in b;
        var j :| 0 <= j < |b| && b[j] == a[k];
        assert required[j] == b[j].permission == a[k].permission == required[k];
      }
    }
  }

  lemma ReservedOnePerPermission(t: Table, issuer: bytes, subject: Id, scope: Scope, required: seq<Permission>, now: u64,
                                 grants: seq<Grant>)
    requires Distinct(required) && Reserves(t, issuer, subject, scope, required, now, grants)
    ensures OnePerPermission(grants)
  {}

  // ---- Conditions ----

  /** The operation's policy names each scope its permissions need, once, and no other. */
  ghost predicate ClosedPolicy(policy: Policy) {
    && policy.required != [] && |SetOf(policy.scopes)| == |policy.scopes|
    && SetOf(policy.scopes) == ScopesFor(policy.required)
  }

  /** The harness scopes a credential must hold, permission by permission. */
  lemma ScopesCovered(scopes: set<HarnessScope>, required: seq<Permission>)
    ensures ScopesFor(required) <= scopes
            <==> && (MetadataRead in required ==> WorkflowRead in scopes)
                 && (ContentRead in required ==> ContextContentRead in scopes)
                 && (ContentWrite in required ==> WorkflowContentWrite in scopes)
                 && (Edit in required ==> ContextEdit in scopes)
                 && (Objective in required ==> ContextObjectiveEdit in scopes)
                 && (Commit in required || Pause in required || Resume in required ==> WorkflowControl in scopes)
  {
    forall p | p in required ensures ScopeFor(p) in ScopesFor(required) {}
  }

  /** The principal and the credential are the ones the invocation names. */
  predicate Named(p: Principal, c: Credential, i: Identity, required: seq<Permission>) {
    && p.issuer == i.issuer && p.subject == i.subject && p.audience == i.audience && p.credentialId == i.credentialId
    && c.descriptorValid && c.consoleIssuer == i.issuer && c.consoleSubject == i.subject
    && c.harnessSubject == i.subject && c.harnessSubject == i.actorSubject && c.scope == i.scope
    && c.expiresAt == i.credentialExpiresAt && c.expiresAt <= p.expiresAt && c.referenceId == i.credentialReferenceId
    && ScopesFor(required) <= c.scopes
  }

  /** More than a second is left of everything. */
  predicate TimeLeft(p: Principal, c: Credential, grants: seq<Grant>, now: u64) {
    now + 1 < p.expiresAt && now + 1 < c.expiresAt && forall k :: 0 <= k < |grants| ==> now + 1 < grants[k].expiresAt
  }

  /** One of the grants is the one the invocation names. */
  predicate NamesGrant(i: Identity, grants: seq<Grant>) {
    exists k :: 0 <= k < |grants| && grants[k].grantId == i.grantId && grants[k].generation == i.grantGeneration
                && grants[k].expiresAt == i.grantExpiresAt
  }

  ghost predicate AllRead(readings: Readings, from: nat, to: nat) {
    forall k :: from <= k < to ==> readings(k).Some?
  }

  /** These grants were found by both reservations, at the fourth and the eighth reading, and can be sealed at the ninth. */
  ghost predicate Sealable(i: Identity, policy: Policy, p: Principal, c: Credential, readings: Readings, first: Table,
                           second: Table, grants: seq<Grant>)
  {
    && Reserves(first, i.issuer, i.subject, i.scope, policy.required, Highest(readings, 4), grants)
    && Reserves(second, i.issuer, i.subject, i.scope, policy.required, Highest(readings, 8), grants)
    && |grants| <= 8 && NamesGrant(i, grants) && TimeLeft(p, c, grants, Highest(readings, 9))
  }

  /** Nothing is wrong with the request itself or with the answers to it. */
  ghost predicate Answered(facadeScope: Scope, invocation: Invocation, outside: Outside, readings: Readings) {
    && AllRead(readings, 0, 9)
    && invocation.wellFormed && facadeScope == invocation.identity.scope && ValidScope(facadeScope)
    && invocation.identity.workflowRunId == facadeScope.runId
    && invocation.policy.Some? && ClosedPolicy(invocation.policy.value) && Distinct(invocation.policy.value.required)
    && outside.envelope && outside.verified.Some? && outside.resolved.Some?
    && outside.firstWorks && outside.secondWorks && !outside.late
    && Named(outside.verified.value, outside.resolved.value, invocation.identity, invocation.policy.value.required)
  }

  /**
   An admission succeeds: its request and its answers are in order, and both reservations find one list of
   grants that can still be sealed at the last reading. No earlier time matters but the two reservations'.
   */
  ghost predicate Admittable(facadeScope: Scope, invocation: Invocation, outside: Outside, readings: Readings,
                             first: Table, second: Table)
  {
    && Answered(facadeScope, invocation, outside, readings)
    && exists grants :: Sealable(invocation.identity, invocation.policy.value, outside.verified.value,
                                 outside.resolved.value, readings, first, second, grants)
  }

  // ---- Each stretch of an admission, as the ingress checks it ----

  /** The verified principal, with the clock read `at` times before. */
  ghost predicate Identified(invocation: Invocation, outside: Outside, readings: Readings, at: nat, p: Principal) {
    && outside.envelope && outside.verified == Some(p) && AllRead(readings, at, at + 3)
    && PrincipalFits(p, invocation, Highest(readings, at + 2)) && Current(p, Highest(readings, at + 3))
  }

  ghost predicate FirstReserved(t: Table, p: Principal, scope: Scope, policy: Policy, working: bool, readings: Readings,
                                at: nat, grants: seq<Grant>)
  {
    && working && ValidScope(scope) && policy.required != [] && Distinct(policy.required)
    && Reserves(t, p.issuer, p.subject, scope, policy.required, Highest(readings, at), grants)
    && AllRead(readings, at, at + 2) && Current(p, Highest(readings, at + 2))
    && SelectedGrantsFit(grants, p, scope, policy, Highest(readings, at + 1))
    && SelectedGrantsFit(grants, p, scope, policy, Highest(readings, at + 2))
  }

  ghost predicate Resolved(p: Principal, grants: seq<Grant>, scope: Scope, policy: Policy, outside: Outside,
                           readings: Readings, at: nat, c: Credential)
  {
    && outside.resolved == Some(c) && AllRead(readings, at, at + 2)
    && Current(p, Highest(readings, at + 1)) && Current(p, Highest(readings, at + 2))
    && SelectedGrantsFit(grants, p, scope, policy, Highest(readings, at + 1))
    && CredentialFits(c, p, scope, policy.required, Highest(readings, at + 1)).Ok?
  }

  ghost predicate ReservedAgain(t: Table, p: Principal, c: Credential, admitted: seq<Grant>, scope: Scope, policy: Policy,
                                working: bool, readings: Readings, at: nat, grants: seq<Grant>)
  {
    && working && ValidScope(scope) && policy.required != [] && Distinct(policy.required)
    && Reserves(t, p.issuer, p.subject, scope, policy.required, Highest(readings, at), grants)
    && AllRead(readings, at, at + 1) && Current(p, Highest(readings, at + 1))
    && SelectedGrantsFit(grants, p, scope, policy, Highest(readings, at + 1)) && SameGrants(admitted, grants)
    && CredentialFits(c, p, scope, policy.required, Highest(readings, at + 1)).Ok?
  }

  /** The stretches after the first reservation pass, with these results. */
  ghost predicate PassesRest(invocation: Invocation, outside: Outside, readings: Readings, second: Table, p: Principal,
                             c: Credential, policy: Policy, a: seq<Grant>, b: seq<Grant>)
  {
    var scope := invocation.identity.scope;
    && !outside.late && Resolved(p, a, scope, policy, outside, readings, 6, c)
    && ReservedAgain(second, p, c, a, scope, policy, outside.secondWorks, readings, 8, b)
    && SealFits(p, b, c, invocation, policy, Highest(readings, 9))
  }

  /** All the stretches of an admission pass. */
  ghost predicate Passes(invocation: Invocation, outside: Outside, readings: Readings, first: Table, second: Table,
                         p: Principal, c: Credential, policy: Policy, a: seq<Grant>, b: seq<Grant>)
  {
    && Identified(invocation, outside, readings, 1, p)
    && FirstReserved(first, p, invocation.identity.scope, policy, outside.firstWorks, readings, 4, a)
    && PassesRest(invocation, outside, readings, second, p, c, policy, a, b)
  }

  // ---- The stretches together ----

  /** Grants found at one time still fit at a later one before they expire. */
  lemma FitsLater(t: Table, p: Principal, scope: Scope, policy: Policy, now: u64, later: u64, grants: seq<Grant>)
    requires Reserves(t, p.issuer, p.subject, scope, policy.required, now, grants) && now <= later
    requires ClosedPolicy(policy) && Distinct(policy.required)
    requires forall k :: 0 <= k < |grants| ==> later < grants[k].expiresAt
    ensures SelectedGrantsFit(grants, p, scope, policy, later)
  {
    ReservedOnePerPermission(t, p.issuer, p.subject, scope, policy.required, now, grants);
    forall k | 0 <= k < |grants| ensures GrantFits(grants[k], p, scope, policy.required, later) {
      assert Found(t, p.issuer, p.subject, scope, policy.required[k], now, grants[k]);
    }
    forall q | q in policy.required ensures exists k :: 0 <= k < |grants| && grants[k].permission == q {
      var k :| 0 <= k < |policy.required| && policy.required[k] == q;
      assert Found(t, p.issuer, p.subject, scope, policy.required[k], now, grants[k]);
    }
    ScopesOf(grants, policy.required);
  }

  lemma ScopesOf(grants: seq<Grant>, required: seq<Permission>)
    requires forall k :: 0 <= k < |grants| ==> grants[k].permission in required
    requires forall q :: q in required ==> exists k :: 0 <= k < |grants| && grants[k].permission == q
    ensures (set g | g in grants :: ScopeFor(g.permission)) == ScopesFor(required)
  {
    forall q | q in required ensures ScopeFor(q) in set g | g in grants :: ScopeFor(g.permission) {
      var k :| 0 <= k < |grants| && grants[k].permission == q;
      assert grants[k] in grants;
    }
  }

  lemma ClosedSelected(invocation: Invocation)
    requires invocation.policy.Some? && ClosedPolicy(invocation.policy.value)
    ensures SelectedPolicy(invocation) == Ok(invocation.policy.value) && invocation.policy.value.required != []
  {
    var policy := invocation.policy.value;
    assert ScopeFor(policy.required[0]) in ScopesFor(policy.required);
    assert ScopeFor(policy.required[0]) in SetOf(policy.scopes);
  }

  lemma TimesGrow(readings: Readings, n: nat)
    ensures forall k :: 0 <= k <= n ==> Highest(readings, k) <= Highest(readings, n)
  {
    forall k | 0 <= k <= n ensures Highest(readings, k) <= Highest(readings, n) {
      HighestGrows(readings, k, n);
    }
  }

  /** What makes an admission admittable makes each stretch of it pass. */
  lemma AdmittablePasses(facadeScope: Scope, invocation: Invocation, outside: Outside, readings: Readings, first: Table,
                         second: Table, grants: seq<Grant>)
    requires Answered(facadeScope, invocation, outside, readings)
    requires Sealable(invocation.identity, invocation.policy.value, outside.verified.value, outside.resolved.value,
                      readings, first, second, grants)
    ensures var p, c, policy := outside.verified.value, outside.resolved.value, invocation.policy.value;
            SelectedPolicy(invocation) == Ok(policy)
            && Passes(invocation, outside, readings, first, second, p, c, policy, grants, grants)
  {
    hide Highest, SelectedGrantsFit, Reserves, ValidScope, SealFits, CredentialFits, PrincipalFits, Sealable, ClosedPolicy;
    var p, c, policy := outside.verified.value, outside.resolved.value, invocation.policy.value;
    ClosedSelected(invocation);
    NamedFits(invocation, p, c, policy, readings, grants, first, second);
    SealablePasses(facadeScope, policy, p, c, readings, first, second, invocation.identity, grants);
    SealableSeals(facadeScope, invocation, policy, p, c, readings, first, second, grants);
  }

  /** Whoever is named and still in time at the last reading was so at every earlier one. */
  lemma NamedFits(invocation: Invocation, p: Principal, c: Credential, policy: Policy, readings: Readings,
                  grants: seq<Grant>, first: Table, second: Table)
    requires Named(p, c, invocation.identity, policy.required)
    requires Sealable(invocation.identity, policy, p, c, readings, first, second, grants)
    ensures forall k :: 0 <= k <= 9
                        ==> PrincipalFits(p, invocation, Highest(readings, k)) && Current(p, Highest(readings, k))
    ensures forall k :: 0 <= k <= 9
                        ==> CredentialFits(c, p, invocation.identity.scope, policy.required, Highest(readings, k)).Ok?
  {
    hide Highest, Reserves, ScopesFor;
    TimesGrow(readings, 9);
  }

  /** Grants sealable at the end fitted from the first reservation on. */
  lemma SealablePasses(scope: Scope, policy: Policy, p: Principal, c: Credential, readings: Readings, first: Table,
                       second: Table, i: Identity, grants: seq<Grant>)
    requires scope == i.scope && p.issuer == i.issuer && p.subject == i.subject
    requires ClosedPolicy(policy) && Distinct(policy.required)
    requires Sealable(i, policy, p, c, readings, first, second, grants)
    ensures Reserves(first, p.issuer, p.subject, scope, policy.required, Highest(readings, 4), grants)
    ensures Reserves(second, p.issuer, p.subject, scope, policy.required, Highest(readings, 8), grants)
    ensures SelectedGrantsFit(grants, p, scope, policy, Highest(readings, 5))
    ensures SelectedGrantsFit(grants, p, scope, policy, Highest(readings, 6))
    ensures SelectedGrantsFit(grants, p, scope, policy, Highest(readings, 7))
    ensures SelectedGrantsFit(grants, p, scope, policy, Highest(readings, 9))
  {
    hide Highest, SelectedGrantsFit, Reserves, ClosedPolicy;
    TimesGrow(readings, 9);
    HighestGrows(readings, 4, 5);
    HighestGrows(readings, 4, 6);
    HighestGrows(readings, 4, 7);
    HighestGrows(readings, 8, 9);
    FitsLater(first, p, scope, policy, Highest(readings, 4), Highest(readings, 5), grants);
    FitsLater(first, p, scope, policy, Highest(readings, 4), Highest(readings, 6), grants);
    FitsLater(first, p, scope, policy, Highest(readings, 4), Highest(readings, 7), grants);
    FitsLater(second, p, scope, policy, Highest(readings, 8), Highest(readings, 9), grants);
  }

  lemma SealableSeals(scope: Scope, invocation: Invocation, policy: Policy, p: Principal, c: Credential,
                      readings: Readings, first: Table, second: Table, grants: seq<Grant>)
    requires scope == invocation.identity.scope && invocation.identity.workflowRunId == scope.runId
    requires Named(p, c, invocation.identity, policy.required)
    requires Sealable(invocation.identity, policy, p, c, readings, first, second, grants)
    requires SelectedGrantsFit(grants, p, scope, policy, Highest(readings, 9))
    ensures SealFits(p, grants, c, invocation, policy, Highest(readings, 9))
  {
    hide Highest, SelectedGrantsFit, Found, ScopesFor, GrantFits;
    FitEach(grants, p, scope, policy, Highest(readings, 9));
  }

  lemma FitEach(grants: seq<Grant>, p: Principal, scope: Scope, policy: Policy, now: u64)
    requires SelectedGrantsFit(grants, p, scope, policy, now)
    ensures forall k :: 0 <= k < |grants| ==> GrantFits(grants[k], p, scope, policy.required, now)
    ensures grants != []
  {
    assert policy.required[0] in policy.required;
  }

  /** And stretches that all pass make it admissible. */
  lemma PassesAdmittable(facadeScope: Scope, invocation: Invocation, outside: Outside, readings: Readings, first: Table,
                         second: Table, p: Principal, c: Credential, policy: Policy, a: seq<Grant>, b: seq<Grant>)
    requires readings(0).Some? && invocation.wellFormed && facadeScope == invocation.identity.scope
    requires SelectedPolicy(invocation) == Ok(policy)
    requires Passes(invocation, outside, readings, first, second, p, c, policy, a, b)
    ensures a == b && Admittable(facadeScope, invocation, outside, readings, first, second)
    ensures SealFits(p, b, c, invocation, policy, Highest(readings, 9))
  {
    hide Highest, SelectedGrantsFit, Found, ValidScope, ScopesFor, SameGrants;
    ReservedSame(first, second, p.issuer, p.subject, facadeScope, policy.required, Highest(readings, 4),
                 Highest(readings, 8), a, b);
    assert Sealable(invocation.identity, policy, p, c, readings, first, second, b);
  }

  /** What an admission would seal, if the request is admittable. */
  lemma Expected(facadeScope: Scope, invocation: Invocation, outside: Outside, readings: Readings, first: Table,
                 second: Table)
    returns (p: Principal, c: Credential, grants: seq<Grant>)
    ensures Admittable(facadeScope, invocation, outside, readings, first, second)
            ==> readings(0).Some? && invocation.wellFormed && facadeScope == invocation.identity.scope
                && SelectedPolicy(invocation).Ok?
                && Passes(invocation, outside, readings, first, second, p, c, SelectedPolicy(invocation).value, grants,
                          grants)
  {
    hide Sealable, Passes, SelectedPolicy;
    if Admittable(facadeScope, invocation, outside, readings, first, second) {
      p, c := outside.verified.value, outside.resolved.value;
      grants :| Sealable(invocation.identity, invocation.policy.value, p, c, readings, first, second, grants);
      AdmittablePasses(facadeScope, invocation, outside, readings, first, second, grants);
    } else {
      p, c, grants := *, *, *;
    }
  }

  // ---- Revalidation ----

  /** The sealed grants are those a reservation finds, and have all started and none expired. */
  ghost predicate StillReserved(a: Admitted, t: Table, required: seq<Permission>, readings: Readings, at: nat,
                                refreshed: seq<Grant>)
  {
    && Reserves(t, a.principal.issuer, a.principal.subject, a.invocation.identity.scope, required,
                Highest(readings, at + 2), refreshed)
    && |a.grants| == |refreshed| && (forall g :: g in a.grants <==> g in refreshed) && OnePerPermission(a.grants)
    && forall k :: 0 <= k < |a.grants|
                   ==> a.grants[k].notBefore <= Highest(readings, at + 1)
                       && Highest(readings, at + 3) < a.grants[k].expiresAt
  }

  /** What was sealed names who the invocation names, and has not expired. */
  ghost predicate StillNamed(a: Admitted, required: seq<Permission>, now: u64) {
    var p, c, i := a.principal, a.credential, a.invocation.identity;
    && p.issuer == i.issuer && p.subject == i.subject && p.audience == i.audience && p.credentialId == i.credentialId
    && c.descriptorValid && c.consoleIssuer == p.issuer && c.consoleSubject == p.subject && c.harnessSubject == p.subject
    && c.scope == i.scope && c.expiresAt <= p.expiresAt && ScopesFor(required) <= c.scopes
    && now < p.expiresAt && now < c.expiresAt
  }

  /** A revalidation succeeds, with the clock read `at` times before it. */
  ghost predicate Revalidatable(a: Admitted, attempt: Attempt, at: nat, t: Table) {
    && AllRead(a.clock.readings, at, at + 3) && attempt.working && !attempt.lateBefore && !attempt.lateAfter
    && a.invocation.policy.Some? && ClosedPolicy(a.invocation.policy.value)
    && Distinct(a.invocation.policy.value.required) && ValidScope(a.invocation.identity.scope)
    && StillNamed(a, a.invocation.policy.value.required, Highest(a.clock.readings, at + 3))
    && exists refreshed :: StillReserved(a, t, a.invocation.policy.value.required, a.clock.readings, at, refreshed)
  }

  /** The checks ahead of a revalidation's reservation. */
  ghost predicate Rechecked(a: Admitted, policy: Policy, attempt: Attempt, at: nat) {
    var now := Highest(a.clock.readings, at + 1);
    && AllRead(a.clock.readings, at, at + 2) && SelectedPolicy(a.invocation) == Ok(policy)
    && PrincipalFits(a.principal, a.invocation, now) && a.ValidAt(now, attempt.lateBefore)
    && SelectedGrantsFit(a.grants, a.principal, a.invocation.identity.scope, policy, now)
    && CredentialFits(a.credential, a.principal, a.invocation.identity.scope, policy.required, now).Ok?
    && Current(a.principal, Highest(a.clock.readings, at + 2))
  }

  /** The checks after it. */
  ghost predicate StillValid(a: Admitted, attempt: Attempt, at: nat) {
    var now := Highest(a.clock.readings, at + 3);
    PrincipalFits(a.principal, a.invocation, now) && a.ValidAt(now, attempt.lateAfter)
  }

  lemma SealedFit(a: Admitted, t: Table, policy: Policy, now: u64, earlier: u64, refreshed: seq<Grant>)
    requires Reserves(t, a.principal.issuer, a.principal.subject, a.invocation.identity.scope, policy.required, now,
                      refreshed)
    requires |a.grants| == |refreshed| && (forall g :: g in a.grants <==> g in refreshed) && OnePerPermission(a.grants)
    requires forall k :: 0 <= k < |a.grants| ==> a.grants[k].notBefore <= earlier < a.grants[k].expiresAt
    requires ClosedPolicy(policy) && Distinct(policy.required)
    ensures SelectedGrantsFit(a.grants, a.principal, a.invocation.identity.scope, policy, earlier)
  {
    hide Found;
    forall k | 0 <= k < |a.grants|
      ensures GrantFits(a.grants[k], a.principal, a.invocation.identity.scope, policy.required, earlier)
    {
      assert a.grants[k] in refreshed;
      var j :| 0 <= j < |refreshed| && refreshed[j] == a.grants[k];
      FoundFields(t, a.principal, a.invocation.identity.scope, policy.required[j], now, refreshed[j]);
    }
    forall q | q in policy.required ensures exists k :: 0 <= k < |a.grants| && a.grants[k].permission == q {
      var j :| 0 <= j < |policy.required| && policy.required[j] == q;
      FoundFields(t, a.principal, a.invocation.identity.scope, policy.required[j], now, refreshed[j]);
      assert refreshed[j] in a.grants;
    }
    ScopesOf(a.grants, policy.required);
  }

  lemma FoundFields(t: Table, p: Principal, scope: Scope, permission: Permission, now: u64, g: Grant)
    requires Found(t, p.issuer, p.subject, scope, permission, now, g)
    ensures g.issuer == p.issuer && g.subject == p.subject && g.scope == scope && g.permission == permission
    ensures g.notBefore <= now < g.expiresAt
  {}

  lemma RevalidatablePasses(a: Admitted, attempt: Attempt, at: nat, t: Table, refreshed: seq<Grant>)
    requires Revalidatable(a, attempt, at, t)
    requires StillReserved(a, t, a.invocation.policy.value.required, a.clock.readings, at, refreshed)
    ensures var policy := a.invocation.policy.value;
            && SelectedPolicy(a.invocation) == Ok(policy)
            && Rechecked(a, policy, attempt, at) && StillValid(a, attempt, at)
            && ReservedAgain(t, a.principal, a.credential, a.grants, a.invocation.identity.scope, policy, attempt.working,
                             a.clock.readings, at + 2, refreshed)
  {
    hide Highest, SelectedGrantsFit, GrantsFit, Found, ValidScope, ScopesFor, SameGrants;
    var readings, policy, scope := a.clock.readings, a.invocation.policy.value, a.invocation.identity.scope;
    ClosedSelected(a.invocation);
    TimesGrow(readings, at + 3);
    HighestGrows(readings, at + 1, at + 3);
    HighestGrows(readings, at + 2, at + 3);
    SealedFit(a, t, policy, Highest(readings, at + 2), Highest(readings, at + 1), refreshed);
    ReservedOnePerPermission(t, a.principal.issuer, a.principal.subject, scope, policy.required,
                             Highest(readings, at + 2), refreshed);
    SameGrantsExactly(a.grants, refreshed);
    forall k | 0 <= k < |refreshed| ensures Highest(readings, at + 3) < refreshed[k].expiresAt {
      assert refreshed[k] in a.grants;
    }
    HighestGrows(readings, at + 1, at + 2);
    FitsLater(t, a.principal, scope, policy, Highest(readings, at + 2), Highest(readings, at + 3), refreshed);
  }

  lemma OneEach(grants: seq<Grant>, p: Principal, scope: Scope, policy: Policy, now: u64)
    requires SelectedGrantsFit(grants, p, scope, policy, now)
    ensures OnePerPermission(grants)
  {}

  lemma StillNamedAfter(a: Admitted, policy: Policy, attempt: Attempt, at: nat)
    requires Rechecked(a, policy, attempt, at) && StillValid(a, attempt, at)
    ensures StillNamed(a, policy.required, Highest(a.clock.readings, at + 3))
    ensures a.invocation.policy == Some(policy) && ClosedPolicy(policy) && !attempt.lateBefore && !attempt.lateAfter
    ensures AllRead(a.clock.readings, at, at + 2) && OnePerPermission(a.grants)
    ensures forall k :: 0 <= k < |a.grants|
                        ==> a.grants[k].notBefore <= Highest(a.clock.readings, at + 1)
                            && Highest(a.clock.readings, at + 3) < a.grants[k].expiresAt
  {
    hide Highest, SelectedGrantsFit, ScopesFor;
    OneEach(a.grants, a.principal, a.invocation.identity.scope, policy, Highest(a.clock.readings, at + 1));
  }

  lemma PassesRevalidatable(a: Admitted, attempt: Attempt, at: nat, t: Table, policy: Policy, refreshed: seq<Grant>)
    requires Rechecked(a, policy, attempt, at) && StillValid(a, attempt, at)
    requires ReservedAgain(t, a.principal, a.credential, a.grants, a.invocation.identity.scope, policy, attempt.working,
                           a.clock.readings, at + 2, refreshed)
    ensures Revalidatable(a, attempt, at, t)
  {
    hide Highest, Found, ValidScope, ScopesFor, SameGrants, Rechecked, StillValid, StillNamed, SelectedGrantsFit;
    hide CredentialFits, ClosedPolicy;
    var readings, scope := a.clock.readings, a.invocation.identity.scope;
    StillNamedAfter(a, policy, attempt, at);
    ReservedOnePerPermission(t, a.principal.issuer, a.principal.subject, scope, policy.required,
                             Highest(readings, at + 2), refreshed);
    SameGrantsExactly(a.grants, refreshed);
    assert StillReserved(a, t, policy.required, readings, at, refreshed);
  }

  /** What a revalidation would find again, if it can succeed. */
  lemma ExpectedAgain(a: Admitted, attempt: Attempt, at: nat, t: Table) returns (refreshed: seq<Grant>)
    ensures Revalidatable(a, attempt, at, t)
            ==> SelectedPolicy(a.invocation).Ok?
                && var policy := SelectedPolicy(a.invocation).value;
                   && Rechecked(a, policy, attempt, at) && StillValid(a, attempt, at)
                   && ReservedAgain(t, a.principal, a.credential, a.grants, a.invocation.identity.scope, policy,
                                    attempt.working, a.clock.readings, at + 2, refreshed)
  {
    hide StillReserved, ReservedAgain, StillValid, Rechecked, SelectedPolicy, StillNamed;
    if Revalidatable(a, attempt, at, t) {
      refreshed :| StillReserved(a, t, a.invocation.policy.value.required, a.clock.readings, at, refreshed);
      RevalidatablePasses(a, attempt, at, t, refreshed);
    } else {
      refreshed := [];
    }
  }
}
