/**
 Admission of one owner invocation: grants are reserved twice with a credential resolved in between,
 while others provision and revoke and the system clock reads anything. A success means every sealed
 grant was live for the whole interval between the two reservations.
 */
module OwnerAdmission {
  import opened Bytes
  import opened Identifiers
  import opened Sorting
  import opened SubjectGrants

  datatype HarnessScope =
    | WorkflowRead | ContextContentRead | WorkflowContentWrite | ContextEdit | ContextObjectiveEdit | WorkflowControl

  datatype Principal = Principal(issuer: bytes, subject: Id, audience: bytes, credentialId: bytes, expiresAt: u64)

  datatype Credential = Credential(descriptorValid: bool, consoleIssuer: bytes, consoleSubject: Id, harnessSubject: Id,
                                   scope: Scope, scopes: set<HarnessScope>, expiresAt: u64, referenceId: bytes)

  datatype Identity = Identity(issuer: bytes, subject: Id, audience: bytes, credentialId: bytes, scope: Scope,
                               grantId: Id, grantGeneration: u64, grantExpiresAt: u64, actorSubject: Id,
                               credentialReferenceId: bytes, credentialExpiresAt: u64, workflowRunId: Id)

  /** What the operation and its use kind select; nothing for a use the operation does not support. */
  datatype Policy = Policy(required: seq<Permission>, scopes: seq<HarnessScope>)

  datatype Invocation = Invocation(wellFormed: bool, identity: Identity, policy: Option<Policy>)

  datatype AuthError =
    | Unauthorized | InvalidRequest | InvalidBearer | GrantDenied | GrantStoreUnavailable
    | CredentialUnavailable | InvalidCredential | CredentialDenied

  const MAX_AUTH_GRANTS: nat := 8

  function ScopeFor(permission: Permission): HarnessScope {
    match permission
    case MetadataRead => WorkflowRead
    case ContentRead => ContextContentRead
    case ContentWrite => WorkflowContentWrite
    case Edit => ContextEdit
    case Objective => ContextObjectiveEdit
    case _ => WorkflowControl
  }

  function ScopesFor(permissions: seq<Permission>): set<HarnessScope> {
    set p | p in permissions :: ScopeFor(p)
  }

  /** `selected_policy`: the scopes are exactly those of the permissions, each once. */
  function SelectedPolicy(invocation: Invocation): Result<Policy, AuthError> {
    match invocation.policy
    case None => Err(InvalidRequest)
    case Some(policy) =>
      if policy.required == [] || policy.scopes == [] || |SetOf(policy.scopes)| != |policy.scopes|
         || ScopesFor(policy.required) != SetOf(policy.scopes) then Err(InvalidRequest)
      else Ok(policy)
  }

  // ---- Checks at one time ----

  predicate Current(principal: Principal, now: u64) {
    principal.expiresAt > now
  }

  predicate PrincipalFits(principal: Principal, invocation: Invocation, now: u64) {
    var identity := invocation.identity;
    && Current(principal, now)
    && principal.issuer == identity.issuer && principal.subject == identity.subject
    && principal.audience == identity.audience && principal.credentialId == identity.credentialId
  }

  predicate GrantFits(g: Grant, principal: Principal, scope: Scope, required: seq<Permission>, now: u64) {
    && g.issuer == principal.issuer && g.subject == principal.subject && g.scope == scope
    && g.notBefore <= now < g.expiresAt && g.permission in required
  }

  /** Every grant fits now, no permission is granted twice, and each required one is granted. */
  ghost predicate GrantsFit(grants: seq<Grant>, principal: Principal, scope: Scope, required: seq<Permission>, now: u64)
  {
    && required != [] && Distinct(required)
    && (forall k :: 0 <= k < |grants| ==> GrantFits(grants[k], principal, scope, required, now))
    && OnePerPermission(grants)
    && forall p :: p in required ==> exists k :: 0 <= k < |grants| && grants[k].permission == p
  }

  /** What it takes for grants to fit, field by field. */
  lemma GrantsFitFields(grants: seq<Grant>, principal: Principal, scope: Scope, required: seq<Permission>, now: u64)
    ensures GrantsFit(grants, principal, scope, required, now)
            <==> && required != [] && Distinct(required) && OnePerPermission(grants)
                 && (forall p :: p in required <==> exists k :: 0 <= k < |grants| && grants[k].permission == p)
                 && (forall k :: 0 <= k < |grants| ==> grants[k].issuer == principal.issuer)
                 && (forall k :: 0 <= k < |grants| ==> grants[k].subject == principal.subject)
                 && (forall k :: 0 <= k < |grants| ==> grants[k].scope == scope)
                 && (forall k :: 0 <= k < |grants| ==> grants[k].notBefore <= now)
                 && (forall k :: 0 <= k < |grants| ==> now < grants[k].expiresAt)
  {
    if forall p :: p in required <==> exists k :: 0 <= k < |grants| && grants[k].permission == p {
      assert forall k :: 0 <= k < |grants| ==> grants[k].permission in required;
    }
  }

  predicate OnePerPermission(grants: seq<Grant>) {
    forall i, j :: 0 <= i < j < |grants| ==> grants[i].permission != grants[j].permission
  }

  /** `validate_admitted_grants`. */
  method ValidateAdmittedGrants(grants: seq<Grant>, principal: Principal, scope: Scope, required: seq<Permission>,
                                now: u64)
    returns (ok: bool)
    ensures ok <==> GrantsFit(grants, principal, scope, required, now)
  {
    if required == [] || !Distinct(required) {
      return false;
    }
    var seen: set<Permission> := {};
    for k := 0 to |grants|
      invariant forall j :: 0 <= j < k ==> GrantFits(grants[j], principal, scope, required, now)
      invariant forall p :: p in seen <==> exists j :: 0 <= j < k && grants[j].permission == p
      invariant OnePerPermission(grants[..k])
    {
      var g := grants[k];
      if !GrantFits(g, principal, scope, required, now) {
        return false;
      }
      if g.permission in seen {
        var j :| 0 <= j < k && grants[j].permission == g.permission;
        assert !OnePerPermission(grants);
        return false;
      }
      seen := seen + {g.permission};
    }
    assert grants[..|grants|] == grants;
    ok := forall p :: p in required ==> p in seen;
  }

  ghost predicate SelectedGrantsFit(grants: seq<Grant>, principal: Principal, scope: Scope, policy: Policy, now: u64) {
    && GrantsFit(grants, principal, scope, policy.required, now)
    && (set g | g in grants :: ScopeFor(g.permission)) == SetOf(policy.scopes)
  }

  method ValidateSelectedGrants(grants: seq<Grant>, principal: Principal, scope: Scope, policy: Policy, now: u64)
    returns (r: Result<(), AuthError>)
    ensures r == if SelectedGrantsFit(grants, principal, scope, policy, now) then Ok(()) else Err(GrantDenied)
  {
    var fits := ValidateAdmittedGrants(grants, principal, scope, policy.required, now);
    var scopes := set g | g in grants :: ScopeFor(g.permission);
    r := if fits && scopes == SetOf(policy.scopes) then Ok(()) else Err(GrantDenied);
  }

  function CredentialFits(c: Credential, principal: Principal, scope: Scope, required: seq<Permission>, now: u64)
    : Result<(), AuthError>
  {
    if !c.descriptorValid then Err(InvalidCredential)
    else if c.consoleIssuer != principal.issuer || c.consoleSubject != principal.subject
            || c.harnessSubject != principal.subject || c.scope != scope || c.expiresAt <= now
            || c.expiresAt > principal.expiresAt || !(ScopesFor(required) <= c.scopes) then Err(CredentialDenied)
    else Ok(())
  }

  /** Nothing sealed has expired, and one whole second more is left of the earliest expiry. */
  predicate SealFits(principal: Principal, grants: seq<Grant>, c: Credential, invocation: Invocation, policy: Policy,
                     now: u64)
  {
    var identity := invocation.identity;
    && PrincipalFits(principal, invocation, now)
    && CredentialFits(c, principal, identity.scope, policy.required, now).Ok?
    && c.harnessSubject == identity.actorSubject && c.expiresAt == identity.credentialExpiresAt
    && c.referenceId == identity.credentialReferenceId && identity.workflowRunId == identity.scope.runId
    && 1 <= |grants| <= MAX_AUTH_GRANTS && |grants| == |policy.required|
    && (forall k :: 0 <= k < |grants| ==> GrantFits(grants[k], principal, identity.scope, policy.required, now))
    && (exists k :: 0 <= k < |grants| && grants[k].grantId == identity.grantId
                    && grants[k].generation == identity.grantGeneration
                    && grants[k].expiresAt == identity.grantExpiresAt)
    && now + 1 < principal.expiresAt && now + 1 < c.expiresAt
    && (forall k :: 0 <= k < |grants| ==> now + 1 < grants[k].expiresAt)
  }

  // ---- Comparing reservations ----

  /** The position of the permission's name in alphabetical order. */
  function Rank(p: Permission): byte {
    match p
    case Commit => 0
    case ContentRead => 1
    case ContentWrite => 2
    case Edit => 3
    case MetadataRead => 4
    case Objective => 5
    case Pause => 6
    case Resume => 7
  }

  function GrantKey(g: Grant): bytes {
    [Rank(g.permission)] + g.grantId
  }

  /** `same_grants`: equal once sorted by permission name and then by id. */
  predicate SameGrants(a: seq<Grant>, b: seq<Grant>) {
    Sort(a, GrantKey) == Sort(b, GrantKey)
  }

  lemma KeysDistinct(grants: seq<Grant>)
    requires OnePerPermission(grants)
    ensures DistinctKeys(grants, GrantKey)
  {
    forall i, j | 0 <= i < j < |grants| ensures GrantKey(grants[i]) != GrantKey(grants[j]) {
      assert GrantKey(grants[i])[0] == Rank(grants[i].permission);
      assert GrantKey(grants[j])[0] == Rank(grants[j].permission);
    }
  }

  /** Of lists that grant no permission twice, it compares exactly their grants. */
  lemma SameGrantsExactly(a: seq<Grant>, b: seq<Grant>)
    requires OnePerPermission(a) && OnePerPermission(b)
    ensures SameGrants(a, b) <==> |a| == |b| && forall g :: g in a <==> g in b
  {
    KeysDistinct(a);
    KeysDistinct(b);
    SortSorts(a, GrantKey);
    SortSorts(b, GrantKey);
    if |a| == |b| && forall g :: g in a <==> g in b {
      SortedUnique(Sort(a, GrantKey), Sort(b, GrantKey), GrantKey);
    }
  }

  // ---- The clock ----

  /** What the system clock reads each time it is read: anything, earlier times included, or nothing. */
  type Readings = nat -> Option<u64>

  /** The highest of the first `n` readings. */
  function Highest(readings: Readings, n: nat): u64 {
    if n == 0 then 0
    else
      var before := Highest(readings, n - 1);
      if readings(n - 1).Some? && readings(n - 1).value > before then readings(n - 1).value else before
  }

  lemma {:induction false} HighestGrows(readings: Readings, m: nat, n: nat)
    requires m <= n
    ensures Highest(readings, m) <= Highest(readings, n)
    ensures m < n && readings(m).Some? ==> readings(m).value <= Highest(readings, n)
  {
    if m < n {
      HighestGrows(readings, m, n - 1);
    }
  }

  /** It is a reading that was taken, unless there was none above zero. */
  lemma {:induction false} HighestTaken(readings: Readings, n: nat)
    ensures Highest(readings, n) == 0 || exists k :: 0 <= k < n && readings(k) == Some(Highest(readings, n))
  {
    if n > 0 {
      HighestTaken(readings, n - 1);
    }
  }

  /** A floor under whatever the system clock reads. */
  class WallClock {
    const readings: Readings
    var floor: u64
    /** How often the clock was read. */
    var read: nat

    ghost predicate Valid()
      reads this
    {
      floor == Highest(readings, read)
    }

    constructor (readings: Readings, first: u64)
      requires readings(0) == Some(first)
      ensures Valid() && this.readings == readings && read == 1
    {
      this.readings, floor, read := readings, first, 1;
    }

    /** `advance_wall_clock`, for the reading taken now. */
    method Advance() returns (r: Result<u64, AuthError>)
      requires Valid()
      modifies this
      ensures Valid() && read == old(read) + 1
      ensures r == if readings(old(read)).Some? then Ok(floor) else Err(Unauthorized)
    {
      var reading := ReadClock();
      var seconds :- reading;
      if seconds > floor {
        floor := seconds;
      }
      r := Ok(floor);
    }

    /** The next reading of the system clock. */
    method ReadClock() returns (r: Result<u64, AuthError>)
      modifies `read
      ensures read == old(read) + 1
      ensures r == if readings(old(read)).Some? then Ok(readings(old(read)).value) else Err(Unauthorized)
    {
      r := if readings(read).Some? then Ok(readings(read).value) else Err(Unauthorized);
      read := read + 1;
    }
  }

  // ---- The sealed admission ----

  class Admitted {
    const principal: Principal
    const grants: seq<Grant>
    const credential: Credential
    const invocation: Invocation
    const policy: Policy
    const clock: WallClock
    /** The state of the grant table at the first reservation. */
    ghost const from: nat

    constructor (principal: Principal, grants: seq<Grant>, credential: Credential, invocation: Invocation,
                 policy: Policy, clock: WallClock, ghost from: nat)
      ensures this.principal == principal && this.grants == grants && this.credential == credential
      ensures this.invocation == invocation && this.policy == policy && this.clock == clock && this.from == from
    {
      this.principal, this.grants, this.credential := principal, grants, credential;
      this.invocation, this.policy, this.clock, this.from := invocation, policy, clock, from;
    }

    /** Something sealed has expired. */
    ghost predicate ExpiredAt(now: u64) {
      || principal.expiresAt <= now || credential.expiresAt <= now
      || exists k :: 0 <= k < |grants| && grants[k].expiresAt <= now
    }

    lemma ExpiresForGood(now: u64, later: u64)
      requires now <= later
      ensures ExpiredAt(now) ==> ExpiredAt(later)
    {}

    /** `is_valid_at`; `late` says that the monotonic deadline, which is another clock's, has run out. */
    predicate ValidAt(now: u64, late: bool) {
      && !late && principal.expiresAt > now && credential.expiresAt > now
      && forall k :: 0 <= k < |grants| ==> grants[k].notBefore <= now < grants[k].expiresAt
    }

    /** Every sealed grant was live in each state of the table from the first reservation up to `to`. */
    ghost predicate LiveUpTo(history: seq<Table>, to: nat) {
      from <= to < |history| && forall k, i :: from <= k <= to && 0 <= i < |grants| ==> Live(history[k], grants[i])
    }

    lemma LiveAtFirst(history: seq<Table>, to: nat)
      requires LiveUpTo(history, to)
      ensures AllLive(history[from], grants)
    {}
  }

  predicate AllLive(t: Table, grants: seq<Grant>) {
    forall k :: 0 <= k < |grants| ==> Live(t, grants[k])
  }

  /** Reservations that compare the same, one at each end, keep their grants live all the time between. */
  lemma LiveThroughout(a: Admitted, history: seq<Table>, to: nat, first: seq<Grant>, second: seq<Grant>)
    requires History(history) && a.from <= to < |history|
    requires AllLive(history[a.from], first) && AllLive(history[to], second) && SameGrants(first, second)
    requires a.grants == first || a.grants == second
    ensures a.LiveUpTo(history, to)
  {
    SameMembers(first, second);
    forall k, i | a.from <= k <= to && 0 <= i < |a.grants| ensures Live(history[k], a.grants[i]) {
      var g := a.grants[i];
      assert g in first && g in second;
      LiveBetween(history, a.from, k, to, g);
    }
  }

  /** Reservations that compare the same hold the same grants. */
  lemma SameMembers(a: seq<Grant>, b: seq<Grant>)
    requires SameGrants(a, b)
    ensures forall g :: g in a <==> g in b
  {
    SortSorts(a, GrantKey);
    SortSorts(b, GrantKey);
  }
}
