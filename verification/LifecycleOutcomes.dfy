/** When a registration, a rotation or a lease succeeds, and what is reported when it does not. */
module LifecycleOutcomes {
  import opened Lifecycle
  import opened LifecycleRuns
  import opened Wrappers

  /** A credential that can be granted: known, active and unexpired. */
  predicate Grantable(w: World, c: string) {
    c in w.credentials && w.credentials[c].active && w.now < w.credentials[c].expiresAtTick
  }

  /** A registration succeeds exactly with a known, unexpired, unused token and a grantable credential. */
  lemma RegisterSucceedsIff(w: World, t: string, r: string, c: string)
    ensures Register(w, t, r, c).1.Ok? <==>
            && t in w.tokens && w.now < w.tokens[t].expiresAtTick && w.tokens[t].usedByRunnerId == None
            && Grantable(w, c)
  {
  }

  /** A rotation succeeds exactly from the known credential that the runner holds to another, grantable one. */
  lemma RotateSucceedsIff(w: World, r: string, current: string, next: string)
    ensures Rotate(w, r, current, next).1.Ok? <==>
            && r in w.runners && w.runners[r].credentialRef == Some(current) && current in w.credentials
            && next != current && Grantable(w, next)
  {
  }

  /** The state after a success, field by field. */
  lemma SuccessfulRegistration(w: World, t: string, r: string, c: string)
    requires Register(w, t, r, c).1.Ok?
    ensures var (v, result) := Register(w, t, r, c);
            && result == Ok(Grant(r, c)) && v.now == w.now && v.credentials == w.credentials
            && v.tokens.Keys == w.tokens.Keys && v.runners.Keys == w.runners.Keys + {r}
            && v.tokens[t] == Token(w.tokens[t].tokenId, w.tokens[t].expiresAtTick, Some(r))
            && v.runners[r] == Runner(r, Registered, Some(t), Some(c))
            && (forall o :: o in w.tokens && o != t ==> v.tokens[o] == w.tokens[o])
            && (forall o :: o in w.runners && o != r ==> v.runners[o] == w.runners[o])
  {
  }

  lemma SuccessfulRotation(w: World, r: string, current: string, next: string)
    requires Rotate(w, r, current, next).1.Ok?
    ensures var (v, result) := Rotate(w, r, current, next);
            && result == Ok(Grant(r, next)) && v.now == w.now && v.tokens == w.tokens
            && v.credentials.Keys == w.credentials.Keys && v.runners.Keys == w.runners.Keys
            && v.credentials[current] == w.credentials[current].(active := false)
            && v.runners[r] == Runner(w.runners[r].runnerId, Registered, w.runners[r].registrationTokenId, Some(next))
            && (forall o :: o in w.credentials && o != current ==> v.credentials[o] == w.credentials[o])
            && (forall o :: o in w.runners && o != r ==> v.runners[o] == w.runners[o])
  {
  }

  /** What the registration check with number `k` demands; the credential's flag comes before its expiry. */
  predicate RegisterPasses(k: nat, w: World, t: string, c: string) {
    match k
    case 0 => t in w.tokens
    case 1 => t in w.tokens ==> w.now < w.tokens[t].expiresAtTick
    case 2 => t in w.tokens ==> w.tokens[t].usedByRunnerId == None
    case 3 => c in w.credentials
    case 4 => c in w.credentials ==> w.credentials[c].active
    case _ => c in w.credentials ==> w.now < w.credentials[c].expiresAtTick
  }

  function RegisterErrorOf(k: nat): LifecycleError {
    match k
    case 0 => RegistrationTokenNotFound
    case 1 => RegistrationTokenExpired
    case 2 => RegistrationTokenAlreadyUsed
    case 3 => RunnerCredentialNotFound
    case 4 => RunnerCredentialInactive
    case _ => RunnerCredentialExpired
  }

  /** Six checks are made in this order, and the first that fails decides the error. */
  lemma FirstRegisterFailure(w: World, t: string, r: string, c: string, k: nat)
    requires k < 6 && !RegisterPasses(k, w, t, c)
    requires forall j :: 0 <= j < k ==> RegisterPasses(j, w, t, c)
    ensures Register(w, t, r, c) == (w, Err(RegisterErrorOf(k)))
  {
    assert k > 0 ==> RegisterPasses(0, w, t, c);
    assert k > 1 ==> RegisterPasses(1, w, t, c);
    assert k > 2 ==> RegisterPasses(2, w, t, c);
    assert k > 3 ==> RegisterPasses(3, w, t, c);
    assert k > 4 ==> RegisterPasses(4, w, t, c);
  }

  /** What the rotation check with number `k` demands of the state before the call. */
  predicate RotatePasses(k: nat, w: World, r: string, current: string, next: string) {
    match k
    case 0 => r in w.runners
    case 1 => r in w.runners ==> w.runners[r].credentialRef == Some(current)
    case 2 => current in w.credentials
    case 3 => next in w.credentials
    case 4 => next in w.credentials ==> w.credentials[next].active && next != current
    case _ => next in w.credentials ==> w.now < w.credentials[next].expiresAtTick
  }

  function RotateErrorOf(k: nat): LifecycleError {
    match k
    case 0 => RunnerNotFound
    case 1 => RunnerCredentialRotationMismatch
    case 2 => RunnerCredentialNotFound
    case 3 => RunnerCredentialNotFound
    case 4 => RunnerCredentialInactive
    case _ => RunnerCredentialExpired
  }

  lemma FirstRotateFailure(w: World, r: string, current: string, next: string, k: nat)
    requires k < 6 && !RotatePasses(k, w, r, current, next)
    requires forall j :: 0 <= j < k ==> RotatePasses(j, w, r, current, next)
    ensures Rotate(w, r, current, next).1 == Err(RotateErrorOf(k))
  {
    assert k > 0 ==> RotatePasses(0, w, r, current, next);
    assert k > 1 ==> RotatePasses(1, w, r, current, next);
    assert k > 2 ==> RotatePasses(2, w, r, current, next);
    assert k > 3 ==> RotatePasses(3, w, r, current, next);
    assert k > 4 ==> RotatePasses(4, w, r, current, next);
  }

  /** What an operator is told about each runner that gets no lease. */
  lemma RejectionIsReported(w: World, r: string)
    requires !Accepts(w, r)
    ensures var reason := LeaseRejectionReason(w, r);
            if r !in w.runners then reason == Some("runner is not registered")
            else match w.runners[r].state
              case Unregistered => reason == Some("runner is not registered")
              case Expired => reason == Some("runner credential expired; rotate before accepting leases")
              case Disabled => reason == Some("runner is disabled")
              case Draining => reason == Some("runner is draining")
              case Shared => reason == Some("runner credential is shared; rotate before accepting leases")
              case Quarantined => reason == Some("runner is quarantined")
              case Registered =>
                reason == Some(if HasExpired(w, r) then "runner credential expired; rotate before accepting leases"
                               else "runner credential unavailable")
  {
  }
}
