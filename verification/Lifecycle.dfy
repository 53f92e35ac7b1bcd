/** Runner registration tokens, credentials and leases (`src/runner_lifecycle.rs`). */
module Lifecycle {
  import opened Keyed
  import opened Wrappers

  datatype RunnerState = Registered | Unregistered | Expired | Disabled | Draining | Shared | Quarantined

  datatype Token = Token(tokenId: string, expiresAtTick: nat, usedByRunnerId: Option<string>)

  datatype Credential = Credential(credentialRef: string, expiresAtTick: nat, active: bool, rotatedFrom: Option<string>)

  datatype Runner = Runner(
    runnerId: string, state: RunnerState, registrationTokenId: Option<string>, credentialRef: Option<string>)

  datatype Grant = Grant(runnerId: string, credentialRef: string)

  datatype LifecycleError =
    | RegistrationTokenExpired
    | RegistrationTokenAlreadyUsed
    | RegistrationTokenNotFound
    | RunnerNotFound
    | RunnerCredentialNotFound
    | RunnerCredentialExpired
    | RunnerCredentialInactive
    | RunnerCredentialRotationMismatch

  datatype Scenario = Scenario(nowTick: nat, tokens: seq<Token>, credentials: seq<Credential>, runners: seq<Runner>)

  datatype LeaseAttempt = LeaseAttempt(runnerId: string, jobId: string, leaseId: string)

  datatype LeaseAcceptance = LeaseAcceptance(
    leaseId: string, jobId: string, runnerId: string, accepted: bool, reason: Option<string>)

  /** Everything the simulator remembers. */
  datatype World = World(
    now: nat, tokens: map<string, Token>, credentials: map<string, Credential>, runners: map<string, Runner>)

  // ----- The meaning of each operation -----

  function ValidateCredential(credential: Credential, now: nat): Result<(), LifecycleError> {
    if !credential.active then Err(RunnerCredentialInactive)
    else if credential.expiresAtTick <= now then Err(RunnerCredentialExpired)
    else Ok(())
  }

  function Register(w: World, tokenId: string, runnerId: string, credentialRef: string)
    : (World, Result<Grant, LifecycleError>)
  {
    if tokenId !in w.tokens then (w, Err(RegistrationTokenNotFound))
    else if w.tokens[tokenId].expiresAtTick <= w.now then (w, Err(RegistrationTokenExpired))
    else if w.tokens[tokenId].usedByRunnerId.Some? then (w, Err(RegistrationTokenAlreadyUsed))
    else if credentialRef !in w.credentials then (w, Err(RunnerCredentialNotFound))
    else match ValidateCredential(w.credentials[credentialRef], w.now)
      case Err(e) => (w, Err(e))
      case Ok(_) =>
        (w.(tokens := w.tokens[tokenId := w.tokens[tokenId].(usedByRunnerId := Some(runnerId))],
            runners := w.runners[runnerId := Runner(runnerId, Registered, Some(tokenId), Some(credentialRef))]),
         Ok(Grant(runnerId, credentialRef)))
  }

  /** The current credential is given up before the next one is looked at, so a failing rotation can leave a mark. */
  function Rotate(w: World, runnerId: string, current: string, next: string): (World, Result<Grant, LifecycleError>) {
    if runnerId !in w.runners then (w, Err(RunnerNotFound))
    else if w.runners[runnerId].credentialRef != Some(current) then (w, Err(RunnerCredentialRotationMismatch))
    else if current !in w.credentials then (w, Err(RunnerCredentialNotFound))
    else
      var v := w.(credentials := w.credentials[current := w.credentials[current].(active := false)]);
      if next !in v.credentials then (v, Err(RunnerCredentialNotFound))
      else match ValidateCredential(v.credentials[next], v.now)
        case Err(e) => (v, Err(e))
        case Ok(_) =>
          (v.(runners := v.runners[runnerId := v.runners[runnerId].(state := Registered, credentialRef := Some(next))]),
           Ok(Grant(runnerId, next)))
  }

  const CREDENTIAL_EXPIRED: string := "runner credential expired; rotate before accepting leases"

  function LeaseRejectionReason(w: World, runnerId: string): Option<string> {
    if runnerId !in w.runners then Some("runner is not registered")
    else match w.runners[runnerId].state
      case Registered =>
        if w.runners[runnerId].credentialRef.None? || w.runners[runnerId].credentialRef.value !in w.credentials then
          Some("runner credential unavailable")
        else
          var credential := w.credentials[w.runners[runnerId].credentialRef.value];
          if ValidateCredential(credential, w.now).Ok? then None
          else if credential.expiresAtTick <= w.now then Some(CREDENTIAL_EXPIRED)
          else Some("runner credential unavailable")
      case Unregistered => Some("runner is not registered")
      case Expired => Some(CREDENTIAL_EXPIRED)
      case Disabled => Some("runner is disabled")
      case Draining => Some("runner is draining")
      case Shared => Some("runner credential is shared; rotate before accepting leases")
      case Quarantined => Some("runner is quarantined")
  }

  /** Every record is filed under its own identifier. */
  ghost predicate FiledById(w: World) {
    && (forall t :: t in w.tokens ==> w.tokens[t].tokenId == t)
    && (forall c :: c in w.credentials ==> w.credentials[c].credentialRef == c)
    && (forall r :: r in w.runners ==> w.runners[r].runnerId == r)
  }

  // ----- Leases -----

  /** The runner can take leases. */
  ghost predicate Accepts(w: World, r: string) {
    && r in w.runners && w.runners[r].state == Registered
    && w.runners[r].credentialRef.Some? && w.runners[r].credentialRef.value in w.credentials
    && w.credentials[w.runners[r].credentialRef.value].active
    && w.now < w.credentials[w.runners[r].credentialRef.value].expiresAtTick
  }

  lemma AcceptsIsNoRejection(w: World, r: string)
    ensures Accepts(w, r) <==> LeaseRejectionReason(w, r).None?
  {
  }

  /** The runner is marked expired, or is registered with a known credential past its tick. */
  ghost predicate HasExpired(w: World, r: string) {
    && r in w.runners
    && (w.runners[r].state == Expired
        || (w.runners[r].state == Registered
            && w.runners[r].credentialRef.Some? && w.runners[r].credentialRef.value in w.credentials
            && w.credentials[w.runners[r].credentialRef.value].expiresAtTick <= w.now))
  }

  lemma ExpiryIsReportedIff(w: World, r: string)
    ensures LeaseRejectionReason(w, r) == Some(CREDENTIAL_EXPIRED) <==> HasExpired(w, r)
  {
  }

  // ----- The simulator -----

  class RunnerLifecycleSimulator {
    const nowTick: nat
    var registrationTokens: map<string, Token>
    var credentials: map<string, Credential>
    var runners: map<string, Runner>

    function View(): World
      reads this
    {
      World(nowTick, registrationTokens, credentials, runners)
    }

    constructor FromScenario(scenario: Scenario)
      ensures FiledById(View()) && View().now == scenario.nowTick
      ensures View().tokens == Index(scenario.tokens, (t: Token) => t.tokenId)
      ensures View().credentials == Index(scenario.credentials, (c: Credential) => c.credentialRef)
      ensures View().runners == Index(scenario.runners, (r: Runner) => r.runnerId)
    {
      nowTick := scenario.nowTick;
      registrationTokens := Index(scenario.tokens, (t: Token) => t.tokenId);
      credentials := Index(scenario.credentials, (c: Credential) => c.credentialRef);
      runners := Index(scenario.runners, (r: Runner) => r.runnerId);
    }

    method RegisterRunner(tokenId: string, runnerId: string, credentialRef: string) returns (r: Result<Grant, LifecycleError>)
      modifies `registrationTokens, `runners
      ensures (View(), r) == Register(old(View()), tokenId, runnerId, credentialRef)
      ensures r.Err? ==> View() == old(View())
      ensures old(FiledById(View())) ==> FiledById(View())
    {
      if tokenId !in registrationTokens {
        return Err(RegistrationTokenNotFound);
      }
      var token := registrationTokens[tokenId];
      if token.expiresAtTick <= nowTick {
        return Err(RegistrationTokenExpired);
      }
      if token.usedByRunnerId.Some? {
        return Err(RegistrationTokenAlreadyUsed);
      }
      if credentialRef !in credentials {
        return Err(RunnerCredentialNotFound);
      }
      var validity := ValidateCredential(credentials[credentialRef], nowTick);
      if validity.Err? {
        return Err(validity.error);
      }
      registrationTokens := registrationTokens[tokenId := token.(usedByRunnerId := Some(runnerId))];
      runners := runners[runnerId := Runner(runnerId, Registered, Some(tokenId), Some(credentialRef))];
      return Ok(Grant(runnerId, credentialRef));
    }

    method RotateCredential(runnerId: string, current: string, next: string) returns (r: Result<Grant, LifecycleError>)
      modifies `credentials, `runners
      ensures (View(), r) == Rotate(old(View()), runnerId, current, next)
      ensures old(FiledById(View())) ==> FiledById(View())
    {
      if runnerId !in runners {
        return Err(RunnerNotFound);
      }
      var runner := runners[runnerId];
      if runner.credentialRef != Some(current) {
        return Err(RunnerCredentialRotationMismatch);
      }
      if current !in credentials {
        return Err(RunnerCredentialNotFound);
      }
      credentials := credentials[current := credentials[current].(active := false)];

      if next !in credentials {
        return Err(RunnerCredentialNotFound);
      }
      var validity := ValidateCredential(credentials[next], nowTick);
      if validity.Err? {
        return Err(validity.error);
      }
      runner := runner.(state := Registered);
      runner := runner.(credentialRef := Some(next));
      runners := runners[runnerId := runner];
      return Ok(Grant(runnerId, next));
    }

    /** A lease goes to a registered runner whose credential is known, active and unexpired, and to no other. */
    method EvaluateLease(attempt: LeaseAttempt) returns (acceptance: LeaseAcceptance)
      ensures acceptance.reason == LeaseRejectionReason(View(), attempt.runnerId)
      ensures acceptance.accepted <==> Accepts(View(), attempt.runnerId)
      ensures acceptance.reason == Some(CREDENTIAL_EXPIRED) <==> HasExpired(View(), attempt.runnerId)
      ensures (acceptance.leaseId, acceptance.jobId, acceptance.runnerId) == (attempt.leaseId, attempt.jobId, attempt.runnerId)
    {
      hide LeaseRejectionReason, Accepts, HasExpired;
      AcceptsIsNoRejection(View(), attempt.runnerId);
      ExpiryIsReportedIff(View(), attempt.runnerId);
      var reason := LeaseRejectionReason(View(), attempt.runnerId);
      acceptance := LeaseAcceptance(attempt.leaseId, attempt.jobId, attempt.runnerId, reason.None?, reason);
    }
  }
}
