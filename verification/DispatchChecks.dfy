/** Which check of a verification fails, and with which error, in terms of the fields of the instruction. */
module DispatchChecks {
  import opened Dispatch
  import opened DispatchAuth
  import opened DispatchRuns
  import opened Keyed
  import opened Labels
  import opened Whitespace
  import opened Wrappers

  // ----- Required fields -----

  /** Some character of `s` is not white space (the 25 characters with Unicode's White_Space property). */
  predicate Visible(s: string) {
    exists i :: 0 <= i < |s| && s[i] as int !in {
      0x0009, 0x000A, 0x000B, 0x000C, 0x000D, 0x0020, 0x0085, 0x00A0, 0x1680, 0x2000, 0x2001, 0x2002, 0x2003,
      0x2004, 0x2005, 0x2006, 0x2007, 0x2008, 0x2009, 0x200A, 0x2028, 0x2029, 0x202F, 0x205F, 0x3000
    }
  }

  lemma VisibleIsNotBlank(s: string)
    ensures Visible(s) <==> !Blank(s)
  {
  }

  /** The eight fields in the order in which they are examined, each with the name it is reported under. */
  predicate RequiredFieldIs(d: JobDispatch, k: nat, name: string, value: string) {
    match k
    case 0 => name == "lease_id" && value == d.leaseId
    case 1 => name == "job_id" && value == d.jobId
    case 2 => name == "runner_id" && value == d.runnerId
    case 3 => name == "correlation_id" && value == d.correlationId
    case 4 => name == "idempotency_key" && value == d.idempotencyKey
    case 5 => name == "policy_version" && value == d.policy.policyVersion
    case 6 => name == "working_group_id" && value == d.policy.workingGroupId
    case 7 => name == "workspace_id" && value == d.policy.workspace.workspaceId
    case _ => false
  }

  lemma RequiredFieldsAreTheEight(d: JobDispatch)
    ensures |RequiredFields(d)| == 8
    ensures forall k :: 0 <= k < 8 ==> RequiredFieldIs(d, k, RequiredFields(d)[k].0, RequiredFields(d)[k].1)
  {
  }

  /** The check passes exactly when all eight fields are visible. */
  lemma RequiredFieldsPassIff(d: JobDispatch)
    ensures RequiredFieldsCheck(d).Ok? <==>
            && Visible(d.leaseId) && Visible(d.jobId) && Visible(d.runnerId) && Visible(d.correlationId)
            && Visible(d.idempotencyKey) && Visible(d.policy.policyVersion) && Visible(d.policy.workingGroupId)
            && Visible(d.policy.workspace.workspaceId)
  {
    hide Visible, Blank;
    var fields := RequiredFields(d);
    VisibleIsNotBlank(fields[0].1);
    VisibleIsNotBlank(fields[1].1);
    VisibleIsNotBlank(fields[2].1);
    VisibleIsNotBlank(fields[3].1);
    VisibleIsNotBlank(fields[4].1);
    VisibleIsNotBlank(fields[5].1);
    VisibleIsNotBlank(fields[6].1);
    VisibleIsNotBlank(fields[7].1);
  }

  /** The first field that is not visible is reported under its name. */
  lemma MissingFieldIsNamed(d: JobDispatch, k: nat, name: string, value: string)
    requires RequiredFieldIs(d, k, name, value) && !Visible(value)
    requires forall j: nat, n, v :: j < k && RequiredFieldIs(d, j, n, v) ==> Visible(v)
    ensures RequiredFieldsCheck(d) == Err(MissingRequiredField(name))
  {
    hide Visible, Blank;
    var fields := RequiredFields(d);
    RequiredFieldsAreTheEight(d);
    VisibleIsNotBlank(value);
    forall j | 0 <= j < k ensures !Blank(fields[j].1) {
      assert RequiredFieldIs(d, j, fields[j].0, fields[j].1);
      VisibleIsNotBlank(fields[j].1);
    }
    FirstBlankIsFirst(fields, k);
  }

  /** What passes every check has an admissible identity. */
  lemma CheckedIsAdmissible(scheme: Scheme, i: Instruction, registry: Registry, now: U64, runner: string)
    ensures Check(scheme, i, registry, now, runner).Ok? ==> Admissible(IdentityOf(i.dispatch.payload))
  {
    hide Visible, FirstBlank, PayloadBytes, RequiredFields, RequiredFieldsCheck, Blank;
    var d := i.dispatch.payload;
    RequiredFieldsPassIff(d);
    VisibleIsNotBlank(d.runnerId);
    VisibleIsNotBlank(d.jobId);
    VisibleIsNotBlank(d.idempotencyKey);
  }

  // ----- All checks -----

  /** What the check with number `k` demands. */
  ghost predicate Passes(k: nat, scheme: Scheme, i: Instruction, registry: Registry, now: U64, runner: string) {
    var d, s := i.dispatch.payload, i.signature;
    match k
    case 0 => i.dispatch.protocolVersion == "remote.v1alpha1"
    case 1 => RequiredFieldsCheck(d).Ok?
    case 2 => d.runnerId == runner
    case 3 => s.algorithm == "ed25519"
    case 4 => now < s.expiresAt
    case 5 => s.keyId in registry
    case 6 =>
      s.keyId in registry && registry[s.keyId].status.Retired? ==>
        now <= registry[s.keyId].status.verifyUntil
        && s.signedAt <= registry[s.keyId].status.retiredAt + registry[s.keyId].status.allowedClockSkew
    case 7 => scheme.decode(s.signatureBase64).Some? && |scheme.decode(s.signatureBase64).value| == 64
    case _ =>
      s.keyId in registry && scheme.decode(s.signatureBase64).Some? ==>
        scheme.verify(registry[s.keyId].verifyingKey, PayloadBytes(i.dispatch, s), scheme.decode(s.signatureBase64).value)
  }

  /** The error of check `k`. */
  function ErrorOf(k: nat, d: JobDispatch): Result<(), VerificationError> {
    match k
    case 0 => Err(UnsupportedProtocol)
    case 1 => RequiredFieldsCheck(d)
    case 2 => Err(ScopeMismatch)
    case 3 => Err(UnsupportedAlgorithm)
    case 4 => Err(Expired)
    case 5 => Err(UnknownKey)
    case 6 => Err(KeyRetired)
    case 7 => Err(MalformedSignature)
    case _ => Err(InvalidSignature)
  }

  /** Nine checks are made in this order; the first that fails decides the error, and acceptance needs them all. */
  lemma FirstFailingCheckDecides(scheme: Scheme, i: Instruction, registry: Registry, now: U64, runner: string)
    ensures Check(scheme, i, registry, now, runner).Ok? <==> forall k :: 0 <= k < 9 ==> Passes(k, scheme, i, registry, now, runner)
    ensures forall k :: 0 <= k < 9 && !Passes(k, scheme, i, registry, now, runner)
                        && (forall j :: 0 <= j < k ==> Passes(j, scheme, i, registry, now, runner))
                        ==> Check(scheme, i, registry, now, runner) == ErrorOf(k, i.dispatch.payload)
  {
    hide RequiredFieldsCheck, PayloadBytes;
    if forall k :: 0 <= k < 9 ==> Passes(k, scheme, i, registry, now, runner) {
      assert Passes(0, scheme, i, registry, now, runner) && Passes(1, scheme, i, registry, now, runner);
      assert Passes(2, scheme, i, registry, now, runner) && Passes(3, scheme, i, registry, now, runner);
      assert Passes(4, scheme, i, registry, now, runner) && Passes(5, scheme, i, registry, now, runner);
      assert Passes(6, scheme, i, registry, now, runner) && Passes(7, scheme, i, registry, now, runner);
      assert Passes(8, scheme, i, registry, now, runner);
    }
    forall k | 0 <= k < 9 && !Passes(k, scheme, i, registry, now, runner)
               && (forall j :: 0 <= j < k ==> Passes(j, scheme, i, registry, now, runner))
      ensures Check(scheme, i, registry, now, runner) == ErrorOf(k, i.dispatch.payload)
    {
      FailureAt(k, scheme, i, registry, now, runner);
    }
  }

  lemma FailureAt(k: nat, scheme: Scheme, i: Instruction, registry: Registry, now: U64, runner: string)
    requires k < 9 && !Passes(k, scheme, i, registry, now, runner)
    requires forall j :: 0 <= j < k ==> Passes(j, scheme, i, registry, now, runner)
    ensures Check(scheme, i, registry, now, runner) == ErrorOf(k, i.dispatch.payload)
  {
    hide RequiredFieldsCheck, PayloadBytes;
    assert k > 0 ==> Passes(0, scheme, i, registry, now, runner);
    assert k > 1 ==> Passes(1, scheme, i, registry, now, runner);
    assert k > 2 ==> Passes(2, scheme, i, registry, now, runner);
    assert k > 3 ==> Passes(3, scheme, i, registry, now, runner);
    assert k > 4 ==> Passes(4, scheme, i, registry, now, runner);
    assert k > 5 ==> Passes(5, scheme, i, registry, now, runner);
    assert k > 6 ==> Passes(6, scheme, i, registry, now, runner);
    assert k > 7 ==> Passes(7, scheme, i, registry, now, runner);
  }

  // ----- What is signed -----

  /**
   What is signed is the dispatch that was given, and it is accepted exactly until the expiry that was
   given and, under a retired key, within its window for the signing time that was given.
   */
  lemma SignedIsAcceptedIff(scheme: Scheme, dispatch: Envelope, key: SigningKey, context: SigningContext,
                            registry: Registry, now: U64, runner: string)
    requires Lawful(scheme) && context.keyId in registry
    requires registry[context.keyId].verifyingKey == scheme.verifyingKey(key)
    ensures Signed(scheme, dispatch, key, context).dispatch == dispatch
    ensures Check(scheme, Signed(scheme, dispatch, key, context), registry, now, runner).Ok? <==>
            && dispatch.protocolVersion == "remote.v1alpha1" && RequiredFieldsCheck(dispatch.payload).Ok?
            && runner == dispatch.payload.runnerId && now < context.expiresAt
            && match registry[context.keyId].status
               case Active => true
               case Retired(retiredAt, verifyUntil, skew) => now <= verifyUntil && context.signedAt <= retiredAt + skew
  {
    hide RequiredFieldsCheck, PayloadBytes;
    var signed := Signed(scheme, dispatch, key, context);
    PayloadIgnoresSignatureBytes(dispatch, Unsigned(context), signed.signature.signatureBase64);
  }
}
