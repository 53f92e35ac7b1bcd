/** Signing and verifying dispatch instructions (`src/dispatch_auth.rs`). */
module DispatchAuth {
  import opened Dispatch
  import opened Keyed
  import opened Labels
  import opened Utf8
  import opened Whitespace
  import opened Wrappers

  const DISPATCH_SIGNATURE_ALGORITHM: string := "ed25519"
  const PROTOCOL_VERSION: string := "remote.v1alpha1"
  const U64_MAX: U64 := 0xFFFF_FFFF_FFFF_FFFF

  datatype SigningKey = SigningKey(bytes: seq<Byte>)

  datatype VerifyingKey = VerifyingKey(bytes: seq<Byte>)

  /** The signature scheme and the text encoding of signatures, as functions the rest of the model is independent of. */
  datatype Scheme = Scheme(
    verifyingKey: SigningKey -> VerifyingKey,
    sign: (SigningKey, seq<Byte>) -> seq<Byte>,
    verify: (VerifyingKey, seq<Byte>, seq<Byte>) -> bool,
    encode: seq<Byte> -> string,
    decode: string -> Option<seq<Byte>>)

  /**
   What signing promises to verifying (sections 5.1.6 and 5.1.7 of RFC 8032) and encoding to decoding
   (section 4 of RFC 4648).
   */
  ghost predicate Lawful(scheme: Scheme) {
    && (forall k, m :: scheme.verify(scheme.verifyingKey(k), m, scheme.sign(k, m)))
    && (forall k, m :: |scheme.sign(k, m)| == 64)
    && (forall bytes :: scheme.decode(scheme.encode(bytes)) == Some(bytes))
  }

  datatype KeyStatus = Active | Retired(retiredAt: U64, verifyUntil: U64, allowedClockSkew: U64)

  datatype DispatchKey = DispatchKey(keyId: string, verifyingKey: VerifyingKey, status: KeyStatus)

  type Registry = map<string, DispatchKey>

  function NewRegistry(keys: seq<DispatchKey>): Registry {
    Index(keys, (k: DispatchKey) => k.keyId)
  }

  datatype VerificationError =
    | MissingRequiredField(field: string)
    | UnsupportedProtocol
    | UnsupportedAlgorithm
    | UnknownKey
    | Expired
    | KeyRetired
    | InvalidSignature
    | ReplayDetected
    | ScopeMismatch
    | MalformedSignature

  // ----- Required fields -----

  function RequiredFields(d: JobDispatch): seq<(string, string)> {
    [
      ("lease_id", d.leaseId),
      ("job_id", d.jobId),
      ("runner_id", d.runnerId),
      ("correlation_id", d.correlationId),
      ("idempotency_key", d.idempotencyKey),
      ("policy_version", d.policy.policyVersion),
      ("working_group_id", d.policy.workingGroupId),
      ("workspace_id", d.policy.workspace.workspaceId)
    ]
  }

  function FirstBlank(fields: seq<(string, string)>): (r: Option<string>)
    ensures r.None? <==> forall i :: 0 <= i < |fields| ==> !Blank(fields[i].1)
  {
    if fields == [] then None
    else if Blank(fields[0].1) then Some(fields[0].0)
    else FirstBlank(fields[1..])
  }

  /** The reported field is blank and every field before it is not. */
  lemma {:induction false} FirstBlankIsFirst(fields: seq<(string, string)>, i: nat)
    requires i < |fields| && Blank(fields[i].1) && forall j :: 0 <= j < i ==> !Blank(fields[j].1)
    ensures FirstBlank(fields) == Some(fields[i].0)
  {
    hide Blank;
    if i == 0 {
    } else {
      FirstBlankIsFirst(fields[1..], i - 1);
    }
  }

  function RequiredFieldsCheck(d: JobDispatch): Result<(), VerificationError> {
    match FirstBlank(RequiredFields(d))
    case Some(field) => Err(MissingRequiredField(field))
    case None => Ok(())
  }

  method ValidateRequiredDispatchFields(d: JobDispatch) returns (r: Result<(), VerificationError>)
    ensures r == RequiredFieldsCheck(d)
  {
    hide Blank, RequiredFields;
    var required := RequiredFields(d);
    for i := 0 to |required|
      invariant FirstBlank(required) == FirstBlank(required[i..])
    {
      var (field, value) := required[i];
      if Blank(value) {
        return Err(MissingRequiredField(field));
      }
    }
    return Ok(());
  }

  // ----- Key retirement -----

  function SaturatingAdd(a: U64, b: U64): U64 {
    if a + b > U64_MAX then U64_MAX else a + b
  }

  predicate KeyExpired(status: KeyStatus, signedAt: U64, now: U64) {
    status.Retired?
    && (now > status.verifyUntil || signedAt > SaturatingAdd(status.retiredAt, status.allowedClockSkew))
  }

  // ----- Verification -----

  function ReplayKey(d: JobDispatch): string {
    IdentityKey(IdentityOf(d))
  }

  /** The signature bytes, when the text decodes to exactly as many as a signature has. */
  function SignatureBytes(scheme: Scheme, text: string): Option<seq<Byte>> {
    match scheme.decode(text)
    case Some(bytes) => if |bytes| == 64 then Some(bytes) else None
    case None => None
  }

  /** Every check before the replay cache is consulted, in order. */
  function Check(scheme: Scheme, instruction: Instruction, registry: Registry, now: U64, runner: string)
    : Result<(), VerificationError>
  {
    var d, s := instruction.dispatch.payload, instruction.signature;
    if instruction.dispatch.protocolVersion != PROTOCOL_VERSION then Err(UnsupportedProtocol)
    else if RequiredFieldsCheck(d).Err? then RequiredFieldsCheck(d)
    else if d.runnerId != runner then Err(ScopeMismatch)
    else if s.algorithm != DISPATCH_SIGNATURE_ALGORITHM then Err(UnsupportedAlgorithm)
    else if s.expiresAt <= now then Err(Expired)
    else if s.keyId !in registry then Err(UnknownKey)
    else if KeyExpired(registry[s.keyId].status, s.signedAt, now) then Err(KeyRetired)
    else match SignatureBytes(scheme, s.signatureBase64)
      case None => Err(MalformedSignature)
      case Some(bytes) =>
        if scheme.verify(registry[s.keyId].verifyingKey, PayloadBytes(instruction.dispatch, s), bytes)
        then Ok(()) else Err(InvalidSignature)
  }

  /** One verification against the replay keys `seen`: the keys afterwards, and the verdict. */
  function Verify(scheme: Scheme, seen: set<string>, instruction: Instruction, registry: Registry, now: U64, runner: string)
    : (set<string>, Result<(), VerificationError>)
  {
    var check := Check(scheme, instruction, registry, now, runner);
    var key := ReplayKey(instruction.dispatch.payload);
    if check.Err? then (seen, check)
    else if key in seen then (seen, Err(ReplayDetected))
    else (seen + {key}, Ok(()))
  }

  class InMemoryDispatchReplayCache {
    var seen: set<string>

    constructor ()
      ensures seen == {}
    {
      seen := {};
    }

    method HasSeen(replayKey: string) returns (r: bool)
      ensures r <==> replayKey in seen
    {
      r := replayKey in seen;
    }

    method Record(replayKey: string)
      modifies this
      ensures seen == old(seen) + {replayKey}
    {
      seen := seen + {replayKey};
    }
  }

  method VerifyDispatchInstruction(scheme: Scheme, instruction: Instruction, registry: Registry,
                                   cache: InMemoryDispatchReplayCache, now: U64, expectedRunner: string)
    returns (r: Result<(), VerificationError>)
    modifies cache
    ensures (cache.seen, r) == Verify(scheme, old(cache.seen), instruction, registry, now, expectedRunner)
    ensures r.Err? ==> cache.seen == old(cache.seen)
  {
    hide RequiredFieldsCheck, PayloadBytes, ReplayKey, KeyExpired;
    if instruction.dispatch.protocolVersion != PROTOCOL_VERSION {
      return Err(UnsupportedProtocol);
    }
    var required := ValidateRequiredDispatchFields(instruction.dispatch.payload);
    if required.Err? {
      return required;
    }
    if instruction.dispatch.payload.runnerId != expectedRunner {
      return Err(ScopeMismatch);
    }
    if instruction.signature.algorithm != DISPATCH_SIGNATURE_ALGORITHM {
      return Err(UnsupportedAlgorithm);
    }
    if instruction.signature.expiresAt <= now {
      return Err(Expired);
    }
    if instruction.signature.keyId !in registry {
      return Err(UnknownKey);
    }
    var key := registry[instruction.signature.keyId];
    if KeyExpired(key.status, instruction.signature.signedAt, now) {
      return Err(KeyRetired);
    }
    var decoded := scheme.decode(instruction.signature.signatureBase64);
    if decoded.None? || |decoded.value| != 64 {
      return Err(MalformedSignature);
    }
    var payload := PayloadBytes(instruction.dispatch, instruction.signature);
    if !scheme.verify(key.verifyingKey, payload, decoded.value) {
      return Err(InvalidSignature);
    }
    var replayKey := ReplayKey(instruction.dispatch.payload);
    var seen := cache.HasSeen(replayKey);
    if seen {
      return Err(ReplayDetected);
    }
    cache.Record(replayKey);
    return Ok(());
  }

  // ----- Signing -----

  datatype SigningContext = SigningContext(keyId: string, signedAt: U64, expiresAt: U64)

  function Unsigned(context: SigningContext): DispatchSignature {
    DispatchSignature(context.keyId, DISPATCH_SIGNATURE_ALGORITHM, context.signedAt, context.expiresAt, "")
  }

  function Signed(scheme: Scheme, dispatch: Envelope, key: SigningKey, context: SigningContext): Instruction {
    var unsigned := Unsigned(context);
    var bytes := scheme.sign(key, PayloadBytes(dispatch, unsigned));
    Instruction(dispatch, unsigned.(signatureBase64 := scheme.encode(bytes)))
  }

  method SignDispatchInstruction(scheme: Scheme, dispatch: Envelope, key: SigningKey, context: SigningContext)
    returns (r: Result<Instruction, VerificationError>)
    ensures r == match RequiredFieldsCheck(dispatch.payload)
                 case Err(e) => Err(e)
                 case Ok(_) => Ok(Signed(scheme, dispatch, key, context))
  {
    hide RequiredFieldsCheck, PayloadBytes;
    var required := ValidateRequiredDispatchFields(dispatch.payload);
    if required.Err? {
      return Err(required.error);
    }
    var signature := Unsigned(context);
    var payload := PayloadBytes(dispatch, signature);
    var bytes := scheme.sign(key, payload);
    signature := signature.(signatureBase64 := scheme.encode(bytes));
    return Ok(Instruction(dispatch, signature));
  }
}
