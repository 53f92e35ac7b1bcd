/** Which instructions are accepted, and what holds over every run of verifications on one replay cache. */
module DispatchRuns {
  import opened Dispatch
  import opened DispatchAuth
  import opened Keyed
  import opened Labels
  import opened PayloadBinding
  import opened Utf8
  import opened Whitespace
  import opened Wrappers

  // ----- When an instruction is accepted -----

  /** Everything that verification checks and that does not depend on the time. */
  ghost predicate Genuine(scheme: Scheme, i: Instruction, registry: Registry, runner: string) {
    var d, s := i.dispatch.payload, i.signature;
    && i.dispatch.protocolVersion == PROTOCOL_VERSION
    && (forall k :: 0 <= k < |RequiredFields(d)| ==> !Blank(RequiredFields(d)[k].1))
    && d.runnerId == runner
    && s.algorithm == DISPATCH_SIGNATURE_ALGORITHM
    && s.keyId in registry
    && SignatureBytes(scheme, s.signatureBase64).Some?
    && scheme.verify(registry[s.keyId].verifyingKey, PayloadBytes(i.dispatch, s),
                     SignatureBytes(scheme, s.signatureBase64).value)
  }

  /** The first second at which the instruction is no longer accepted: its expiry, or earlier for a retired key. */
  function Deadline(s: DispatchSignature, status: KeyStatus): int {
    match status
    case Active => s.expiresAt
    case Retired(retiredAt, verifyUntil, skew) =>
      if s.signedAt > retiredAt + skew then 0
      else if s.expiresAt <= verifyUntil + 1 then s.expiresAt
      else verifyUntil + 1
  }

  /** The accepting times are exactly the seconds before the deadline; saturation never matters. */
  lemma AcceptedBeforeDeadline(scheme: Scheme, i: Instruction, registry: Registry, now: U64, runner: string)
    ensures Check(scheme, i, registry, now, runner).Ok? <==>
            Genuine(scheme, i, registry, runner) && now < Deadline(i.signature, registry[i.signature.keyId].status)
  {
    hide Blank, RequiredFields, PayloadBytes;
  }

  /** An instruction accepted at some time is accepted at every earlier time. */
  lemma AcceptedEarlier(scheme: Scheme, seen: set<string>, i: Instruction, registry: Registry,
                        early: U64, late: U64, runner: string)
    requires early <= late
    ensures Verify(scheme, seen, i, registry, late, runner).1.Ok? ==>
      Verify(scheme, seen, i, registry, early, runner) == Verify(scheme, seen, i, registry, late, runner)
  {
    hide Genuine, Check, Deadline;
    AcceptedBeforeDeadline(scheme, i, registry, early, runner);
    AcceptedBeforeDeadline(scheme, i, registry, late, runner);
  }

  // ----- Runs -----

  /** One verification: keys, clock and expected runner may differ from call to call. */
  datatype Call = Call(instruction: Instruction, registry: Registry, now: U64, runner: string)

  function KeyOf(c: Call): string {
    ReplayKey(c.instruction.dispatch.payload)
  }

  function IdentityIn(c: Call): Identity {
    IdentityOf(c.instruction.dispatch.payload)
  }

  function Step(scheme: Scheme, seen: set<string>, c: Call): (set<string>, Result<(), VerificationError>) {
    Verify(scheme, seen, c.instruction, c.registry, c.now, c.runner)
  }

  /** The replay keys before call `n`. */
  function SeenAt(scheme: Scheme, seen: set<string>, calls: seq<Call>, n: nat): set<string>
    requires n <= |calls|
  {
    if n == 0 then seen else Step(scheme, SeenAt(scheme, seen, calls, n - 1), calls[n - 1]).0
  }

  function ResultAt(scheme: Scheme, seen: set<string>, calls: seq<Call>, j: nat): Result<(), VerificationError>
    requires j < |calls|
  {
    Step(scheme, SeenAt(scheme, seen, calls, j), calls[j]).1
  }

  /** An accepted call adds its own key, which was not there before; a failing one adds nothing. */
  lemma CacheStep(scheme: Scheme, seen: set<string>, c: Call)
    ensures Step(scheme, seen, c).0 == if Step(scheme, seen, c).1.Ok? then seen + {KeyOf(c)} else seen
    ensures Step(scheme, seen, c).1.Ok? ==> KeyOf(c) !in seen
  {
    hide Check, ReplayKey;
  }

  /** The cache holds the initial keys and those of the accepted instructions, and nothing else. */
  lemma {:induction false} CacheIsAcceptedKeys(scheme: Scheme, seen: set<string>, calls: seq<Call>, n: nat, key: string)
    requires n <= |calls|
    ensures key in SeenAt(scheme, seen, calls, n) <==>
            key in seen || exists j :: 0 <= j < n && ResultAt(scheme, seen, calls, j).Ok? && KeyOf(calls[j]) == key
  {
    hide Step, KeyOf;
    if n == 0 {
    } else {
      CacheIsAcceptedKeys(scheme, seen, calls, n - 1, key);
      CacheStep(scheme, SeenAt(scheme, seen, calls, n - 1), calls[n - 1]);
      assert ResultAt(scheme, seen, calls, n - 1) == Step(scheme, SeenAt(scheme, seen, calls, n - 1), calls[n - 1]).1;
    }
  }

  /**
   No two accepted instructions share runner, job and idempotency key, whichever keys signed them and
   whenever they came.
   */
  lemma NoIdentityIsAcceptedTwice(scheme: Scheme, seen: set<string>, calls: seq<Call>, i: nat, j: nat)
    requires i < j < |calls|
    ensures ResultAt(scheme, seen, calls, i).Ok? && ResultAt(scheme, seen, calls, j).Ok? ==>
      && KeyOf(calls[i]) != KeyOf(calls[j])
      && IdentityIn(calls[i]) != IdentityIn(calls[j])
  {
    hide Step, SeenAt;
    CacheIsAcceptedKeys(scheme, seen, calls, j, KeyOf(calls[j]));
    CacheStep(scheme, SeenAt(scheme, seen, calls, j), calls[j]);
  }

  // ----- Failing calls are stutter steps -----

  /** The calls of the run that `keep` marks. */
  function Kept(calls: seq<Call>, keep: seq<bool>, n: nat): seq<Call>
    requires n <= |calls| && n <= |keep|
  {
    if n == 0 then [] else Kept(calls, keep, n - 1) + (if keep[n - 1] then [calls[n - 1]] else [])
  }

  function KeptResults(scheme: Scheme, seen: set<string>, calls: seq<Call>, keep: seq<bool>, n: nat)
    : seq<Result<(), VerificationError>>
    requires n <= |calls| && n <= |keep|
  {
    if n == 0 then []
    else KeptResults(scheme, seen, calls, keep, n - 1) + (if keep[n - 1] then [ResultAt(scheme, seen, calls, n - 1)] else [])
  }

  function Results(scheme: Scheme, seen: set<string>, calls: seq<Call>, n: nat): seq<Result<(), VerificationError>>
    requires n <= |calls|
  {
    if n == 0 then [] else Results(scheme, seen, calls, n - 1) + [ResultAt(scheme, seen, calls, n - 1)]
  }

  /** What happens in the first `n` calls depends on those calls alone. */
  lemma {:induction false} RunDependsOnPrefix(scheme: Scheme, seen: set<string>, calls: seq<Call>, more: seq<Call>, n: nat)
    requires n <= |calls|
    ensures SeenAt(scheme, seen, calls + more, n) == SeenAt(scheme, seen, calls, n)
    ensures Results(scheme, seen, calls + more, n) == Results(scheme, seen, calls, n)
  {
    hide Step;
    if n == 0 {
    } else {
      RunDependsOnPrefix(scheme, seen, calls, more, n - 1);
      assert (calls + more)[n - 1] == calls[n - 1];
    }
  }

  /** Dropping any failing calls leaves every remaining result and the final cache unchanged. */
  lemma {:induction false} FailingCallsAreStutter(scheme: Scheme, seen: set<string>, calls: seq<Call>, keep: seq<bool>, n: nat)
    requires n <= |calls| && |keep| == |calls|
    requires forall j :: 0 <= j < n && !keep[j] ==> ResultAt(scheme, seen, calls, j).Err?
    ensures var kept := Kept(calls, keep, n);
            && SeenAt(scheme, seen, kept, |kept|) == SeenAt(scheme, seen, calls, n)
            && Results(scheme, seen, kept, |kept|) == KeptResults(scheme, seen, calls, keep, n)
  {
    hide Step;
    if n == 0 {
    } else {
      FailingCallsAreStutter(scheme, seen, calls, keep, n - 1);
      var kept := Kept(calls, keep, n - 1);
      if keep[n - 1] {
        RunDependsOnPrefix(scheme, seen, kept, [calls[n - 1]], |kept|);
        assert (kept + [calls[n - 1]])[|kept|] == calls[n - 1];
      } else {
        CacheStep(scheme, SeenAt(scheme, seen, calls, n - 1), calls[n - 1]);
        assert kept + [] == kept;
      }
    }
  }

  // ----- Signing and verifying -----

  /** Position `k` holds the last key registered under the signing key's identifier, and it is that key, active. */
  predicate RegisteredLast(scheme: Scheme, keys: seq<DispatchKey>, k: nat, key: SigningKey, keyId: string)
  {
    && k < |keys| && keys[k] == DispatchKey(keyId, scheme.verifyingKey(key), Active)
    && forall j :: k < j < |keys| ==> keys[j].keyId != keyId
  }

  /** The payload does not contain the signature bytes. */
  lemma PayloadIgnoresSignatureBytes(dispatch: Envelope, s: DispatchSignature, text: string)
    ensures PayloadBytes(dispatch, s.(signatureBase64 := text)) == PayloadBytes(dispatch, s)
  {
  }

  lemma SignedPassesCheck(scheme: Scheme, dispatch: Envelope, key: SigningKey, context: SigningContext,
                          keys: seq<DispatchKey>, k: nat, now: U64)
    requires Lawful(scheme) && RegisteredLast(scheme, keys, k, key, context.keyId)
    requires dispatch.protocolVersion == PROTOCOL_VERSION && RequiredFieldsCheck(dispatch.payload).Ok?
    requires now < context.expiresAt
    ensures Check(scheme, Signed(scheme, dispatch, key, context), NewRegistry(keys), now, dispatch.payload.runnerId) == Ok(())
  {
    hide RequiredFieldsCheck, PayloadBytes, Index;
    IndexFindsLast(keys, (x: DispatchKey) => x.keyId, k);
    var unsigned := Unsigned(context);
    PayloadIgnoresSignatureBytes(dispatch, unsigned, Signed(scheme, dispatch, key, context).signature.signatureBase64);
  }

  /** What is signed verifies until it expires, once: the second time it is a replay. */
  lemma SignThenVerify(scheme: Scheme, dispatch: Envelope, key: SigningKey, context: SigningContext,
                       keys: seq<DispatchKey>, k: nat, seen: set<string>, first: U64, second: U64)
    requires Lawful(scheme) && RegisteredLast(scheme, keys, k, key, context.keyId)
    requires dispatch.protocolVersion == PROTOCOL_VERSION && RequiredFieldsCheck(dispatch.payload).Ok?
    requires first < context.expiresAt && second < context.expiresAt && ReplayKey(dispatch.payload) !in seen
    ensures var i, registry, runner := Signed(scheme, dispatch, key, context), NewRegistry(keys), dispatch.payload.runnerId;
            var (after, verdict) := Verify(scheme, seen, i, registry, first, runner);
            verdict.Ok? && Verify(scheme, after, i, registry, second, runner) == (after, Err(ReplayDetected))
  {
    hide Check, RequiredFieldsCheck, ReplayKey, NewRegistry, PayloadBytes;
    SignedPassesCheck(scheme, dispatch, key, context, keys, k, first);
    SignedPassesCheck(scheme, dispatch, key, context, keys, k, second);
  }

  /** The signature made for payload `m` passes for the different payload `n`. */
  predicate Forgery(scheme: Scheme, key: SigningKey, m: seq<Byte>, n: seq<Byte>) {
    m != n && scheme.verify(scheme.verifyingKey(key), n, scheme.sign(key, m))
  }

  /**
   A signature moved to another instruction still passes when that instruction is the same but for key
   order; when it passes for any other instruction, the signature scheme itself has been broken.
   */
  lemma SignatureCoversInstruction(scheme: Scheme, dispatch: Envelope, key: SigningKey, context: SigningContext,
                                   other: Instruction, registry: Registry, now: U64, runner: string)
    requires Lawful(scheme) && Parsed(dispatch.payload) && Parsed(other.dispatch.payload)
    requires other.signature.keyId in registry
    requires registry[other.signature.keyId].verifyingKey == scheme.verifyingKey(key)
    ensures var signed, accepted := Signed(scheme, dispatch, key, context), Check(scheme, other, registry, now, runner).Ok?;
            other.signature.signatureBase64 == signed.signature.signatureBase64 ==>
              && (SameInstruction(signed, other) ==>
                  (accepted <==> dispatch.protocolVersion == PROTOCOL_VERSION && RequiredFieldsCheck(dispatch.payload).Ok?
                                 && runner == dispatch.payload.runnerId
                                 && now < Deadline(other.signature, registry[other.signature.keyId].status)))
              && (accepted && !SameInstruction(signed, other)
                  ==> Forgery(scheme, key, PayloadBytes(dispatch, signed.signature),
                              PayloadBytes(other.dispatch, other.signature)))
  {
    hide FirstBlank, RequiredFields, PayloadBytes, SameDispatch, Parsed;
    var signed := Signed(scheme, dispatch, key, context);
    var unsigned := Unsigned(context);
    PayloadIsExact(signed, other);
    PayloadIgnoresSignatureBytes(dispatch, unsigned, signed.signature.signatureBase64);
    if SameInstruction(signed, other) {
      SameRequiredFields(dispatch.payload, other.dispatch.payload);
    }
  }

  /** Key order inside the free-form parts does not touch the fields that must be present. */
  lemma SameRequiredFields(a: JobDispatch, b: JobDispatch)
    requires SameDispatch(a, b)
    ensures RequiredFields(a) == RequiredFields(b) && a.runnerId == b.runnerId
  {
  }

  // ----- Replays and identities -----

  /**
   From an empty cache, an instruction whose key is separable from those accepted before is a replay
   exactly when it passes every check and its own identity was accepted before.
   */
  lemma ReplayedIffSameIdentity(scheme: Scheme, calls: seq<Call>, n: nat)
    requires n < |calls|
    requires forall j :: 0 <= j < n && ResultAt(scheme, {}, calls, j).Ok? ==>
               Separable(IdentityIn(calls[j]), IdentityIn(calls[n]))
    ensures ResultAt(scheme, {}, calls, n) == Err(ReplayDetected) <==>
            && Check(scheme, calls[n].instruction, calls[n].registry, calls[n].now, calls[n].runner).Ok?
            && exists j :: 0 <= j < n && ResultAt(scheme, {}, calls, j).Ok?
                           && IdentityIn(calls[j]) == IdentityIn(calls[n])
  {
    hide SeenAt, FirstBlank, RequiredFields, PayloadBytes, Separable;
    var key := KeyOf(calls[n]);
    CacheIsAcceptedKeys(scheme, {}, calls, n, key);
    forall j | 0 <= j < n && ResultAt(scheme, {}, calls, j).Ok?
      ensures KeyOf(calls[j]) == key
              <==> IdentityIn(calls[j]) == IdentityIn(calls[n])
    {
      ReplayKeysSeparate(IdentityIn(calls[j]), IdentityIn(calls[n]));
    }
  }

  /**
   Two genuine dispatches with one replay key: whichever comes first is accepted, the other is refused
   as its replay.
   */
  lemma SharedKeyIsRefused(scheme: Scheme, first: Envelope, second: Envelope, key: SigningKey, context: SigningContext,
                           keys: seq<DispatchKey>, k: nat, t1: U64, t2: U64)
    requires Lawful(scheme) && RegisteredLast(scheme, keys, k, key, context.keyId)
    requires first.protocolVersion == PROTOCOL_VERSION && RequiredFieldsCheck(first.payload).Ok?
    requires second.protocolVersion == PROTOCOL_VERSION && RequiredFieldsCheck(second.payload).Ok?
    requires t1 < context.expiresAt && t2 < context.expiresAt
    requires ReplayKey(first.payload) == ReplayKey(second.payload)
    ensures var a := Call(Signed(scheme, first, key, context), NewRegistry(keys), t1, first.payload.runnerId);
            var b := Call(Signed(scheme, second, key, context), NewRegistry(keys), t2, second.payload.runnerId);
            && Check(scheme, b.instruction, b.registry, b.now, b.runner).Ok?
            && ResultAt(scheme, {}, [a, b], 0) == Ok(()) && ResultAt(scheme, {}, [a, b], 1) == Err(ReplayDetected)
  {
    hide Check, RequiredFieldsCheck, ReplayKey, NewRegistry, PayloadBytes;
    SignedPassesCheck(scheme, first, key, context, keys, k, t1);
    SignedPassesCheck(scheme, second, key, context, keys, k, t2);
    var a := Call(Signed(scheme, first, key, context), NewRegistry(keys), t1, first.payload.runnerId);
    var b := Call(Signed(scheme, second, key, context), NewRegistry(keys), t2, second.payload.runnerId);
    assert SeenAt(scheme, {}, [a, b], 0) == {};
    assert SeenAt(scheme, {}, [a, b], 1) == {KeyOf(a)};
  }

  /** The dispatch with another job and idempotency key. */
  function WithJob(dispatch: Envelope, jobId: string, idempotencyKey: string): Envelope {
    dispatch.(payload := dispatch.payload.(jobId := jobId, idempotencyKey := idempotencyKey))
  }

  /** Job "b:c" with key "d" and job "b" with key "c:d": the second never runs, though it was never seen. */
  lemma DifferentDispatchIsRefused(scheme: Scheme, dispatch: Envelope, key: SigningKey, context: SigningContext,
                                   keys: seq<DispatchKey>, k: nat, t1: U64, t2: U64)
    requires Lawful(scheme) && RegisteredLast(scheme, keys, k, key, context.keyId)
    requires dispatch.protocolVersion == PROTOCOL_VERSION && RequiredFieldsCheck(dispatch.payload).Ok?
    requires t1 < context.expiresAt && t2 < context.expiresAt
    ensures var first, second := WithJob(dispatch, "b:c", "d"), WithJob(dispatch, "b", "c:d");
            var runner := dispatch.payload.runnerId;
            var a := Call(Signed(scheme, first, key, context), NewRegistry(keys), t1, runner);
            var b := Call(Signed(scheme, second, key, context), NewRegistry(keys), t2, runner);
            && IdentityOf(first.payload) != IdentityOf(second.payload)
            && ResultAt(scheme, {}, [a, b], 0) == Ok(()) && ResultAt(scheme, {}, [a, b], 1) == Err(ReplayDetected)
  {
    hide Signed, NewRegistry, ResultAt, Lawful, RegisteredLast, RequiredFieldsCheck, IdentityKey, Blank;
    var first, second := WithJob(dispatch, "b:c", "d"), WithJob(dispatch, "b", "c:d");
    StartsNotBlank("b:c");
    StartsNotBlank("d");
    StartsNotBlank("b");
    StartsNotBlank("c:d");
    JobMayChange(dispatch, "b:c", "d");
    JobMayChange(dispatch, "b", "c:d");
    OneRunnerKeysAgreeIff(IdentityOf(first.payload), IdentityOf(second.payload));
    assert "b:c" + ":" + "d" == "b" + ":" + "c:d";
    assert |"b:c"| != |"b"|;
    SharedKeyIsRefused(scheme, first, second, key, context, keys, k, t1, t2);
  }

  lemma JobMayChange(dispatch: Envelope, jobId: string, idempotencyKey: string)
    requires RequiredFieldsCheck(dispatch.payload).Ok?
    requires !Blank(jobId) && !Blank(idempotencyKey)
    ensures RequiredFieldsCheck(WithJob(dispatch, jobId, idempotencyKey).payload).Ok?
  {
    hide FirstBlank, Blank;
    var before, after := RequiredFields(dispatch.payload), RequiredFields(WithJob(dispatch, jobId, idempotencyKey).payload);
    assert forall i :: 0 <= i < 8 && i != 1 && i != 4 ==> after[i] == before[i];
    assert after[1].1 == jobId && after[4].1 == idempotencyKey;
  }
}
