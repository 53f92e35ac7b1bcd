/** The dispatch envelope, its signature, and the payload that is signed (`src/protocol.rs`, `src/dispatch_auth.rs`). */
module Dispatch {
  import opened Canonical
  import opened Json
  import opened Printer
  import opened Utf8
  import opened Wrappers

  type U64 = n: int | 0 <= n < 0x1_0000_0000_0000_0000

  datatype NetworkPolicy = NetworkPolicy(mode: string, allowedTargets: seq<string>)

  datatype WorkspacePolicy = WorkspacePolicy(
    workspaceId: string,
    rootStrategy: string,
    allowedEnv: seq<string>,
    scopedCredentialRef: Option<string>,
    artifactPathAllowlist: seq<string>)

  datatype PolicySnapshot = PolicySnapshot(
    policyVersion: string,
    workingGroupId: string,
    allowedCapabilities: seq<string>,
    riskyActions: seq<string>,
    workspace: WorkspacePolicy,
    network: NetworkPolicy)

  type U16 = n: int | 0 <= n < 0x1_0000

  datatype NestedInstruction = NestedInstruction(
    instructionId: string,
    jobId: string,
    leaseId: string,
    tenantId: string,
    runnerId: string,
    capabilityInventoryVersion: string,
    protocolVersion: string,
    policyDecisionId: string,
    policyVersion: string,
    allowedAdapter: string,
    executionMode: string,
    timeoutSeconds: U64,
    maxConcurrencyImpact: U16,
    inputRefs: seq<string>,
    artifactAllowlist: seq<string>,
    credentialRef: string,
    credentialExpiresAt: string,
    credentialAudience: string,
    network: NetworkPolicy,
    logRedaction: string,
    retentionClass: string,
    usageCorrelationId: string,
    auditCorrelationId: string,
    issuedAt: string,
    notBefore: string,
    expiresAt: string,
    nonce: string,
    keyId: string,
    signature: string)

  /** An adapter kind stands for its serialised name. */
  datatype JobDispatch = JobDispatch(
    leaseId: string,
    jobId: string,
    runnerId: string,
    correlationId: string,
    idempotencyKey: string,
    adapter: string,
    input: Json,
    timeoutSeconds: U64,
    policy: PolicySnapshot,
    signedInstruction: Option<NestedInstruction>)

  datatype Envelope = Envelope(protocolVersion: string, messageType: string, payload: JobDispatch)

  datatype DispatchSignature = DispatchSignature(
    keyId: string, algorithm: string, signedAt: U64, expiresAt: U64, signatureBase64: string)

  datatype Instruction = Instruction(dispatch: Envelope, signature: DispatchSignature)

  // ----- Serialisation -----

  function StringsJson(ss: seq<string>): Json {
    Array(seq(|ss|, i requires 0 <= i < |ss| => String(ss[i])))
  }

  function OptionJson(o: Option<string>): Json {
    match o case Some(s) => String(s) case None => Null
  }

  /** A serialised record: its field names in declaration order, each with its value. */
  function Record(names: seq<string>, values: seq<Json>): Json
    requires |names| == |values|
  {
    Object(seq(|names|, i requires 0 <= i < |names| => Entry(names[i], values[i])))
  }

  function NetworkFields(): (names: seq<string>)
    ensures |names| == 2
  {
    ["mode", "allowed_targets"]
  }

  function NetworkJson(p: NetworkPolicy): Json {
    Record(NetworkFields(), [String(p.mode), StringsJson(p.allowedTargets)])
  }

  function WorkspaceFields(): (names: seq<string>)
    ensures |names| == 5
  {
    ["workspace_id", "root_strategy", "allowed_env", "scoped_credential_ref", "artifact_path_allowlist"]
  }

  function WorkspaceJson(p: WorkspacePolicy): Json {
    Record(WorkspaceFields(), [
      String(p.workspaceId), String(p.rootStrategy), StringsJson(p.allowedEnv),
      OptionJson(p.scopedCredentialRef), StringsJson(p.artifactPathAllowlist)
    ])
  }

  function PolicyFields(): (names: seq<string>)
    ensures |names| == 6
  {
    ["policy_version", "working_group_id", "allowed_capabilities", "risky_actions", "workspace", "network"]
  }

  function PolicyJson(p: PolicySnapshot): Json {
    Record(PolicyFields(), [
      String(p.policyVersion), String(p.workingGroupId), StringsJson(p.allowedCapabilities),
      StringsJson(p.riskyActions), WorkspaceJson(p.workspace), NetworkJson(p.network)
    ])
  }

  function NestedFields(): (names: seq<string>)
    ensures |names| == 29
  {
    ["instruction_id", "job_id", "lease_id", "tenant_id", "runner_id", "capability_inventory_version",
     "protocol_version", "policy_decision_id", "policy_version", "allowed_adapter", "execution_mode",
     "timeout_seconds", "max_concurrency_impact", "input_refs", "artifact_allowlist", "credential_ref",
     "credential_expires_at", "credential_audience", "network", "log_redaction", "retention_class",
     "usage_correlation_id", "audit_correlation_id", "issued_at", "not_before", "expires_at", "nonce",
     "key_id", "signature"]
  }

  function NestedValues(n: NestedInstruction): (values: seq<Json>)
    ensures |values| == 29
  {
    [String(n.instructionId), String(n.jobId), String(n.leaseId), String(n.tenantId), String(n.runnerId),
     String(n.capabilityInventoryVersion), String(n.protocolVersion), String(n.policyDecisionId),
     String(n.policyVersion), String(n.allowedAdapter), String(n.executionMode),
     Number(Whole(n.timeoutSeconds)), Number(Whole(n.maxConcurrencyImpact)),
     StringsJson(n.inputRefs), StringsJson(n.artifactAllowlist), String(n.credentialRef),
     String(n.credentialExpiresAt), String(n.credentialAudience), NetworkJson(n.network),
     String(n.logRedaction), String(n.retentionClass), String(n.usageCorrelationId),
     String(n.auditCorrelationId), String(n.issuedAt), String(n.notBefore), String(n.expiresAt),
     String(n.nonce), String(n.keyId), String(n.signature)]
  }

  function NestedJson(n: NestedInstruction): Json {
    Record(NestedFields(), NestedValues(n))
  }

  /** A missing nested instruction is left out, not written as null. */
  function DispatchFields(nested: bool): (names: seq<string>)
    ensures |names| == if nested then 10 else 9
  {
    ["lease_id", "job_id", "runner_id", "correlation_id", "idempotency_key", "adapter", "input",
     "timeout_seconds", "policy"] + if nested then ["signed_instruction"] else []
  }

  function DispatchValues(d: JobDispatch): (values: seq<Json>)
    ensures |values| == if d.signedInstruction.Some? then 10 else 9
  {
    [String(d.leaseId), String(d.jobId), String(d.runnerId), String(d.correlationId), String(d.idempotencyKey),
     String(d.adapter), d.input, Number(Whole(d.timeoutSeconds)), PolicyJson(d.policy)]
    + match d.signedInstruction case Some(n) => [NestedJson(n)] case None => []
  }

  function DispatchJson(d: JobDispatch): Json {
    Record(DispatchFields(d.signedInstruction.Some?), DispatchValues(d))
  }

  function EnvelopeFields(): (names: seq<string>)
    ensures |names| == 3
  {
    ["protocol_version", "message_type", "payload"]
  }

  function EnvelopeJson(e: Envelope): Json {
    Record(EnvelopeFields(), [String(e.protocolVersion), String(e.messageType), DispatchJson(e.payload)])
  }

  /** The metadata that is signed; the signature itself is not part of it. */
  function MetadataFields(): (names: seq<string>)
    ensures |names| == 4
  {
    ["algorithm", "expires_at_unix_seconds", "key_id", "signed_at_unix_seconds"]
  }

  function MetadataJson(s: DispatchSignature): Json {
    Record(MetadataFields(), [
      String(s.algorithm), Number(Whole(s.expiresAt)), String(s.keyId), Number(Whole(s.signedAt))
    ])
  }

  function DocumentFields(): (names: seq<string>)
    ensures |names| == 2
  {
    ["dispatch", "signature"]
  }

  function SigningDocument(dispatch: Envelope, signature: DispatchSignature): Json {
    Record(DocumentFields(), [EnvelopeJson(dispatch), MetadataJson(signature)])
  }

  function CanonicalSigningPayload(dispatch: Envelope, signature: DispatchSignature): string {
    Print(SortJson(SigningDocument(dispatch, signature)))
  }

  /** The bytes that are signed. */
  function PayloadBytes(dispatch: Envelope, signature: DispatchSignature): seq<Byte> {
    Encode(CanonicalSigningPayload(dispatch, signature))
  }

  // ----- What equal payloads mean -----

  /** The free-form input of a dispatch never repeats a key within an object. */
  predicate Parsed(d: JobDispatch) {
    WellFormed(d.input)
  }

  /** Equal in everything, except that objects inside the free-form input may list their keys in another order. */
  ghost predicate SameDispatch(a: JobDispatch, b: JobDispatch) {
    a.(input := b.input) == b && SameUpToKeyOrder(a.input, b.input)
  }

  ghost predicate SameInstruction(a: Instruction, b: Instruction) {
    && a.dispatch.(payload := b.dispatch.payload) == b.dispatch
    && SameDispatch(a.dispatch.payload, b.dispatch.payload)
    && a.signature.(signatureBase64 := b.signature.signatureBase64) == b.signature
  }
}
