/** The serialised form member by member: which name holds which field. */
module WireFormat {
  import opened ByteOrder
  import opened Canonical
  import opened Dispatch
  import opened Json
  import opened JsonText
  import opened KeyOrder
  import opened PayloadBinding
  import opened Printer
  import opened Wrappers

  lemma StringsFormat(ss: seq<string>)
    ensures StringsJson(ss).Array? && |StringsJson(ss).items| == |ss|
    ensures forall i :: 0 <= i < |ss| ==> StringsJson(ss).items[i] == String(ss[i])
  {
  }

  lemma NetworkFormat(p: NetworkPolicy)
    ensures NetworkJson(p) == Object([
      Entry("mode", String(p.mode)),
      Entry("allowed_targets", StringsJson(p.allowedTargets))])
  {
    hide StringsJson;
  }

  lemma WorkspaceFormat(p: WorkspacePolicy)
    ensures WorkspaceJson(p) == Object([
      Entry("workspace_id", String(p.workspaceId)),
      Entry("root_strategy", String(p.rootStrategy)),
      Entry("allowed_env", StringsJson(p.allowedEnv)),
      Entry("scoped_credential_ref", if p.scopedCredentialRef.Some? then String(p.scopedCredentialRef.value) else Null),
      Entry("artifact_path_allowlist", StringsJson(p.artifactPathAllowlist))])
  {
    hide StringsJson;
  }

  lemma PolicyFormat(p: PolicySnapshot)
    ensures PolicyJson(p) == Object([
      Entry("policy_version", String(p.policyVersion)),
      Entry("working_group_id", String(p.workingGroupId)),
      Entry("allowed_capabilities", StringsJson(p.allowedCapabilities)),
      Entry("risky_actions", StringsJson(p.riskyActions)),
      Entry("workspace", WorkspaceJson(p.workspace)),
      Entry("network", NetworkJson(p.network))])
  {
    hide StringsJson, WorkspaceJson, NetworkJson;
  }

  lemma NestedFormat(n: NestedInstruction)
    ensures NestedJson(n) == Object([
      Entry("instruction_id", String(n.instructionId)),
      Entry("job_id", String(n.jobId)),
      Entry("lease_id", String(n.leaseId)),
      Entry("tenant_id", String(n.tenantId)),
      Entry("runner_id", String(n.runnerId)),
      Entry("capability_inventory_version", String(n.capabilityInventoryVersion)),
      Entry("protocol_version", String(n.protocolVersion)),
      Entry("policy_decision_id", String(n.policyDecisionId)),
      Entry("policy_version", String(n.policyVersion)),
      Entry("allowed_adapter", String(n.allowedAdapter)),
      Entry("execution_mode", String(n.executionMode)),
      Entry("timeout_seconds", Number(Whole(n.timeoutSeconds))),
      Entry("max_concurrency_impact", Number(Whole(n.maxConcurrencyImpact))),
      Entry("input_refs", StringsJson(n.inputRefs)),
      Entry("artifact_allowlist", StringsJson(n.artifactAllowlist)),
      Entry("credential_ref", String(n.credentialRef)),
      Entry("credential_expires_at", String(n.credentialExpiresAt)),
      Entry("credential_audience", String(n.credentialAudience)),
      Entry("network", NetworkJson(n.network)),
      Entry("log_redaction", String(n.logRedaction)),
      Entry("retention_class", String(n.retentionClass)),
      Entry("usage_correlation_id", String(n.usageCorrelationId)),
      Entry("audit_correlation_id", String(n.auditCorrelationId)),
      Entry("issued_at", String(n.issuedAt)),
      Entry("not_before", String(n.notBefore)),
      Entry("expires_at", String(n.expiresAt)),
      Entry("nonce", String(n.nonce)),
      Entry("key_id", String(n.keyId)),
      Entry("signature", String(n.signature))])
  {
    hide StringsJson, NetworkJson;
  }

  lemma DispatchFormat(d: JobDispatch)
    ensures DispatchJson(d) == Object([
      Entry("lease_id", String(d.leaseId)),
      Entry("job_id", String(d.jobId)),
      Entry("runner_id", String(d.runnerId)),
      Entry("correlation_id", String(d.correlationId)),
      Entry("idempotency_key", String(d.idempotencyKey)),
      Entry("adapter", String(d.adapter)),
      Entry("input", d.input),
      Entry("timeout_seconds", Number(Whole(d.timeoutSeconds))),
      Entry("policy", PolicyJson(d.policy))]
      + if d.signedInstruction.Some? then [Entry("signed_instruction", NestedJson(d.signedInstruction.value))] else [])
  {
    hide PolicyJson, NestedJson;
  }

  lemma EnvelopeFormat(e: Envelope)
    ensures EnvelopeJson(e) == Object([
      Entry("protocol_version", String(e.protocolVersion)),
      Entry("message_type", String(e.messageType)),
      Entry("payload", DispatchJson(e.payload))])
  {
    hide DispatchJson;
  }

  lemma MetadataFormat(s: DispatchSignature)
    ensures MetadataJson(s) == Object([
      Entry("algorithm", String(s.algorithm)),
      Entry("expires_at_unix_seconds", Number(Whole(s.expiresAt))),
      Entry("key_id", String(s.keyId)),
      Entry("signed_at_unix_seconds", Number(Whole(s.signedAt)))])
  {
  }

  // ----- The text that is signed -----

  lemma {:induction false} PlainTextIsNotEscaped(s: string)
    requires forall i :: 0 <= i < |s| ==> s[i] != '\"' && s[i] != '\\' && s[i] as int >= 0x20
    ensures Escape(s) == s
  {
    if s == "" {
    } else {
      PlainTextIsNotEscaped(s[1..]);
      assert s == [s[0]] + s[1..];
    }
  }

  /** One member as it is written. */
  function Member(name: string, v: Json): string {
    "\"" + name + "\":" + Print(v)
  }

  predicate IsPlainName(name: string) {
    forall i :: 0 <= i < |name| ==> 'a' <= name[i] <= 'z' || name[i] == '_'
  }

  lemma EntryText(name: string, v: Json)
    requires IsPlainName(name)
    ensures Quote(name) + ":" + Print(v) == Member(name, v)
  {
    hide Print, Escape;
    PlainTextIsNotEscaped(name);
    var p := Print(v);
    assert (['\"'] + name + ['\"']) + ":" + p == "\"" + name + "\":" + p;
  }

  /** The members of an object behind its first one. */
  lemma RestText(name: string, v: Json, rest: seq<Entry>, first: bool)
    requires IsPlainName(name)
    ensures PrintEntries([Entry(name, v)] + rest, first) == Separator(first) + Member(name, v) + PrintEntries(rest, false)
  {
    hide Print, Quote, Member;
    EntryText(name, v);
    assert ([Entry(name, v)] + rest)[1..] == rest;
  }

  lemma ObjectText(entries: seq<Entry>)
    ensures Print(Object(entries)) == "{" + PrintEntries(entries, true)
  {
  }

  lemma NoMembersLeft()
    ensures PrintEntries([], false) == "}"
  {
  }

  lemma TwoMembers(a: string, x: Json, b: string, y: Json)
    requires IsPlainName(a) && IsPlainName(b)
    ensures Print(Object([Entry(a, x), Entry(b, y)])) == "{" + Member(a, x) + "," + Member(b, y) + "}"
  {
    hide Member, Print, PrintEntries, IsPlainName;
    var all, d := [Entry(a, x), Entry(b, y)], [Entry(b, y)];
    assert [Entry(a, x)] + d == all && d + [] == d;
    ObjectText(all);
    RestText(a, x, d, true);
    RestText(b, y, [], false);
    NoMembersLeft();
    var p, q := Member(a, x), Member(b, y);
    assert "{" + ("" + p + ("," + q + "}")) == "{" + p + "," + q + "}";
  }

  lemma FourMembers(a: string, x: Json, b: string, y: Json, c: string, z: Json, d: string, w: Json)
    requires IsPlainName(a) && IsPlainName(b) && IsPlainName(c) && IsPlainName(d)
    ensures Print(Object([Entry(a, x), Entry(b, y), Entry(c, z), Entry(d, w)]))
            == "{" + Member(a, x) + "," + Member(b, y) + "," + Member(c, z) + "," + Member(d, w) + "}"
  {
    hide Member, Print, PrintEntries, IsPlainName;
    var s, t, u := [Entry(d, w)], [Entry(c, z), Entry(d, w)], [Entry(b, y), Entry(c, z), Entry(d, w)];
    var all := [Entry(a, x), Entry(b, y), Entry(c, z), Entry(d, w)];
    assert [Entry(a, x)] + u == all && [Entry(b, y)] + t == u && [Entry(c, z)] + s == t && s + [] == s;
    ObjectText(all);
    RestText(a, x, u, true);
    RestText(b, y, t, false);
    RestText(c, z, s, false);
    RestText(d, w, [], false);
    NoMembersLeft();
    JoinFour(Member(a, x), Member(b, y), Member(c, z), Member(d, w));
  }

  lemma JoinFour(m: string, p: string, q: string, r: string)
    ensures "{" + ("" + m + ("," + p + ("," + q + ("," + r + "}")))) == "{" + m + "," + p + "," + q + "," + r + "}"
  {
  }

  /** An object whose keys are in order already keeps them there. */
  lemma SortedObjectStays(entries: seq<Entry>)
    requires Ascending(Keys(entries)) && UniqueKeys(entries)
    ensures SortJson(Object(entries)) == Object(SortValues(entries))
  {
    hide Ascending, FromMap, ToMap;
    assert Keys(SortValues(entries)) == Keys(entries);
    FromMapToMap(SortValues(entries));
  }

  lemma MetadataStays(s: DispatchSignature)
    ensures SortJson(MetadataJson(s)) == MetadataJson(s)
  {
    hide SortJson, Ascending, MetadataJson;
    MetadataFormat(s);
    var entries := MetadataJson(s).entries;
    var names := ["algorithm", "expires_at_unix_seconds", "key_id", "signed_at_unix_seconds"];
    assert Keys(entries) == names;
    assert StrictlySorted(names);
    AscendingIffStrictlySorted(names);
    SortedObjectStays(entries);
    LeavesStay(entries);
  }

  lemma LeavesStay(entries: seq<Entry>)
    requires forall i :: 0 <= i < |entries| ==> !entries[i].value.Array? && !entries[i].value.Object?
    ensures SortValues(entries) == entries
  {
    assert forall i :: 0 <= i < |entries| ==> SortValues(entries)[i] == entries[i];
  }

  lemma DocumentStays(dispatch: Envelope, s: DispatchSignature)
    ensures SortJson(SigningDocument(dispatch, s))
            == Object([Entry("dispatch", SortJson(EnvelopeJson(dispatch))), Entry("signature", MetadataJson(s))])
  {
    hide SortJson, Ascending, EnvelopeJson, MetadataJson;
    var entries := [Entry("dispatch", EnvelopeJson(dispatch)), Entry("signature", MetadataJson(s))];
    assert SigningDocument(dispatch, s) == Object(entries);
    var names := ["dispatch", "signature"];
    assert Keys(entries) == names;
    assert StrictlySorted(names);
    AscendingIffStrictlySorted(names);
    SortedObjectStays(entries);
    MetadataStays(s);
    assert SortValues(entries) == [Entry("dispatch", SortJson(EnvelopeJson(dispatch))), Entry("signature", MetadataJson(s))];
  }

  lemma MetadataText(s: DispatchSignature)
    ensures Member("signature", MetadataJson(s)) ==
      "\"signature\":" + ("{" + Member("algorithm", String(s.algorithm))
                          + "," + Member("expires_at_unix_seconds", Number(Whole(s.expiresAt)))
                          + "," + Member("key_id", String(s.keyId))
                          + "," + Member("signed_at_unix_seconds", Number(Whole(s.signedAt))) + "}")
  {
    hide Print, MetadataJson;
    MetadataFormat(s);
    FourMembers("algorithm", String(s.algorithm), "expires_at_unix_seconds", Number(Whole(s.expiresAt)),
                "key_id", String(s.keyId), "signed_at_unix_seconds", Number(Whole(s.signedAt)));
    SignatureMember(MetadataJson(s));
  }

  lemma SignatureMember(v: Json)
    ensures Member("signature", v) == "\"signature\":" + Print(v)
  {
    assert "\"" + "signature" + "\":" == "\"signature\":";
  }

  /** The signed text: the sorted dispatch, then the four metadata in the order of their names, and no signature. */
  lemma PayloadText(dispatch: Envelope, s: DispatchSignature)
    ensures CanonicalSigningPayload(dispatch, s) ==
      "{" + Member("dispatch", SortJson(EnvelopeJson(dispatch))) + ","
      + ("\"signature\":" + ("{" + Member("algorithm", String(s.algorithm))
                             + "," + Member("expires_at_unix_seconds", Number(Whole(s.expiresAt)))
                             + "," + Member("key_id", String(s.keyId))
                             + "," + Member("signed_at_unix_seconds", Number(Whole(s.signedAt))) + "}")) + "}"
  {
    hide SortJson, Print, EnvelopeJson, MetadataJson, SigningDocument, Member;
    DocumentStays(dispatch, s);
    MetadataText(s);
    TwoMembers("dispatch", SortJson(EnvelopeJson(dispatch)), "signature", MetadataJson(s));
  }
}
