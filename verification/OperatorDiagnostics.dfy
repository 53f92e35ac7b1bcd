/** The operator's diagnostics snapshot (`src/diagnostics.rs`), and what it reveals about the configured credential. */
module OperatorDiagnostics {
  import opened Diagnostics
  import opened Json
  import opened SensitiveKeys
  import opened Wrappers

  /** The part of the configuration that the snapshot reads directly. */
  datatype RemoteConfig = RemoteConfig(
    controlPlaneUrl: string,
    runnerId: Option<string>,
    registrationTokenEnv: string,
    credentialPlaceholder: Option<string>,
    maxConcurrency: nat)

  datatype DiagnosticsOptions = DiagnosticsOptions(
    health: string, quarantineReason: Option<string>, lastValidInstruction: Option<Json>)

  datatype Capabilities = Capabilities(protocolVersion: string, inventory: Json)

  function OptionalString(o: Option<string>): Json {
    match o case Some(s) => String(s) case None => Null
  }

  function Snapshot(config: RemoteConfig, options: DiagnosticsOptions, capabilities: Capabilities, daemonVersion: string): Json {
    Object([
      Entry("schema_version", String("runner_operator_diagnostics.v1")),
      Entry("protocol_version", String("remote.v1alpha1")),
      Entry("capability_inventory_version", String(capabilities.protocolVersion)),
      Entry("daemon_version", String(daemonVersion)),
      Entry("runner_id", String(match config.runnerId case Some(id) => id case None => "unregistered-local-runner")),
      Entry("control_plane_url", String(config.controlPlaneUrl)),
      Entry("registration_token_env_name", String(config.registrationTokenEnv)),
      Entry("credential_ref", match config.credentialPlaceholder
        case Some(_) => String("[REDACTED:credential_ref]")
        case None => Null),
      Entry("last_valid_instruction", match options.lastValidInstruction case Some(i) => i case None => Null),
      Entry("heartbeat_state", Object([
        Entry("health", String(options.health)),
        Entry("active_job_ids", Array([])),
        Entry("available_concurrency", Number(Whole(config.maxConcurrency))),
        Entry("resource_pressure", Array([])),
        Entry("last_error_category", Null),
        Entry("quarantine_reason", OptionalString(options.quarantineReason))
      ])),
      Entry("capability_inventory", capabilities.inventory)
    ])
  }

  /** None of these keys is sensitive. */
  lemma ReportedKeysAreNotSensitive(key: string)
    requires key in {"schema_version", "protocol_version", "capability_inventory_version", "daemon_version", "runner_id",
                     "control_plane_url", "registration_token_env_name", "last_valid_instruction", "heartbeat_state",
                     "capability_inventory", "health", "active_job_ids", "available_concurrency", "resource_pressure",
                     "last_error_category", "quarantine_reason"}
    ensures !IsSensitiveKey(key)
  {
    hide IsSensitiveKey;
    if IsSensitiveKey(key) {
      SensitiveEndsInPair(key);
      assert false;
    }
  }

  function HeartbeatMembers(config: RemoteConfig, options: DiagnosticsOptions): seq<Entry> {
    [
      Entry("health", String(options.health)),
      Entry("active_job_ids", Array([])),
      Entry("available_concurrency", Number(Whole(config.maxConcurrency))),
      Entry("resource_pressure", Array([])),
      Entry("last_error_category", Null),
      Entry("quarantine_reason", if options.quarantineReason.Some? then String(options.quarantineReason.value) else Null)
    ]
  }

  lemma HeartbeatIsKept(config: RemoteConfig, options: DiagnosticsOptions)
    ensures RedactKeys(Object(HeartbeatMembers(config, options))) == Object(HeartbeatMembers(config, options))
  {
    hide IsSensitiveKey;
    ReportedKeysAreNotSensitive("health");
    ReportedKeysAreNotSensitive("active_job_ids");
    ReportedKeysAreNotSensitive("available_concurrency");
    ReportedKeysAreNotSensitive("resource_pressure");
    ReportedKeysAreNotSensitive("last_error_category");
    ReportedKeysAreNotSensitive("quarantine_reason");
    assert RedactKeys(Array([])) == Array([]);
    assert RedactKeys(Object(HeartbeatMembers(config, options))).entries == HeartbeatMembers(config, options);
  }

  /** The diagnostics are the same whatever credential is configured, and whether one is configured at all. */
  lemma CredentialIsInvisible(config: RemoteConfig, other: Option<string>, options: DiagnosticsOptions,
                              capabilities: Capabilities, daemonVersion: string)
    ensures RedactKeys(Snapshot(config, options, capabilities, daemonVersion))
            == RedactKeys(Snapshot(config.(credentialPlaceholder := other), options, capabilities, daemonVersion))
  {
    hide IsSensitiveKey;
    var a := Snapshot(config, options, capabilities, daemonVersion);
    var b := Snapshot(config.(credentialPlaceholder := other), options, capabilities, daemonVersion);
    CredentialRefIsSensitive();
    assert a.entries[7].key == "credential_ref";
    assert forall i :: 0 <= i < |a.entries| && i != 7 ==> a.entries[i] == b.entries[i];
    assert RedactKeys(a).entries == RedactKeys(b).entries;
  }

  lemma CredentialRefIsSensitive()
    ensures IsSensitiveKey("credential_ref")
  {
    assert ToAsciiLowercase("credential_ref") == SENSITIVE_KEYS[9];
  }

  /** The name of the token's environment variable is reported unchanged. */
  lemma TokenEnvironmentNameIsKept(config: RemoteConfig, options: DiagnosticsOptions, capabilities: Capabilities, daemonVersion: string)
    ensures At(RedactKeys(Snapshot(config, options, capabilities, daemonVersion)), [6]) == Some(String(config.registrationTokenEnv))
  {
    hide IsSensitiveKey;
    ReportedKeysAreNotSensitive("registration_token_env_name");
    var v := Snapshot(config, options, capabilities, daemonVersion);
    assert v.entries[6].key == "registration_token_env_name";
    assert At(RedactKeys(v).entries[6].value, []) == Some(RedactKeys(v).entries[6].value);
  }

  lemma CredentialShowsPlaceholder(config: RemoteConfig, options: DiagnosticsOptions, capabilities: Capabilities,
                                   daemonVersion: string)
    ensures At(RedactKeys(Snapshot(config, options, capabilities, daemonVersion)), [7]) == Some(Placeholder("credential_ref"))
  {
    hide IsSensitiveKey;
    CredentialRefIsSensitive();
    var v := Snapshot(config, options, capabilities, daemonVersion);
    assert v.entries[7].key == "credential_ref";
    assert At(RedactKeys(v).entries[7].value, []) == Some(RedactKeys(v).entries[7].value);
  }

  lemma TopKeysAreNotSensitive()
    ensures !IsSensitiveKey("schema_version") && !IsSensitiveKey("protocol_version")
    ensures !IsSensitiveKey("capability_inventory_version") && !IsSensitiveKey("daemon_version")
    ensures !IsSensitiveKey("runner_id") && !IsSensitiveKey("control_plane_url")
    ensures !IsSensitiveKey("registration_token_env_name") && !IsSensitiveKey("last_valid_instruction")
    ensures !IsSensitiveKey("heartbeat_state") && !IsSensitiveKey("capability_inventory")
  {
    hide IsSensitiveKey;
    ReportedKeysAreNotSensitive("schema_version");
    ReportedKeysAreNotSensitive("protocol_version");
    ReportedKeysAreNotSensitive("capability_inventory_version");
    ReportedKeysAreNotSensitive("daemon_version");
    ReportedKeysAreNotSensitive("runner_id");
    ReportedKeysAreNotSensitive("control_plane_url");
    ReportedKeysAreNotSensitive("registration_token_env_name");
    ReportedKeysAreNotSensitive("last_valid_instruction");
    ReportedKeysAreNotSensitive("heartbeat_state");
    ReportedKeysAreNotSensitive("capability_inventory");
  }

  lemma CredentialPlaceholder()
    ensures Placeholder("credential_ref") == String("[REDACTED:credential_ref]")
  {
    assert "[REDACTED:" + "credential_ref" + "]" == "[REDACTED:credential_ref]";
  }

  /** An entry of a redacted object. */
  lemma RedactedMember(entries: seq<Entry>, i: nat)
    requires i < |entries|
    ensures RedactKeys(Object(entries)).Object? && |RedactKeys(Object(entries)).entries| == |entries|
    ensures RedactKeys(Object(entries)).entries[i] ==
      Entry(entries[i].key, if IsSensitiveKey(entries[i].key) then Placeholder(entries[i].key) else RedactKeys(entries[i].value))
    ensures entries[i].value.String? || entries[i].value.Null? ==> RedactKeys(entries[i].value) == entries[i].value
  {
    hide IsSensitiveKey, Placeholder;
  }

  /** Member by member, what an operator gets to see. */
  lemma DiagnosticsMembers(config: RemoteConfig, options: DiagnosticsOptions, capabilities: Capabilities,
                           daemonVersion: string)
    ensures var v := RedactKeys(Snapshot(config, options, capabilities, daemonVersion));
      && v.Object? && |v.entries| == 11
      && v.entries[0] == Entry("schema_version", String("runner_operator_diagnostics.v1"))
      && v.entries[1] == Entry("protocol_version", String("remote.v1alpha1"))
      && v.entries[2] == Entry("capability_inventory_version", String(capabilities.protocolVersion))
      && v.entries[3] == Entry("daemon_version", String(daemonVersion))
      && v.entries[4] == Entry("runner_id", String(if config.runnerId.Some? then config.runnerId.value
                                                   else "unregistered-local-runner"))
      && v.entries[5] == Entry("control_plane_url", String(config.controlPlaneUrl))
      && v.entries[6] == Entry("registration_token_env_name", String(config.registrationTokenEnv))
      && v.entries[7] == Entry("credential_ref", String("[REDACTED:credential_ref]"))
      && v.entries[8] == Entry("last_valid_instruction", if options.lastValidInstruction.Some?
                                                         then RedactKeys(options.lastValidInstruction.value) else Null)
      && v.entries[9] == Entry("heartbeat_state", Object(HeartbeatMembers(config, options)))
      && v.entries[10] == Entry("capability_inventory", RedactKeys(capabilities.inventory))
  {
    hide IsSensitiveKey, Placeholder, RedactKeys;
    var e := Snapshot(config, options, capabilities, daemonVersion).entries;
    TopKeysAreNotSensitive();
    CredentialRefIsSensitive();
    CredentialPlaceholder();
    HeartbeatIsKept(config, options);
    RedactedMember(e, 0);
    RedactedMember(e, 1);
    RedactedMember(e, 2);
    RedactedMember(e, 3);
    RedactedMember(e, 4);
    RedactedMember(e, 5);
    RedactedMember(e, 6);
    RedactedMember(e, 7);
    RedactedMember(e, 8);
    RedactedMember(e, 9);
    RedactedMember(e, 10);
  }

  /** The snapshot shows a placeholder for the credential, does not depend on it, and keeps the token's variable name. */
  method OperatorDiagnostics(config: RemoteConfig, options: DiagnosticsOptions, capabilities: Capabilities,
                             daemonVersion: string)
    returns (value: Json)
    ensures value == RedactKeys(Snapshot(config, options, capabilities, daemonVersion))
    ensures forall other :: value == RedactKeys(Snapshot(config.(credentialPlaceholder := other), options, capabilities, daemonVersion))
    ensures At(value, [7]) == Some(Placeholder("credential_ref"))
    ensures At(value, [6]) == Some(String(config.registrationTokenEnv))
  {
    hide RedactKeys, Snapshot, Placeholder, At;
    value := Snapshot(config, options, capabilities, daemonVersion);
    value := RedactSensitiveValues(value);
    forall other
      ensures value == RedactKeys(Snapshot(config.(credentialPlaceholder := other), options, capabilities, daemonVersion))
    {
      CredentialIsInvisible(config, other, options, capabilities, daemonVersion);
    }
    CredentialShowsPlaceholder(config, options, capabilities, daemonVersion);
    TokenEnvironmentNameIsKept(config, options, capabilities, daemonVersion);
  }
}
