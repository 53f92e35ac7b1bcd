# TaskOtter Remote: what its safety-critical core guarantees

A Dafny model of four parts of TaskOtter Remote, with proofs about all inputs and all runs:

- **Secret-shape redaction** (`src/isolation.rs`). `SecretShapes` says position by position what is erased;
  `Blocks` renders a text with erased blocks; `Redaction` proves what the redacted text guarantees; `Redactor` is the
  scanner with its byte cursor, proved to compute it; `JsonRedaction` lifts it to JSON trees. `Utf8` makes byte offsets
  and character boundaries explicit, so that slicing a `&str` is a proof obligation. `SecretFormat` states the format with
  its prefixes, alphabet, count and marker written out.
- **Key-based redaction** (`src/diagnostics.rs`). `Diagnostics` overwrites values under sensitive keys and proves exact
  non-interference; `SensitiveKeys` writes the sensitive names out; `RedactionOrder` relates the two redactions; `OperatorDiagnostics` applies this to the snapshot.
- **Runner credentials** (`src/runner_lifecycle.rs`). `Lifecycle` has the simulator class; `LifecycleRuns` and
  `LifecycleBound` prove what holds over every sequence of calls, failed ones and half-completed rotations included;
  `LifecycleOutcomes` says exactly when a call succeeds and what is reported otherwise.
- **Signed dispatch** (`src/dispatch_auth.rs`). `KeyOrder` and `Canonical` model the sorted JSON, `ByteOrder` shows that it is
  sorted by UTF-8 bytes, `JsonText` and `Printer` give its printed form, which `JsonReader` reads back by the JSON
  grammar. `Dispatch` has the serialised envelope and the bytes that are signed; `WireFormat` lists their members and
  `PayloadBinding` proves what they bind. `DispatchAuth` has signing, verification and the replay cache;
  `DispatchChecks` says which check fails with which error, and `DispatchRuns` what holds over runs. `Labels` covers the
  strings that stand for identities.

`Keyed` collects records under their keys, `Whitespace` says which texts are blank, and `Json` and `Wrappers` hold the
shared data types. Check everything with
`dafny verify dfyconfig.toml`.

## How to read it

A function such as `Lifecycle.Rotate` or `DispatchAuth.Verify` gives the meaning of one operation on values. The method of
the same operation works the way the source does, by branches, loops and field updates, and is proved equal to it. The
theorems are about those functions, so they hold of the methods. `&mut Value` parameters become an argument and a
result: a Rust tree is owned and has no other reader during the call.

Signature and text encoding are fields of `DispatchAuth.Scheme`. Their laws are the hypothesis `Lawful` (sections 5.1.6
and 5.1.7 of RFC 8032, section 4 of RFC 4648) of the lemmas about signing. Nothing is assumed about forgeries:
`SignatureCoversInstruction` exhibits one instead.

Where code and documentation differ the model follows the code:

- The repository's README says that a retired key's signature must be made before retirement plus skew and inside the
  window; the code also accepts both end points (`src/dispatch_auth.rs:169-171`).
- It says that credential references are rendered as placeholders; the code also renders one when no credential is
  configured, because the null under that key is overwritten too (`src/diagnostics.rs:77-80`, `src/diagnostics.rs:102-103`).

Properties that are false in general come with the exact condition under which they hold:

- The two JSON redactions commute exactly when no visible sensitive key is itself secret-shaped (`RedactionsCommuteIff`);
  `OrderCanMatter` gives a family of trees on which they do not.
- A replay key need not identify its dispatch: `DifferentDispatchIsRefused` is a run in which a dispatch that was never
  seen is refused as a replay. Among the identities that pass the field check, one owns its key exactly when no other two
  colons of the key cut it into parts that are not blank (`ReplayKeyIsOwnedIff`); for a single runner only the colons
  behind the runner count (`OneRunnerKeyIsOwnedIff`). Jobs without a colon are enough for one runner
  (`ReplayKeysSeparate`).
- A workspace label identifies its job and workspace exactly when the separator occurs once
  (`WorkspaceLabelIsUnambiguousIff`); `WorkspaceLabelsCanCollide` gives two jobs with one label.
- A failing call leaves the simulator unchanged, except exactly a rotation away from an active credential to an unusable
  one (`FailureLeavesTraceIff`); `FailedRotationLeavesTrace` shows a runner that loses its leases that way.

## Model

| member | source | states |
|---|---|---|
| Redactor.FindSecretShapedSubstring | src/isolation.rs:185-216 | finds nothing exactly when no position starts a secret shape; otherwise the byte span of the first one |
| Redactor.RedactSecretShapedValues | src/isolation.rs:165-183 | the cursor loop computes the position-by-position redaction, never slices off a character boundary, flags exactly the texts with a secret, and fits the preallocated capacity |
| Redactor.ScanStep | src/isolation.rs:170-175 | one iteration copies the text before the first secret, adds one marker, and goes on behind it |
| Redactor.RedactLogChunk | src/isolation.rs:126-131 | the line is free of secrets, the flag remembers earlier redactions, and exactly clean chunks are unchanged |
| Redactor.RedactArtifactDescriptor | src/isolation.rs:133-137 | only the path label changes, and it ends up free of secrets |
| Redactor.RedactRunnerError | src/isolation.rs:139-143 | only the message changes, and it ends up free of secrets |
| SecretShapes.SecretIsLong | src/isolation.rs:205-223 | a secret shape opens with a prefix letter and takes at least 21 characters |
| SecretShapes.SecretStopsAtBarrier | src/isolation.rs:194-203 | nothing behind a non-body character influences whether a secret starts before it |
| SecretShapes.RedactDecomposes | src/isolation.rs:170-175 | redaction is the text before the first secret, one marker, and the redaction of the rest |
| SecretShapes.RedactWithoutSecret | src/isolation.rs:176-179 | a text without secret shapes is kept as it is |
| Blocks.RenderErasedBlock | src/isolation.rs:170-175 | every maximal block of erased positions, wherever it is, becomes exactly one marker |
| Blocks.RenderKeptStretch | src/isolation.rs:172-178 | every stretch of positions that are not erased is kept as it is |
| Redaction.ErasedExactly | src/isolation.rs:185-216 | a position is erased if and only if some prefix at or before it opens a body run through it with at least 20 alphanumerics |
| SecretFormat.ErasedIffWithinSecret | src/isolation.rs:185-223 | exactly the positions of words that open with "sk-", "tok_", "ghp_" or "secret_" and hold 20 characters other than underscore and hyphen are erased |
| SecretFormat.PrefixedWord | src/isolation.rs:165-223 | a prefix followed by letters, digits, underscores and hyphens becomes "[REDACTED]" with at least 20 letters and digits, and is kept otherwise |
| SecretFormat.TextWithoutPrefix | src/isolation.rs:186-192 | a text in which none of the four prefixes occurs is kept |
| SecretFormat.RunsEndAtOtherCharacters | src/isolation.rs:194-223 | any other character ends a run: both sides are redacted on their own |
| Redaction.RedactSplitsAtBarrier | src/isolation.rs:165-216 | redact(a + c + b) = redact(a) + c + redact(b) for every non-body character c, and the replacements add up |
| Redaction.RedactedTextIsClean | src/isolation.rs:165-216 | no secret shape is left anywhere in the output, not even across a splice |
| Redaction.RedactIsIdempotent | src/isolation.rs:165-183 | a second pass changes nothing and replaces nothing |
| Redaction.RedactChangesIffSecret | src/isolation.rs:165-183 | the output differs from the input, and something is replaced, if and only if there was a secret shape |
| Redaction.RedactByteBudget | src/isolation.rs:166-174 | output bytes plus 11 for every replacement never exceed the input bytes |
| Redaction.CutRunIsRedact | src/isolation.rs:185-216 | within one body run only the leftmost prefix matters |
| Redaction.OnePassIsRedact | src/isolation.rs:165-216 | the restarting scanner agrees with a single pass that cuts each maximal body run on its own |
| Utf8.SliceAtOffsets | src/isolation.rs:171-204 | slicing between byte offsets of characters is defined and yields the text between them |
| Utf8.ByteLenIsEncodedLength | src/isolation.rs:166-170 | the length in bytes is that of the UTF-8 encoding |
| Utf8.EncodeIsInjective | src/dispatch_auth.rs:131 | different texts have different bytes to sign |
| Utf8.EncodeCharFollowsTable | src/dispatch_auth.rs:131 | each character is encoded as the table in section 3 of RFC 3629 prescribes |
| JsonRedaction.RedactJsonValue | src/isolation.rs:145-163 | the walk over children in place redacts every string leaf and nothing else |
| JsonRedaction.RedactJsonAt | src/isolation.rs:145-163 | redaction acts on every subtree in its own place |
| JsonRedaction.RedactJsonKeepsShape | src/isolation.rs:145-163 | on every path the node stays: same constructor, length, keys and leaf, but for the redacted text of a string |
| JsonRedaction.RedactedJsonIsSecretFree | src/isolation.rs:145-163 | no string leaf on any path holds a secret shape afterwards |
| JsonRedaction.RedactJsonKeepsIffSecretFree | src/isolation.rs:145-163 | exactly the secret-free trees are unchanged; redaction is idempotent |
| Diagnostics.RedactSensitiveValues | src/diagnostics.rs:98-116 | the walk in place overwrites exactly the values under sensitive keys |
| Diagnostics.RedactKeysNonInterference | src/diagnostics.rs:98-137 | two trees redact to the same tree if and only if no path above sensitive keys tells them apart |
| Diagnostics.RedactKeysIsCanonical | src/diagnostics.rs:98-137 | the result looks like the input and is the fixed representative of everything that does |
| Diagnostics.LookalikesRedactAlike | src/diagnostics.rs:98-116 | whatever stands below a sensitive key has no influence on the result |
| SensitiveKeys.SensitiveKeysAreThese | src/diagnostics.rs:118-137 | eleven names and four endings, in any case of letters, make a key sensitive, and nothing else does |
| SensitiveKeys.VisibleIsKept | src/diagnostics.rs:98-116 | keys, lengths and leaves on visible paths stand in the result unchanged |
| SensitiveKeys.SensitiveIsReplaced | src/diagnostics.rs:101-103 | under every visible sensitive key stands "[REDACTED:" with the key |
| RedactionOrder.PlaceholderKeptIffKeyClean | src/diagnostics.rs:103 | the placeholder survives secret redaction if and only if the key it names is clean |
| RedactionOrder.RedactionsCommuteIff | src/diagnostics.rs:98-116 | the two redactions commute if and only if every visible sensitive key is clean |
| RedactionOrder.OrderCanMatter | src/diagnostics.rs:118-137 | a family of trees, with a secret-shaped sensitive key, on which the order matters |
| OperatorDiagnostics.OperatorDiagnostics | src/diagnostics.rs:64-96 | the redacted snapshot shows a placeholder for the credential, is the same for every credential, and keeps the name of the token's variable |
| OperatorDiagnostics.CredentialIsInvisible | src/diagnostics.rs:77-95 | the diagnostics are the same for every configured credential, and for none |
| OperatorDiagnostics.TokenEnvironmentNameIsKept | src/diagnostics.rs:76 | the name of the token's environment variable is reported unchanged |
| OperatorDiagnostics.DiagnosticsMembers | src/diagnostics.rs:64-96 | member by member what the operator sees: eleven names with their values, the inner records redacted |
| Keyed.Index | src/runner_lifecycle.rs:96-110 | records are filed under their own identifier |
| Keyed.IndexFindsLast | src/runner_lifecycle.rs:96-110 | the last record with an identifier is the one that is kept |
| Keyed.IndexHasNoOthers | src/runner_lifecycle.rs:96-110 | an identifier without a record has no entry |
| Lifecycle.RunnerLifecycleSimulator.FromScenario | src/runner_lifecycle.rs:93-112 | the three maps hold the scenario's records, each under its identifier |
| Lifecycle.RunnerLifecycleSimulator.RegisterRunner | src/runner_lifecycle.rs:114-151 | new state and result of a registration; a failure changes nothing |
| Lifecycle.RunnerLifecycleSimulator.RotateCredential | src/runner_lifecycle.rs:153-184 | new state and result of a rotation, which gives up the current credential before it looks at the next |
| Lifecycle.RunnerLifecycleSimulator.EvaluateLease | src/runner_lifecycle.rs:186-229 | a lease is accepted if and only if the runner is registered and its credential known, active and unexpired; expiry is the reason if and only if the runner is marked expired or holds a known credential past its tick |
| LifecycleOutcomes.RegisterSucceedsIff | src/runner_lifecycle.rs:120-134 | a registration succeeds if and only if the token is known, unexpired and unused and the credential known, active and unexpired |
| LifecycleOutcomes.FirstRegisterFailure | src/runner_lifecycle.rs:120-134 | six checks in a fixed order; the first that fails decides the error and nothing changes |
| LifecycleOutcomes.SuccessfulRegistration | src/runner_lifecycle.rs:136-150 | the whole state after a registration |
| LifecycleOutcomes.RotateSucceedsIff | src/runner_lifecycle.rs:159-176 | a rotation succeeds if and only if the runner holds the known current credential, active or not, and the next one is another that is known, active and unexpired |
| LifecycleOutcomes.FirstRotateFailure | src/runner_lifecycle.rs:159-176 | six checks in a fixed order; the first that fails decides the error |
| LifecycleOutcomes.SuccessfulRotation | src/runner_lifecycle.rs:170-183 | the whole state after a rotation |
| LifecycleOutcomes.RejectionIsReported | src/runner_lifecycle.rs:200-229 | the reason given for each state of a runner that gets no lease |
| LifecycleRuns.FailureLeavesTraceIff | src/runner_lifecycle.rs:166-176 | a call fails and still changes the state if and only if it rotates away from an active credential to one that is the same, unknown, inactive or expired |
| LifecycleRuns.FailedRotationLeavesTrace | src/runner_lifecycle.rs:166-175 | a state in which a failing rotation takes the leases of a runner away |
| LifecycleRuns.CredentialStep | src/runner_lifecycle.rs:166-170 | a call changes no credential but the one it gives up, and of that only the active flag |
| LifecycleRuns.TokenStep | src/runner_lifecycle.rs:120-136 | a token goes from unused to used by the runner of the registration that succeeds with it, and no other way |
| LifecycleRuns.RunnerStep | src/runner_lifecycle.rs:137-150 | a call touches at most the runner it names, and a grant names the credential that runner then holds |
| LifecycleRuns.RunnerHistory | src/runner_lifecycle.rs:114-184 | over every run a runner's record is its initial one until a grant names it; from then on it is registered with the credential of its last grant |
| LifecycleRuns.GivenUpCredentialIsDead | src/runner_lifecycle.rs:153-184 | a credential given up by any rotation, also a failing one or one to itself, stays inactive in the rest of every run, is never granted and carries no lease |
| LifecycleRuns.AcceptsStep | src/runner_lifecycle.rs:114-230 | one call makes a runner accept leases exactly by a grant to it, and stops it exactly by giving up the credential it holds |
| LifecycleRuns.AcceptsIffGrantedAndUndisturbed | src/runner_lifecycle.rs:114-230 | over every run, leases are accepted if and only if some grant, or the initial state, has not been disturbed since |
| LifecycleRuns.TokenHistory | src/runner_lifecycle.rs:120-136 | a token is untouched until a registration succeeds with it, and bound to that runner ever after |
| LifecycleRuns.TokenIsSingleUse | src/runner_lifecycle.rs:124-136 | each token backs at most one registration per run, and none when it starts used or expired |
| LifecycleRuns.RegisteredTokenPointsBack | src/runner_lifecycle.rs:136-145 | a runner registered in the run keeps a token that names it as its user, through rotations and re-registrations |
| LifecycleBound.MeasureStep | src/runner_lifecycle.rs:114-184 | every success lowers the measure and no failure, half-completed rotations included, raises it |
| LifecycleBound.GrantsAreBounded | src/runner_lifecycle.rs:114-184 | the successful grants of every run are bounded by the measure of its initial state |
| LifecycleBound.GrantsAreBoundedByCounts | src/runner_lifecycle.rs:114-184 | at most one grant for each usable credential and each runner or fresh token |
| KeyOrder.SortedKeys | src/dispatch_auth.rs:259-261 | a sorted map lists each of its keys once |
| KeyOrder.SortedListingIsUnique | src/dispatch_auth.rs:259-261 | there is only one sorted listing of a set of keys |
| ByteOrder.LeqIsByteOrder | src/dispatch_auth.rs:259 | comparing keys by characters agrees with comparing their UTF-8 bytes |
| ByteOrder.SortedKeysAscend | src/dispatch_auth.rs:259-261 | a sorted map lists its keys with ascending bytes |
| Canonical.ToMapFromMap | src/dispatch_auth.rs:255-262 | listing a sorted map loses nothing |
| Canonical.SortJsonIsSorted | src/dispatch_auth.rs:252-265 | at every level the bytes of the keys ascend, and keys are unique |
| Canonical.SortJsonIsExact | src/dispatch_auth.rs:252-265 | two values sort alike if and only if they differ only in the order of object keys |
| Canonical.SortJsonIsCanonical | src/dispatch_auth.rs:252-265 | the sorted value is the only sorted value that differs from the input in nothing but key order |
| Canonical.SortJsonIsIdempotent | src/dispatch_auth.rs:252-265 | sorting twice is sorting once |
| JsonReader.ReadsQuoted | src/dispatch_auth.rs:212-213 | a string is recovered from its printed form by the meaning of each escape |
| JsonReader.EscapeIsShortest | src/dispatch_auth.rs:212-213 | no spelling of a character is shorter than the printed one, and none as short differs but in upper-case hexadecimal digits |
| JsonReader.ReadsNumber | src/dispatch_auth.rs:212-213 | a number is recovered as the decimal value of its digits |
| JsonReader.DigitsHaveNoLeadingZero | src/dispatch_auth.rs:212-213 | whole numbers are printed without leading zeros |
| JsonReader.ReadsPrinted | src/dispatch_auth.rs:212-213 | a reader written from the JSON grammar recovers every printed value, and the text behind it |
| JsonReader.PrintReadsBack | src/dispatch_auth.rs:212-213 | different values print differently, and neither printed form is the start of the other |
| WireFormat.NetworkFormat | src/protocol.rs:84-88 | which name holds which field of the network policy |
| WireFormat.WorkspaceFormat | src/protocol.rs:75-82 | which name holds which field of the workspace policy, a missing credential as null |
| WireFormat.PolicyFormat | src/protocol.rs:124-132 | which name holds which field of the policy |
| WireFormat.StringsFormat | src/protocol.rs:75-88 | a list of strings is an array of those strings in order |
| WireFormat.NestedFormat | src/protocol.rs:90-121 | which name holds which of the 29 fields of the nested instruction |
| WireFormat.DispatchFormat | src/protocol.rs:146-159 | which name holds which field of the dispatch; a missing nested instruction is left out |
| WireFormat.EnvelopeFormat | src/protocol.rs:26-31 | which name holds which field of the envelope |
| WireFormat.MetadataFormat | src/dispatch_auth.rs:205-210 | which name holds which of the four signed metadata |
| WireFormat.PayloadText | src/dispatch_auth.rs:199-214 | the signed text itself: the sorted dispatch, then the metadata in the order of their names, without the signature |
| PayloadBinding.NestedSameIff | src/protocol.rs:90-121 | the serialised nested instruction determines all of its 29 fields |
| PayloadBinding.DispatchSameIff | src/protocol.rs:147-159 | the serialised dispatch determines every field, the free-form input up to key order, and whether the nested instruction is present |
| PayloadBinding.MetadataSameIff | src/dispatch_auth.rs:205-210 | the signed metadata are algorithm, expiry, key identifier and signing time, and not the signature |
| PayloadBinding.PayloadIsExact | src/dispatch_auth.rs:199-214 | the bytes signed are equal if and only if the instructions agree in everything but the key order of the free-form input and the signature text |
| DispatchAuth.FirstBlank | src/dispatch_auth.rs:236-242 | no field is reported if and only if none is blank |
| DispatchAuth.FirstBlankIsFirst | src/dispatch_auth.rs:236-240 | the field reported is the first blank one in the fixed order |
| DispatchAuth.ValidateRequiredDispatchFields | src/dispatch_auth.rs:216-243 | the loop reports the first blank required field |
| DispatchChecks.RequiredFieldsPassIff | src/dispatch_auth.rs:216-243 | the check passes if and only if each of the eight fields holds a character that is not white space |
| DispatchChecks.MissingFieldIsNamed | src/dispatch_auth.rs:219-240 | the first of the eight fields without one is reported under its name |
| DispatchAuth.InMemoryDispatchReplayCache.HasSeen | src/dispatch_auth.rs:107-109 | tells membership |
| DispatchAuth.InMemoryDispatchReplayCache.Record | src/dispatch_auth.rs:111-113 | adds the key and nothing else |
| DispatchAuth.VerifyDispatchInstruction | src/dispatch_auth.rs:140-197 | verdict and cache of one verification; every failure leaves the cache alone |
| DispatchChecks.FirstFailingCheckDecides | src/dispatch_auth.rs:147-188 | nine checks in a fixed order; acceptance needs them all and the first that fails decides the error |
| DispatchChecks.CheckedIsAdmissible | src/dispatch_auth.rs:149-188 | what passes every check has an identity without blank parts |
| DispatchAuth.SignDispatchInstruction | src/dispatch_auth.rs:116-138 | a signed instruction, or the first blank required field |
| DispatchChecks.SignedIsAcceptedIff | src/dispatch_auth.rs:116-188 | what is signed is the dispatch given, and it is accepted if and only if it is well formed, for its own runner, before the expiry given and, under a retired key, inside its window for the signing time given |
| DispatchRuns.AcceptedBeforeDeadline | src/dispatch_auth.rs:147-188 | for a genuine instruction the accepting times are exactly those before expiry and, for a retired key, through its window; the saturating test agrees with unbounded arithmetic |
| DispatchRuns.AcceptedEarlier | src/dispatch_auth.rs:157-174 | the accepting times are downward closed |
| DispatchRuns.CacheIsAcceptedKeys | src/dispatch_auth.rs:190-194 | over every run the cache is its initial keys plus those of accepted instructions |
| DispatchRuns.NoIdentityIsAcceptedTwice | src/dispatch_auth.rs:190-194 | no two accepted instructions share runner, job and idempotency key, whichever keys signed them and whenever they came |
| DispatchRuns.FailingCallsAreStutter | src/dispatch_auth.rs:140-197 | dropping any failing calls from a run leaves every other result and the final cache unchanged |
| DispatchRuns.SignedPassesCheck | src/dispatch_auth.rs:116-188 | what is signed passes every check before its expiry, with the matching active key registered last |
| DispatchRuns.SignThenVerify | src/dispatch_auth.rs:116-197 | what is signed verifies until it expires, once; afterwards it is a replay |
| DispatchRuns.SignatureCoversInstruction | src/dispatch_auth.rs:147-188 | a moved signature passes for the same instruction in another key order exactly for its own runner and before its deadline, under active and retired keys; passing for any other instruction, for any runner, exhibits a forgery |
| DispatchRuns.ReplayedIffSameIdentity | src/dispatch_auth.rs:190-194 | from an empty cache, an instruction separable from those accepted before is a replay if and only if it passes every check and its own identity was accepted |
| DispatchRuns.SharedKeyIsRefused | src/dispatch_auth.rs:190-194 | of two genuine dispatches with one replay key, the second is refused as a replay of the first |
| DispatchRuns.DifferentDispatchIsRefused | src/dispatch_auth.rs:190-250 | job "b:c" with key "d" makes job "b" with key "c:d" of the same runner a replay, though it was never seen |
| Labels.ReplayKeysSeparate | src/dispatch_auth.rs:245-250 | replay keys separate identities whose jobs contain no colon and whose runners are equal or contain none |
| Labels.PartsOfKey | src/dispatch_auth.rs:245-250 | runner, job and idempotency key are cut out of the key at its two separating colons |
| Labels.ReplayKeyIsOwnedIff | src/dispatch_auth.rs:216-250 | an identity that passes the field check owns its replay key if and only if no other two colons cut the key into parts that are not blank |
| Labels.OneRunnerKeysAgreeIff | src/dispatch_auth.rs:245-250 | for one runner, keys agree if and only if job and idempotency key agree as joined |
| Labels.OneRunnerKeyIsOwnedIff | src/dispatch_auth.rs:216-250 | among the identities of one runner, an identity owns its key if and only if no other colon cuts job and key into parts that are not blank |
| Labels.TrailingColonIsHarmless | src/dispatch_auth.rs:216-250 | an identity that contains a colon and still owns its key |
| Labels.SplitIsUniqueIff | src/isolation.rs:78-82 | a separator splits a text in one way only if and only if it occurs once |
| Labels.LabelParts | src/isolation.rs:78-82 | where each part of the workspace and artifact labels stands |
| Labels.WorkspaceLabelIsUnambiguousIff | src/isolation.rs:78-81 | a job and workspace own their label if and only if the separator occurs once |
| Labels.WorkspaceLabelsCanCollide | src/isolation.rs:78-81 | two jobs, each with its own workspace, that are given the same workspace root |
| Labels.SlashFreeJobsAreSeparate | src/isolation.rs:78-82 | jobs without a slash in their identifiers share no workspace root, and none with an artifact root |
| Labels.ArtifactLabelsSeparate | src/isolation.rs:82 | artifact roots separate all jobs |

## Left out

- OperatorDiagnostics.OperatorDiagnostics: the capability inventory is an argument, because the source probes the host for it; it does not read the configured credential (`src/capabilities.rs:69-127`).
- Ed25519 and base64 themselves: library code, present as functions with their laws as hypotheses.
- The choice of digits for numbers that are not whole: such a number is kept as the text it is printed with.
- How `serde` parses a dispatch, and failure of the JSON printer, which cannot occur for values with string keys.
- The insertion order of `serde_json` objects: its map is already sorted, while objects here may list keys in any order, so the theorems about sorting cover more than the code needs.
- The tables of adapter names, job phases and gates (`src/job.rs`, `src/adapters.rs`, `src/gates.rs`): finite lists without state.
- `JobIsolationPlan::owns`, `assert_cleanup_safe` and the filter on environment names: each is settled by one branch.
- `src/daemon.rs`, `src/main.rs`, `src/config.rs`: command line, files and process handling.
- Replay caches other than the in-memory one.
