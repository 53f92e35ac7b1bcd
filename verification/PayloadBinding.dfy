/** The signing payload binds every field of the instruction except the signature bytes. */
module PayloadBinding {
  import opened Canonical
  import opened Dispatch
  import opened Json
  import opened JsonReader
  import opened Printer
  import opened Utf8

  predicate Distinct(names: seq<string>) {
    forall i, j :: 0 <= i < j < |names| ==> names[i] != names[j]
  }

  lemma FieldNamesAreDistinct()
    ensures Distinct(NetworkFields()) && Distinct(WorkspaceFields()) && Distinct(PolicyFields())
    ensures Distinct(EnvelopeFields()) && Distinct(MetadataFields()) && Distinct(DocumentFields())
  {
  }

  /** The names at positions `lo` to `hi` differ from all later ones. */
  predicate DistinctBetween(names: seq<string>, lo: nat, hi: nat) {
    forall i, j :: lo <= i < hi && i < j < |names| ==> names[i] != names[j]
  }

  lemma FirstNestedNamesAreDistinct()
    ensures DistinctBetween(NestedFields(), 0, 4)
  {
  }

  lemma SecondNestedNamesAreDistinct()
    ensures DistinctBetween(NestedFields(), 4, 9)
  {
  }

  lemma ThirdNestedNamesAreDistinct()
    ensures DistinctBetween(NestedFields(), 9, 15)
  {
  }

  lemma LastNestedNamesAreDistinct()
    ensures DistinctBetween(NestedFields(), 15, 29)
  {
  }

  lemma NestedFieldNamesAreDistinct()
    ensures Distinct(NestedFields())
  {
    hide NestedFields;
    FirstNestedNamesAreDistinct();
    SecondNestedNamesAreDistinct();
    ThirdNestedNamesAreDistinct();
    LastNestedNamesAreDistinct();
  }

  lemma DispatchFieldNamesAreDistinct(nested: bool)
    ensures Distinct(DispatchFields(nested))
  {
  }

  /** Two records of one kind are the same exactly when their values are, field by field. */
  lemma RecordsSameIff(names: seq<string>, x: seq<Json>, y: seq<Json>)
    requires Distinct(names) && |names| == |x| == |y|
    ensures SameUpToKeyOrder(Record(names, x), Record(names, y)) <==> forall i :: 0 <= i < |x| ==> SameUpToKeyOrder(x[i], y[i])
    ensures WellFormed(Record(names, x)) <==> forall i :: 0 <= i < |x| ==> WellFormed(x[i])
  {
    hide Record, SameUpToKeyOrder, WellFormed, Distinct;
    RecordIsWellFormedIff(names, x);
    if SameUpToKeyOrder(Record(names, x), Record(names, y)) {
      forall i | 0 <= i < |x| ensures SameUpToKeyOrder(x[i], y[i]) {
        SameRecordsSameField(names, x, y, i);
      }
    }
    if forall i :: 0 <= i < |x| ==> SameUpToKeyOrder(x[i], y[i]) {
      SameFieldsSameRecord(names, x, y);
    }
  }

  lemma SameRecordsSameField(names: seq<string>, x: seq<Json>, y: seq<Json>, i: nat)
    requires Distinct(names) && |names| == |x| == |y| && i < |x|
    requires SameUpToKeyOrder(Record(names, x), Record(names, y))
    ensures SameUpToKeyOrder(x[i], y[i])
  {
    var r, s := Record(names, x).entries, Record(names, y).entries;
    assert HasTwin(r[i], s);
    var j :| 0 <= j < |s| && r[i].key == s[j].key && SameUpToKeyOrder(r[i].value, s[j].value);
    assert names[i] == names[j];
  }

  lemma SameFieldsSameRecord(names: seq<string>, x: seq<Json>, y: seq<Json>)
    requires |names| == |x| == |y|
    requires forall i :: 0 <= i < |x| ==> SameUpToKeyOrder(x[i], y[i])
    ensures SameUpToKeyOrder(Record(names, x), Record(names, y))
  {
    var r, s := Record(names, x).entries, Record(names, y).entries;
    forall i | 0 <= i < |r| ensures HasTwin(r[i], s) {
      assert r[i].key == s[i].key && r[i].value == x[i] && s[i].value == y[i];
    }
  }

  lemma RecordIsWellFormedIff(names: seq<string>, x: seq<Json>)
    requires Distinct(names) && |names| == |x|
    ensures WellFormed(Record(names, x)) <==> forall i :: 0 <= i < |x| ==> WellFormed(x[i])
  {
    var r := Record(names, x).entries;
    assert UniqueKeys(r);
    assert forall i :: 0 <= i < |x| ==> r[i].value == x[i];
    if WellFormed(Object(r)) {
      forall i | 0 <= i < |x| ensures WellFormed(x[i]) {
        assert WellFormed(r[i].value);
      }
    }
  }

  lemma RecordsOfDifferentSize(names: seq<string>, x: seq<Json>, others: seq<string>, y: seq<Json>)
    requires |names| == |x| && |others| == |y| && |x| != |y|
    ensures !SameUpToKeyOrder(Record(names, x), Record(others, y))
  {
  }

  lemma LeavesSameIff(a: Json, b: Json)
    requires !a.Array? && !a.Object?
    ensures WellFormed(a) && (SameUpToKeyOrder(a, b) <==> a == b)
  {
  }

  lemma StringsSameIff(a: seq<string>, b: seq<string>)
    ensures WellFormed(StringsJson(a)) && (SameUpToKeyOrder(StringsJson(a), StringsJson(b)) <==> a == b)
  {
    var x, y := StringsJson(a), StringsJson(b);
    if SameUpToKeyOrder(x, y) {
      forall i | 0 <= i < |a| ensures a[i] == b[i] {
        assert SameUpToKeyOrder(x.items[i], y.items[i]);
      }
    }
  }

  lemma NetworkSameIff(a: NetworkPolicy, b: NetworkPolicy)
    ensures WellFormed(NetworkJson(a)) && (SameUpToKeyOrder(NetworkJson(a), NetworkJson(b)) <==> a == b)
  {
    hide StringsJson, NetworkFields, Record, SameUpToKeyOrder, WellFormed, Distinct;
    FieldNamesAreDistinct();
    var x, y := [String(a.mode), StringsJson(a.allowedTargets)], [String(b.mode), StringsJson(b.allowedTargets)];
    RecordsSameIff(NetworkFields(), x, y);
    LeavesSameIff(x[0], y[0]);
    StringsSameIff(a.allowedTargets, b.allowedTargets);
    assert SameUpToKeyOrder(x[1], y[1]) <==> a.allowedTargets == b.allowedTargets;
  }

  lemma WorkspaceSameIff(a: WorkspacePolicy, b: WorkspacePolicy)
    ensures WellFormed(WorkspaceJson(a)) && (SameUpToKeyOrder(WorkspaceJson(a), WorkspaceJson(b)) <==> a == b)
  {
    hide StringsJson, WorkspaceFields, Record, SameUpToKeyOrder, WellFormed, Distinct;
    FieldNamesAreDistinct();
    var x := [String(a.workspaceId), String(a.rootStrategy), StringsJson(a.allowedEnv),
              OptionJson(a.scopedCredentialRef), StringsJson(a.artifactPathAllowlist)];
    var y := [String(b.workspaceId), String(b.rootStrategy), StringsJson(b.allowedEnv),
              OptionJson(b.scopedCredentialRef), StringsJson(b.artifactPathAllowlist)];
    RecordsSameIff(WorkspaceFields(), x, y);
    LeavesSameIff(x[0], y[0]);
    LeavesSameIff(x[1], y[1]);
    StringsSameIff(a.allowedEnv, b.allowedEnv);
    LeavesSameIff(x[3], y[3]);
    StringsSameIff(a.artifactPathAllowlist, b.artifactPathAllowlist);
    assert SameUpToKeyOrder(x[2], y[2]) <==> a.allowedEnv == b.allowedEnv;
    assert SameUpToKeyOrder(x[4], y[4]) <==> a.artifactPathAllowlist == b.artifactPathAllowlist;
  }

  lemma PolicySameIff(a: PolicySnapshot, b: PolicySnapshot)
    ensures WellFormed(PolicyJson(a)) && (SameUpToKeyOrder(PolicyJson(a), PolicyJson(b)) <==> a == b)
  {
    hide StringsJson, WorkspaceJson, NetworkJson, PolicyFields, Record, SameUpToKeyOrder, WellFormed, Distinct;
    FieldNamesAreDistinct();
    var x := [String(a.policyVersion), String(a.workingGroupId), StringsJson(a.allowedCapabilities),
              StringsJson(a.riskyActions), WorkspaceJson(a.workspace), NetworkJson(a.network)];
    var y := [String(b.policyVersion), String(b.workingGroupId), StringsJson(b.allowedCapabilities),
              StringsJson(b.riskyActions), WorkspaceJson(b.workspace), NetworkJson(b.network)];
    RecordsSameIff(PolicyFields(), x, y);
    LeavesSameIff(x[0], y[0]);
    LeavesSameIff(x[1], y[1]);
    StringsSameIff(a.allowedCapabilities, b.allowedCapabilities);
    StringsSameIff(a.riskyActions, b.riskyActions);
    WorkspaceSameIff(a.workspace, b.workspace);
    NetworkSameIff(a.network, b.network);
    assert SameUpToKeyOrder(x[2], y[2]) <==> a.allowedCapabilities == b.allowedCapabilities;
    assert SameUpToKeyOrder(x[3], y[3]) <==> a.riskyActions == b.riskyActions;
    assert SameUpToKeyOrder(x[4], y[4]) <==> a.workspace == b.workspace;
    assert SameUpToKeyOrder(x[5], y[5]) <==> a.network == b.network;
  }

  /** A value without objects has no keys whose order could differ. */
  predicate WithoutObjects(v: Json) {
    match v
    case Array(items) => forall i :: 0 <= i < |items| ==> WithoutObjects(items[i])
    case Object(_) => false
    case _ => true
  }

  lemma {:induction false} WithoutObjectsSameIff(a: Json, b: Json)
    requires WithoutObjects(a)
    ensures WellFormed(a) && (SameUpToKeyOrder(a, b) <==> a == b)
  {
    match a {
      case Array(items) =>
        forall i | 0 <= i < |items| ensures WellFormed(items[i]) {
          WithoutObjectsSameIff(items[i], items[i]);
        }
        if b.Array? && |items| == |b.items| {
          forall i | 0 <= i < |items| ensures SameUpToKeyOrder(items[i], b.items[i]) <==> items[i] == b.items[i] {
            WithoutObjectsSameIff(items[i], b.items[i]);
          }
        }
      case _ =>
    }
  }

  lemma StringsAreFlat(ss: seq<string>)
    ensures WithoutObjects(StringsJson(ss))
  {
    forall i | 0 <= i < |ss| ensures WithoutObjects(StringsJson(ss).items[i]) {
    }
  }

  lemma StringsJsonIsInjective(a: seq<string>, b: seq<string>)
    requires StringsJson(a) == StringsJson(b)
    ensures a == b
  {
    forall i | 0 <= i < |a| ensures a[i] == b[i] {
      assert StringsJson(a).items[i] == StringsJson(b).items[i];
    }
  }

  /** Every value of the nested instruction but its network policy is free of objects. */
  lemma NestedValuesAreFlat(n: NestedInstruction)
    ensures forall i :: 0 <= i < 29 && i != 18 ==> WithoutObjects(NestedValues(n)[i])
    ensures NestedValues(n)[18] == NetworkJson(n.network)
  {
    hide NetworkJson, StringsJson;
    StringsAreFlat(n.inputRefs);
    StringsAreFlat(n.artifactAllowlist);
  }

  /** The values determine the nested instruction. */
  lemma NestedValuesDetermine(a: NestedInstruction, b: NestedInstruction)
    requires forall i :: 0 <= i < 29 && i != 18 ==> NestedValues(a)[i] == NestedValues(b)[i]
    requires a.network == b.network
    ensures a == b
  {
    hide NetworkJson, StringsJson;
    var x, y := NestedValues(a), NestedValues(b);
    assert x[13] == y[13] && x[14] == y[14];
    StringsJsonIsInjective(a.inputRefs, b.inputRefs);
    StringsJsonIsInjective(a.artifactAllowlist, b.artifactAllowlist);
    assert x[0] == y[0] && x[1] == y[1] && x[2] == y[2] && x[3] == y[3] && x[4] == y[4] && x[5] == y[5];
    assert x[6] == y[6] && x[7] == y[7] && x[8] == y[8] && x[9] == y[9] && x[10] == y[10] && x[11] == y[11];
    assert x[12] == y[12] && x[15] == y[15] && x[16] == y[16] && x[17] == y[17];
    assert x[19] == y[19] && x[20] == y[20] && x[21] == y[21] && x[22] == y[22] && x[23] == y[23];
    assert x[24] == y[24] && x[25] == y[25] && x[26] == y[26] && x[27] == y[27] && x[28] == y[28];
  }

  lemma NestedSameIff(a: NestedInstruction, b: NestedInstruction)
    ensures WellFormed(NestedJson(a)) && (SameUpToKeyOrder(NestedJson(a), NestedJson(b)) <==> a == b)
  {
    hide NestedFields, NestedValues, NetworkJson, Record, SameUpToKeyOrder, WellFormed, Distinct, WithoutObjects;
    var x, y := NestedValues(a), NestedValues(b);
    NestedFieldNamesAreDistinct();
    NestedValuesAreFlat(a);
    NestedValuesAreFlat(b);
    NetworkSameIff(a.network, b.network);
    forall i | 0 <= i < 29 && i != 18 ensures WellFormed(x[i]) && (SameUpToKeyOrder(x[i], y[i]) <==> x[i] == y[i]) {
      WithoutObjectsSameIff(x[i], y[i]);
    }
    assert SameUpToKeyOrder(x[18], y[18]) <==> a.network == b.network;
    RecordsSameIff(NestedFields(), x, y);
    if SameUpToKeyOrder(NestedJson(a), NestedJson(b)) {
      NestedValuesDetermine(a, b);
    }
  }

  /** The fields of a dispatch that are always written, except the free-form input. */
  lemma FixedFieldsSameIff(a: JobDispatch, b: JobDispatch)
    ensures var x, y := DispatchValues(a), DispatchValues(b);
            (forall i :: 0 <= i < 9 && i != 6 ==> SameUpToKeyOrder(x[i], y[i]))
            <==> a.(input := b.input, signedInstruction := b.signedInstruction) == b
    ensures forall i :: 0 <= i < 9 && i != 6 ==> WellFormed(DispatchValues(a)[i])
  {
    hide PolicyJson, NestedJson, SameUpToKeyOrder, WellFormed;
    var x, y := DispatchValues(a), DispatchValues(b);
    LeavesSameIff(x[0], y[0]);
    LeavesSameIff(x[1], y[1]);
    LeavesSameIff(x[2], y[2]);
    LeavesSameIff(x[3], y[3]);
    LeavesSameIff(x[4], y[4]);
    LeavesSameIff(x[5], y[5]);
    LeavesSameIff(x[7], y[7]);
    PolicySameIff(a.policy, b.policy);
    assert x[8] == PolicyJson(a.policy) && y[8] == PolicyJson(b.policy);
    assert SameUpToKeyOrder(x[8], y[8]) <==> a.policy == b.policy;
  }

  lemma DispatchSameIff(a: JobDispatch, b: JobDispatch)
    requires Parsed(a) && Parsed(b)
    ensures WellFormed(DispatchJson(a)) && (SameUpToKeyOrder(DispatchJson(a), DispatchJson(b)) <==> SameDispatch(a, b))
  {
    hide DispatchValues, DispatchFields, NestedJson, Record, SameUpToKeyOrder, WellFormed, Distinct;
    var nested := a.signedInstruction.Some?;
    var x, y := DispatchValues(a), DispatchValues(b);
    DispatchFieldNamesAreDistinct(nested);
    ChangingFields(a);
    ChangingFields(b);
    FixedFieldsSameIff(a, b);
    if nested {
      NestedSameIff(a.signedInstruction.value, a.signedInstruction.value);
    }
    RecordsSameIff(DispatchFields(nested), x, x);
    if |x| == |y| {
      RecordsSameIff(DispatchFields(nested), x, y);
      if nested {
        NestedSameIff(a.signedInstruction.value, b.signedInstruction.value);
        assert SameUpToKeyOrder(x[9], y[9]) <==> a.signedInstruction == b.signedInstruction;
      }
    } else {
      RecordsOfDifferentSize(DispatchFields(nested), x, DispatchFields(!nested), y);
    }
  }

  lemma ChangingFields(d: JobDispatch)
    ensures DispatchValues(d)[6] == d.input
    ensures d.signedInstruction.Some? ==> DispatchValues(d)[9] == NestedJson(d.signedInstruction.value)
  {
    hide NestedJson, PolicyJson;
  }

  lemma MetadataSameIff(a: DispatchSignature, b: DispatchSignature)
    ensures WellFormed(MetadataJson(a))
    ensures SameUpToKeyOrder(MetadataJson(a), MetadataJson(b)) <==> a.(signatureBase64 := b.signatureBase64) == b
  {
    hide MetadataFields, Record, SameUpToKeyOrder, WellFormed, Distinct;
    FieldNamesAreDistinct();
    var x := [String(a.algorithm), Number(Whole(a.expiresAt)), String(a.keyId), Number(Whole(a.signedAt))];
    var y := [String(b.algorithm), Number(Whole(b.expiresAt)), String(b.keyId), Number(Whole(b.signedAt))];
    RecordsSameIff(MetadataFields(), x, y);
    LeavesSameIff(x[0], y[0]);
    LeavesSameIff(x[1], y[1]);
    LeavesSameIff(x[2], y[2]);
    LeavesSameIff(x[3], y[3]);
  }

  lemma EnvelopeSameIff(a: Envelope, b: Envelope)
    requires Parsed(a.payload) && Parsed(b.payload)
    ensures WellFormed(EnvelopeJson(a))
    ensures SameUpToKeyOrder(EnvelopeJson(a), EnvelopeJson(b))
            <==> a.(payload := b.payload) == b && SameDispatch(a.payload, b.payload)
  {
    hide EnvelopeFields, DispatchJson, SameDispatch, Parsed, Record, SameUpToKeyOrder, WellFormed, Distinct;
    FieldNamesAreDistinct();
    var x := [String(a.protocolVersion), String(a.messageType), DispatchJson(a.payload)];
    var y := [String(b.protocolVersion), String(b.messageType), DispatchJson(b.payload)];
    RecordsSameIff(EnvelopeFields(), x, y);
    LeavesSameIff(x[0], y[0]);
    LeavesSameIff(x[1], y[1]);
    DispatchSameIff(a.payload, b.payload);
    assert SameUpToKeyOrder(x[2], y[2]) <==> SameDispatch(a.payload, b.payload);
  }

  /** The document that is sorted and printed before signing. */
  lemma DocumentSameIff(a: Instruction, b: Instruction)
    requires Parsed(a.dispatch.payload) && Parsed(b.dispatch.payload)
    ensures WellFormed(SigningDocument(a.dispatch, a.signature))
    ensures SameUpToKeyOrder(SigningDocument(a.dispatch, a.signature), SigningDocument(b.dispatch, b.signature))
            <==> SameInstruction(a, b)
  {
    hide DocumentFields, EnvelopeJson, MetadataJson, SameDispatch, Parsed, Record, SameUpToKeyOrder, WellFormed, Distinct;
    FieldNamesAreDistinct();
    var x, y := [EnvelopeJson(a.dispatch), MetadataJson(a.signature)], [EnvelopeJson(b.dispatch), MetadataJson(b.signature)];
    RecordsSameIff(DocumentFields(), x, y);
    EnvelopeSameIff(a.dispatch, b.dispatch);
    MetadataSameIff(a.signature, b.signature);
    assert SameUpToKeyOrder(x[0], y[0]) <==> SameUpToKeyOrder(EnvelopeJson(a.dispatch), EnvelopeJson(b.dispatch));
    assert SameUpToKeyOrder(x[1], y[1]) <==> SameUpToKeyOrder(MetadataJson(a.signature), MetadataJson(b.signature));
  }

  /**
   The payload binds every field: equal bytes mean equal instructions, but for key order in the
   free-form input and the signature text.
   */
  lemma PayloadIsExact(a: Instruction, b: Instruction)
    requires Parsed(a.dispatch.payload) && Parsed(b.dispatch.payload)
    ensures PayloadBytes(a.dispatch, a.signature) == PayloadBytes(b.dispatch, b.signature) <==> SameInstruction(a, b)
  {
    hide SigningDocument, SameInstruction, SameUpToKeyOrder, WellFormed, SortJson, Print, Parsed, Encode;
    var x, y := SigningDocument(a.dispatch, a.signature), SigningDocument(b.dispatch, b.signature);
    DocumentSameIff(a, b);
    DocumentSameIff(b, a);
    SortJsonIsExact(x, y);
    if PayloadBytes(a.dispatch, a.signature) == PayloadBytes(b.dispatch, b.signature) {
      EncodeIsInjective(Print(SortJson(x)), Print(SortJson(y)));
      PrintReadsBack(SortJson(x), SortJson(y), "", "");
    }
  }
}
