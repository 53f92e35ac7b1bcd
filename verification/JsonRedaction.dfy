/** Redaction of secret shapes in every string leaf of a JSON tree (`src/isolation.rs`, `redact_json_value`). */
module JsonRedaction {
  import opened Json
  import opened Redaction
  import opened Redactor
  import opened SecretShapes
  import opened Wrappers

  /** The tree with every string leaf redacted; keys, shape and the other leaves stay. */
  ghost function RedactJson(v: Json): Json {
    match v
    case String(s) => String(Redact(s))
    case Array(items) => Array(seq(|items|, i requires 0 <= i < |items| => RedactJson(items[i])))
    case Object(entries) =>
      Object(seq(|entries|, i requires 0 <= i < |entries| => Entry(entries[i].key, RedactJson(entries[i].value))))
    case _ => v
  }

  /** Rewrites the children of `value` one after the other. */
  method RedactJsonValue(value: Json) returns (r: Json)
    ensures r == RedactJson(value)
    decreases value
  {
    hide Redact, HasSecret;
    match value {
      case String(raw) =>
        var redacted, _ := RedactSecretShapedValues(raw);
        r := String(redacted);
      case Array(items) =>
        var done := items;
        for i := 0 to |items|
          invariant |done| == |items|
          invariant forall j :: 0 <= j < i ==> done[j] == RedactJson(items[j])
          invariant forall j :: i <= j < |items| ==> done[j] == items[j]
        {
          var item := RedactJsonValue(items[i]);
          done := done[i := item];
        }
        r := Array(done);
        assert RedactJson(value).items == done;
      case Object(entries) =>
        var done := entries;
        for i := 0 to |entries|
          invariant |done| == |entries|
          invariant forall j :: 0 <= j < i ==> done[j] == Entry(entries[j].key, RedactJson(entries[j].value))
          invariant forall j :: i <= j < |entries| ==> done[j] == entries[j]
        {
          var item := RedactJsonValue(entries[i].value);
          done := done[i := Entry(entries[i].key, item)];
        }
        r := Object(done);
        assert RedactJson(value).entries == done;
      case _ =>
        r := value;
    }
  }

  /** Redaction acts on each subtree in its own place. */
  lemma {:induction false} RedactJsonAt(v: Json, path: seq<nat>)
    ensures At(RedactJson(v), path) == match At(v, path) case Some(u) => Some(RedactJson(u)) case None => None
    decreases path
  {
    hide Redact;
    if path == [] {
    } else {
      match v {
        case Array(items) => if path[0] < |items| { RedactJsonAt(items[path[0]], path[1..]); }
        case Object(entries) => if path[0] < |entries| { RedactJsonAt(entries[path[0]].value, path[1..]); }
        case _ =>
      }
    }
  }

  /** On every path the redacted tree has the same node: length, keys and leaf, but for the text of a string. */
  lemma RedactJsonKeepsShape(v: Json, path: seq<nat>)
    ensures match (At(v, path), At(RedactJson(v), path))
            case (None, r) => r.None?
            case (Some(String(s)), r) => r == Some(String(Redact(s)))
            case (Some(Array(items)), r) => r.Some? && r.value.Array? && |r.value.items| == |items|
            case (Some(Object(entries)), r) => r.Some? && r.value.Object? && Keys(r.value.entries) == Keys(entries)
            case (leaf, r) => r == leaf
  {
    hide Redact, At;
    RedactJsonAt(v, path);
    if At(v, path).Some? && At(v, path).value.Object? {
      assert Keys(RedactJson(At(v, path).value).entries) == Keys(At(v, path).value.entries);
    }
  }

  /** No string anywhere in the tree holds a secret shape. */
  ghost predicate SecretFree(v: Json) {
    forall path, s :: At(v, path) == Some(String(s)) ==> !HasSecret(s)
  }

  lemma RedactedJsonIsSecretFree(v: Json)
    ensures SecretFree(RedactJson(v))
  {
    hide Redact, HasSecret, At;
    forall path, s | At(RedactJson(v), path) == Some(String(s)) ensures !HasSecret(s) {
      RedactJsonAt(v, path);
      RedactedTextIsClean(At(v, path).value.s);
    }
  }

  /** Exactly the trees without secret shapes are left unchanged. */
  lemma RedactJsonKeepsIffSecretFree(v: Json)
    ensures RedactJson(v) == v <==> SecretFree(v)
    ensures RedactJson(RedactJson(v)) == RedactJson(v)
  {
    hide RedactJson, SecretFree;
    RedactedJsonIsSecretFree(v);
    SecretFreeIsKept(RedactJson(v));
    if SecretFree(v) {
      SecretFreeIsKept(v);
    }
  }

  lemma {:induction false} SecretFreeIsKept(v: Json)
    requires SecretFree(v)
    ensures RedactJson(v) == v
  {
    hide Redact, HasSecret;
    match v {
      case String(s) =>
        assert At(v, []) == Some(String(s));
        RedactWithoutSecret(s);
      case Array(items) =>
        forall i | 0 <= i < |items| ensures RedactJson(items[i]) == items[i] {
          forall path, s | At(items[i], path) == Some(String(s)) ensures !HasSecret(s) {
            assert At(v, [i] + path) == At(items[i], path);
          }
          SecretFreeIsKept(items[i]);
        }
        assert RedactJson(v).items == items;
      case Object(entries) =>
        forall i | 0 <= i < |entries| ensures RedactJson(entries[i].value) == entries[i].value {
          forall path, s | At(entries[i].value, path) == Some(String(s)) ensures !HasSecret(s) {
            assert At(v, [i] + path) == At(entries[i].value, path);
          }
          SecretFreeIsKept(entries[i].value);
        }
        assert RedactJson(v).entries == entries;
      case _ =>
    }
  }
}
