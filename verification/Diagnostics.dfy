/** Redaction by key (`src/diagnostics.rs`): whatever stands under a sensitive key is overwritten. */
module Diagnostics {
  import opened Json

  const SENSITIVE_KEYS: seq<string> := [
    "token", "secret", "password", "passwd", "api_key", "apikey", "private_key",
    "credential", "credentials", "credential_ref", "scoped_credential_ref"
  ]
  const SENSITIVE_SUFFIXES: seq<string> := ["_token", "_secret", "_password", "_api_key"]

  function ToAsciiLowercase(s: string): (r: string)
    ensures |r| == |s|
  {
    seq(|s|, i requires 0 <= i < |s| => if 'A' <= s[i] <= 'Z' then (s[i] as int + 32) as char else s[i])
  }

  predicate EndsWith(s: string, suffix: string) {
    |suffix| <= |s| && s[|s| - |suffix|..] == suffix
  }

  predicate IsSensitiveKey(key: string) {
    var normalized := ToAsciiLowercase(key);
    normalized in SENSITIVE_KEYS || exists k :: 0 <= k < |SENSITIVE_SUFFIXES| && EndsWith(normalized, SENSITIVE_SUFFIXES[k])
  }

  function Placeholder(key: string): Json {
    String("[REDACTED:" + key + "]")
  }

  function RedactKeys(v: Json): Json {
    match v
    case Object(entries) =>
      Object(seq(|entries|, i requires 0 <= i < |entries| =>
        Entry(entries[i].key, if IsSensitiveKey(entries[i].key) then Placeholder(entries[i].key) else RedactKeys(entries[i].value))))
    case Array(items) => Array(seq(|items|, i requires 0 <= i < |items| => RedactKeys(items[i])))
    case _ => v
  }

  /** Overwrites the children of `value` one after the other. */
  method RedactSensitiveValues(value: Json) returns (r: Json)
    ensures r == RedactKeys(value)
    decreases value
  {
    hide IsSensitiveKey;
    match value {
      case Object(entries) =>
        var done := entries;
        for i := 0 to |entries|
          invariant |done| == |entries|
          invariant forall j :: 0 <= j < i ==> done[j] == RedactKeys(value).entries[j]
          invariant forall j :: i <= j < |entries| ==> done[j] == entries[j]
        {
          var key := entries[i].key;
          if IsSensitiveKey(key) {
            done := done[i := Entry(key, String("[REDACTED:" + key + "]"))];
          } else {
            var child := RedactSensitiveValues(entries[i].value);
            done := done[i := Entry(key, child)];
          }
        }
        r := Object(done);
        assert RedactKeys(value).entries == done;
      case Array(items) =>
        var done := items;
        for i := 0 to |items|
          invariant |done| == |items|
          invariant forall j :: 0 <= j < i ==> done[j] == RedactKeys(items[j])
          invariant forall j :: i <= j < |items| ==> done[j] == items[j]
        {
          var item := RedactSensitiveValues(items[i]);
          done := done[i := item];
        }
        r := Array(done);
        assert RedactKeys(value).items == done;
      case _ =>
        r := value;
    }
  }

  // ----- What an observer without access below sensitive keys can see -----

  datatype Observation = Absent | Hidden | Leaf(v: Json) | ArrayOf(length: nat) | ObjectOf(keys: seq<string>)

  /** What is visible at the end of `path`; a path that passes a sensitive key sees nothing further. */
  function Observe(v: Json, path: seq<nat>): Observation
    decreases path
  {
    if path == [] then
      match v
      case Array(items) => ArrayOf(|items|)
      case Object(entries) => ObjectOf(Keys(entries))
      case _ => Leaf(v)
    else
      match v
      case Array(items) => if path[0] < |items| then Observe(items[path[0]], path[1..]) else Absent
      case Object(entries) =>
        if path[0] >= |entries| then Absent
        else if IsSensitiveKey(entries[path[0]].key) then Hidden
        else Observe(entries[path[0]].value, path[1..])
      case _ => Absent
  }

  ghost predicate LooksLike(a: Json, b: Json) {
    forall path :: Observe(a, path) == Observe(b, path)
  }

  /** Redaction removes nothing that is visible. */
  lemma {:induction false} RedactKeysLooksLikeAt(v: Json, path: seq<nat>)
    ensures Observe(RedactKeys(v), path) == Observe(v, path)
    decreases path
  {
    hide IsSensitiveKey;
    match v {
      case Array(items) =>
        if path != [] && path[0] < |items| {
          RedactKeysLooksLikeAt(items[path[0]], path[1..]);
        }
      case Object(entries) =>
        if path == [] {
          assert Keys(RedactKeys(v).entries) == Keys(entries);
        } else if path[0] < |entries| && !IsSensitiveKey(entries[path[0]].key) {
          RedactKeysLooksLikeAt(entries[path[0]].value, path[1..]);
        }
      case _ =>
    }
  }

  /** Trees that look alike redact to the same tree. */
  lemma {:induction false} LookalikesRedactAlike(a: Json, b: Json)
    requires LooksLike(a, b)
    ensures RedactKeys(a) == RedactKeys(b)
  {
    hide IsSensitiveKey;
    assert Observe(a, []) == Observe(b, []);
    match a {
      case Array(items) =>
        forall i | 0 <= i < |items| ensures RedactKeys(items[i]) == RedactKeys(b.items[i]) {
          forall path ensures Observe(items[i], path) == Observe(b.items[i], path) {
            assert ([i] + path)[1..] == path;
            assert Observe(a, [i] + path) == Observe(b, [i] + path);
          }
          LookalikesRedactAlike(items[i], b.items[i]);
        }
        assert RedactKeys(a).items == RedactKeys(b).items;
      case Object(entries) =>
        assert Keys(entries) == Keys(b.entries);
        forall i | 0 <= i < |entries| ensures RedactKeys(a).entries[i] == RedactKeys(b).entries[i] {
          var x, y := entries[i], b.entries[i];
          assert Keys(entries)[i] == x.key == y.key;
          if !IsSensitiveKey(x.key) {
            forall path ensures Observe(x.value, path) == Observe(y.value, path) {
              assert ([i] + path)[1..] == path;
              assert Observe(a, [i] + path) == Observe(b, [i] + path);
            }
            LookalikesRedactAlike(x.value, y.value);
          }
        }
        assert RedactKeys(a).entries == RedactKeys(b).entries;
      case _ =>
    }
  }

  /** Exact non-interference: two trees redact to the same tree exactly when no visible path tells them apart. */
  lemma RedactKeysNonInterference(a: Json, b: Json)
    ensures RedactKeys(a) == RedactKeys(b) <==> LooksLike(a, b)
  {
    hide RedactKeys, Observe;
    if RedactKeys(a) == RedactKeys(b) {
      forall path ensures Observe(a, path) == Observe(b, path) {
        RedactKeysLooksLikeAt(a, path);
        RedactKeysLooksLikeAt(b, path);
      }
    }
    if LooksLike(a, b) {
      LookalikesRedactAlike(a, b);
    }
  }

  /** The result is the one representative that all trees looking like `v` share. */
  lemma RedactKeysIsCanonical(v: Json)
    ensures LooksLike(RedactKeys(v), v)
    ensures RedactKeys(RedactKeys(v)) == RedactKeys(v)
  {
    hide RedactKeys, Observe;
    forall path ensures Observe(RedactKeys(v), path) == Observe(v, path) {
      RedactKeysLooksLikeAt(v, path);
    }
    LookalikesRedactAlike(RedactKeys(v), v);
  }
}
