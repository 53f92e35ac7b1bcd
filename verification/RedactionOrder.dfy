/** How the two redactions of a JSON tree interact. */
module RedactionOrder {
  import opened Diagnostics
  import opened Json
  import opened JsonRedaction
  import opened Redaction
  import opened SecretShapes

  /** Every sensitive key that a visible path reaches is itself free of secret shapes. */
  ghost predicate VisibleSensitiveKeysClean(v: Json) {
    forall path, key :: Observe(v, path).ObjectOf? && key in Observe(v, path).keys && IsSensitiveKey(key) ==> !HasSecret(key)
  }

  /** The placeholder holds a secret shape exactly when the key it names does. */
  lemma PlaceholderKeptIffKeyClean(key: string)
    ensures RedactJson(Placeholder(key)) == Placeholder(key) <==> !HasSecret(key)
  {
    hide HasSecret, Redact;
    var text := "[REDACTED:" + key + "]";
    var tail := key + [']'] + "";
    var middle := "REDACTED" + [':'] + tail;
    EmptyIsClean();
    MarkerIsClean();
    HasSecretAcrossBarrier(key, ']', "");
    HasSecretAcrossBarrier("REDACTED", ':', tail);
    HasSecretAcrossBarrier("", '[', middle);
    assert text == "" + ['['] + middle;
    RedactChangesIffSecret(text);
  }

  lemma EmptyIsClean()
    ensures !HasSecret("")
  {
  }

  lemma {:induction false} CleanKeysCommute(v: Json)
    requires VisibleSensitiveKeysClean(v)
    ensures RedactJson(RedactKeys(v)) == RedactKeys(RedactJson(v))
  {
    hide HasSecret, Redact, IsSensitiveKey;
    match v {
      case Array(items) =>
        forall i | 0 <= i < |items| ensures RedactJson(RedactKeys(items[i])) == RedactKeys(RedactJson(items[i])) {
          forall path ensures Observe(items[i], path) == Observe(v, [i] + path) {
            assert ([i] + path)[1..] == path;
          }
          CleanKeysCommute(items[i]);
        }
        assert RedactJson(RedactKeys(v)).items == RedactKeys(RedactJson(v)).items;
      case Object(entries) =>
        forall i | 0 <= i < |entries|
          ensures RedactJson(RedactKeys(v)).entries[i] == RedactKeys(RedactJson(v)).entries[i]
        {
          var key := entries[i].key;
          if IsSensitiveKey(key) {
            assert Keys(entries)[i] == key && Observe(v, []) == ObjectOf(Keys(entries));
            PlaceholderKeptIffKeyClean(key);
          } else {
            forall path ensures Observe(entries[i].value, path) == Observe(v, [i] + path) {
              assert ([i] + path)[1..] == path;
            }
            CleanKeysCommute(entries[i].value);
          }
        }
        assert RedactJson(RedactKeys(v)).entries == RedactKeys(RedactJson(v)).entries;
      case _ =>
    }
  }

  lemma {:induction false} CommutingKeysAreClean(v: Json, path: seq<nat>, key: string)
    requires RedactJson(RedactKeys(v)) == RedactKeys(RedactJson(v))
    requires Observe(v, path).ObjectOf? && key in Observe(v, path).keys && IsSensitiveKey(key)
    ensures !HasSecret(key)
    decreases path
  {
    hide HasSecret, Redact, IsSensitiveKey;
    match v {
      case Array(items) =>
        assert RedactJson(RedactKeys(v)).items[path[0]] == RedactKeys(RedactJson(v)).items[path[0]];
        CommutingKeysAreClean(items[path[0]], path[1..], key);
      case Object(entries) =>
        if path == [] {
          var i :| 0 <= i < |entries| && entries[i].key == key;
          assert RedactJson(RedactKeys(v)).entries[i] == RedactKeys(RedactJson(v)).entries[i];
          PlaceholderKeptIffKeyClean(key);
        } else {
          assert RedactJson(RedactKeys(v)).entries[path[0]] == RedactKeys(RedactJson(v)).entries[path[0]];
          CommutingKeysAreClean(entries[path[0]].value, path[1..], key);
        }
      case _ =>
    }
  }

  /** The order of the two redactions is immaterial exactly when no visible sensitive key is secret-shaped itself. */
  lemma RedactionsCommuteIff(v: Json)
    ensures RedactJson(RedactKeys(v)) == RedactKeys(RedactJson(v)) <==> VisibleSensitiveKeysClean(v)
  {
    hide RedactJson, RedactKeys, Observe, HasSecret, IsSensitiveKey;
    if VisibleSensitiveKeysClean(v) {
      CleanKeysCommute(v);
    }
    if RedactJson(RedactKeys(v)) == RedactKeys(RedactJson(v)) {
      forall path, key | Observe(v, path).ObjectOf? && key in Observe(v, path).keys && IsSensitiveKey(key)
        ensures !HasSecret(key)
      {
        CommutingKeysAreClean(v, path, key);
      }
    }
  }

  /** Some trees do tell the two orders apart: a sensitive key may look like a secret. */
  lemma OrderCanMatter(digits: string)
    requires |digits| == MIN_SECRET_ALNUM_CHARS && forall i :: 0 <= i < |digits| ==> IsAsciiAlphanumeric(digits[i])
    ensures var v := Object([Entry("sk-" + digits + "_token", Null)]);
            RedactJson(RedactKeys(v)) != RedactKeys(RedactJson(v))
  {
    hide HasSecret, IsSensitiveKey, Redact, RedactJson, RedactKeys;
    var key := "sk-" + digits + "_token";
    var v := Object([Entry(key, Null)]);
    SecretShapedKey(digits);
    assert Observe(v, []) == ObjectOf(Keys(v.entries));
    assert Keys(v.entries)[0] == key;
    RedactionsCommuteIff(v);
  }

  lemma {:induction false} AlnumOnly(s: string)
    requires forall i :: 0 <= i < |s| ==> IsAsciiAlphanumeric(s[i])
    ensures AlnumCount(s) == |s|
  {
    if s == "" {
    } else {
      AlnumOnly(s[1..]);
    }
  }

  lemma SecretShapedKey(digits: string)
    requires |digits| == MIN_SECRET_ALNUM_CHARS && forall i :: 0 <= i < |digits| ==> IsAsciiAlphanumeric(digits[i])
    ensures HasSecret("sk-" + digits + "_token") && IsSensitiveKey("sk-" + digits + "_token")
  {
    hide AlnumCount, BodyLen;
    var key := "sk-" + digits + "_token";
    BodyLenUnique(key, |key|);
    assert SECRET_PREFIXES[0] <= key[0..];
    AlnumOnly(digits);
    AlnumCountAppend("sk-", digits);
    AlnumCountAppend("sk-" + digits, "_token");
    assert key[0..] == key && key[..|key|] == key;
    assert Secret(key[0..]);
    assert EndsWith(ToAsciiLowercase(key), SENSITIVE_SUFFIXES[0]);
  }
}
