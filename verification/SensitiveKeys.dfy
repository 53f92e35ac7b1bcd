/** Which keys are sensitive, and what stands under them after redaction, with every name written out. */
module SensitiveKeys {
  import opened Diagnostics
  import opened Json
  import opened Wrappers

  /** The characters are equal, or the first is the upper-case form of the second. */
  predicate SameLetter(a: char, b: char) {
    a == b || ('a' <= b <= 'z' && a as int + 32 == b as int)
  }

  /** `s` reads `name`, whatever the case of its ASCII letters. */
  predicate Reads(s: string, name: string) {
    |s| == |name| && forall i :: 0 <= i < |s| ==> SameLetter(s[i], name[i])
  }

  predicate ReadsAtEnd(s: string, suffix: string) {
    |suffix| <= |s| && Reads(s[|s| - |suffix|..], suffix)
  }

  /** A name written without upper-case letters. */
  predicate IsLower(name: string) {
    forall i :: 0 <= i < |name| ==> !('A' <= name[i] <= 'Z')
  }

  lemma LowercaseReads(s: string, name: string)
    requires IsLower(name)
    ensures ToAsciiLowercase(s) == name <==> Reads(s, name)
  {
    var t := ToAsciiLowercase(s);
    if |s| == |name| {
      forall i | 0 <= i < |s| ensures t[i] == name[i] <==> SameLetter(s[i], name[i]) {
      }
    }
  }

  lemma LowercaseReadsAtEnd(s: string, suffix: string)
    requires IsLower(suffix)
    ensures EndsWith(ToAsciiLowercase(s), suffix) <==> ReadsAtEnd(s, suffix)
  {
    if |suffix| <= |s| {
      var n := |s| - |suffix|;
      assert ToAsciiLowercase(s)[n..] == ToAsciiLowercase(s[n..]);
      LowercaseReads(s[n..], suffix);
    }
  }

  lemma NamesAreLower()
    ensures forall k :: 0 <= k < |SENSITIVE_KEYS| ==> IsLower(SENSITIVE_KEYS[k])
    ensures forall k :: 0 <= k < |SENSITIVE_SUFFIXES| ==> IsLower(SENSITIVE_SUFFIXES[k])
  {
  }

  /** Eleven names and four endings make a key sensitive, in any case of letters, and nothing else does. */
  lemma SensitiveKeysAreThese(key: string)
    ensures IsSensitiveKey(key) <==>
            || Reads(key, "token") || Reads(key, "secret") || Reads(key, "password") || Reads(key, "passwd")
            || Reads(key, "api_key") || Reads(key, "apikey") || Reads(key, "private_key") || Reads(key, "credential")
            || Reads(key, "credentials") || Reads(key, "credential_ref") || Reads(key, "scoped_credential_ref")
            || ReadsAtEnd(key, "_token") || ReadsAtEnd(key, "_secret") || ReadsAtEnd(key, "_password")
            || ReadsAtEnd(key, "_api_key")
  {
    hide ToAsciiLowercase, EndsWith, Reads, ReadsAtEnd, IsLower;
    NamesAreLower();
    forall k | 0 <= k < |SENSITIVE_KEYS| ensures ToAsciiLowercase(key) == SENSITIVE_KEYS[k] <==> Reads(key, SENSITIVE_KEYS[k]) {
      LowercaseReads(key, SENSITIVE_KEYS[k]);
    }
    forall k | 0 <= k < |SENSITIVE_SUFFIXES|
      ensures EndsWith(ToAsciiLowercase(key), SENSITIVE_SUFFIXES[k]) <==> ReadsAtEnd(key, SENSITIVE_SUFFIXES[k])
    {
      LowercaseReadsAtEnd(key, SENSITIVE_SUFFIXES[k]);
    }
    InNames(ToAsciiLowercase(key));
    InSuffixes(key);
    assert Reads(key, "token") <==> ToAsciiLowercase(key) == SENSITIVE_KEYS[0];
    assert Reads(key, "secret") <==> ToAsciiLowercase(key) == SENSITIVE_KEYS[1];
    assert Reads(key, "password") <==> ToAsciiLowercase(key) == SENSITIVE_KEYS[2];
    assert Reads(key, "passwd") <==> ToAsciiLowercase(key) == SENSITIVE_KEYS[3];
    assert Reads(key, "api_key") <==> ToAsciiLowercase(key) == SENSITIVE_KEYS[4];
    assert Reads(key, "apikey") <==> ToAsciiLowercase(key) == SENSITIVE_KEYS[5];
    assert Reads(key, "private_key") <==> ToAsciiLowercase(key) == SENSITIVE_KEYS[6];
    assert Reads(key, "credential") <==> ToAsciiLowercase(key) == SENSITIVE_KEYS[7];
    assert Reads(key, "credentials") <==> ToAsciiLowercase(key) == SENSITIVE_KEYS[8];
    assert Reads(key, "credential_ref") <==> ToAsciiLowercase(key) == SENSITIVE_KEYS[9];
    assert Reads(key, "scoped_credential_ref") <==> ToAsciiLowercase(key) == SENSITIVE_KEYS[10];
  }

  lemma InNames(s: string)
    ensures s in SENSITIVE_KEYS <==>
            || s == SENSITIVE_KEYS[0] || s == SENSITIVE_KEYS[1] || s == SENSITIVE_KEYS[2] || s == SENSITIVE_KEYS[3]
            || s == SENSITIVE_KEYS[4] || s == SENSITIVE_KEYS[5] || s == SENSITIVE_KEYS[6] || s == SENSITIVE_KEYS[7]
            || s == SENSITIVE_KEYS[8] || s == SENSITIVE_KEYS[9] || s == SENSITIVE_KEYS[10]
    ensures |SENSITIVE_KEYS| == 11
  {
  }

  lemma InSuffixes(s: string)
    ensures (exists k :: 0 <= k < |SENSITIVE_SUFFIXES| && ReadsAtEnd(s, SENSITIVE_SUFFIXES[k])) <==>
            || ReadsAtEnd(s, "_token") || ReadsAtEnd(s, "_secret") || ReadsAtEnd(s, "_password") || ReadsAtEnd(s, "_api_key")
  {
    hide ReadsAtEnd;
    assert SENSITIVE_SUFFIXES[0] == "_token" && SENSITIVE_SUFFIXES[1] == "_secret";
    assert SENSITIVE_SUFFIXES[2] == "_password" && SENSITIVE_SUFFIXES[3] == "_api_key";
  }

  /** What a visible path shows is what stands there after redaction: keys, lengths and leaves. */
  lemma {:induction false} VisibleIsKept(v: Json, path: seq<nat>)
    ensures match Observe(v, path)
            case Leaf(u) => At(RedactKeys(v), path) == Some(u)
            case ArrayOf(n) => At(RedactKeys(v), path).Some? && At(RedactKeys(v), path).value.Array?
                               && |At(RedactKeys(v), path).value.items| == n
            case ObjectOf(keys) => At(RedactKeys(v), path).Some? && At(RedactKeys(v), path).value.Object?
                                   && Keys(At(RedactKeys(v), path).value.entries) == keys
            case _ => true
    decreases path
  {
    hide IsSensitiveKey;
    match v {
      case Array(items) =>
        if path != [] && path[0] < |items| {
          VisibleIsKept(items[path[0]], path[1..]);
        }
      case Object(entries) =>
        if path == [] {
          assert Keys(RedactKeys(v).entries) == Keys(entries);
        } else if path[0] < |entries| && !IsSensitiveKey(entries[path[0]].key) {
          VisibleIsKept(entries[path[0]].value, path[1..]);
        }
      case _ =>
    }
  }

  /** Under a sensitive key that a visible path reaches stands its placeholder. */
  lemma {:induction false} SensitiveIsReplaced(v: Json, path: seq<nat>, i: nat)
    requires Observe(v, path).ObjectOf? && i < |Observe(v, path).keys| && IsSensitiveKey(Observe(v, path).keys[i])
    ensures At(RedactKeys(v), path + [i]) == Some(String("[REDACTED:" + Observe(v, path).keys[i] + "]"))
    decreases path
  {
    hide IsSensitiveKey;
    var p := path + [i];
    match v {
      case Array(items) =>
        assert p[0] == path[0] && p[1..] == path[1..] + [i];
        SensitiveIsReplaced(items[path[0]], path[1..], i);
      case Object(entries) =>
        if path == [] {
          assert p[0] == i && p[1..] == [];
        } else {
          assert p[0] == path[0] && p[1..] == path[1..] + [i];
          SensitiveIsReplaced(entries[path[0]].value, path[1..], i);
        }
      case _ =>
    }
  }

  /** The last two letters of `key`, in any case, are `a` and `b`. */
  predicate EndsInPair(key: string, a: char, b: char) {
    |key| >= 2 && SameLetter(key[|key| - 2], a) && SameLetter(key[|key| - 1], b)
  }

  lemma ReadsEndsInPair(key: string, name: string)
    requires |name| >= 2 && (Reads(key, name) || ReadsAtEnd(key, name))
    ensures EndsInPair(key, name[|name| - 2], name[|name| - 1])
  {
  }

  /** A sensitive key ends like one of the sensitive names. */
  lemma SensitiveEndsInPair(key: string)
    requires IsSensitiveKey(key)
    ensures EndsInPair(key, 'e', 'n') || EndsInPair(key, 'e', 't') || EndsInPair(key, 'r', 'd') || EndsInPair(key, 'w', 'd')
            || EndsInPair(key, 'e', 'y') || EndsInPair(key, 'a', 'l') || EndsInPair(key, 'l', 's') || EndsInPair(key, 'e', 'f')
  {
    hide IsSensitiveKey, Reads, ReadsAtEnd, EndsInPair;
    SensitiveKeysAreThese(key);
    if Reads(key, "token") { ReadsEndsInPair(key, "token"); }
    if Reads(key, "secret") { ReadsEndsInPair(key, "secret"); }
    if Reads(key, "password") { ReadsEndsInPair(key, "password"); }
    if Reads(key, "passwd") { ReadsEndsInPair(key, "passwd"); }
    if Reads(key, "api_key") { ReadsEndsInPair(key, "api_key"); }
    if Reads(key, "apikey") { ReadsEndsInPair(key, "apikey"); }
    if Reads(key, "private_key") { ReadsEndsInPair(key, "private_key"); }
    if Reads(key, "credential") { ReadsEndsInPair(key, "credential"); }
    if Reads(key, "credentials") { ReadsEndsInPair(key, "credentials"); }
    if Reads(key, "credential_ref") { ReadsEndsInPair(key, "credential_ref"); }
    if Reads(key, "scoped_credential_ref") { ReadsEndsInPair(key, "scoped_credential_ref"); }
    if ReadsAtEnd(key, "_token") { ReadsEndsInPair(key, "_token"); }
    if ReadsAtEnd(key, "_secret") { ReadsEndsInPair(key, "_secret"); }
    if ReadsAtEnd(key, "_password") { ReadsEndsInPair(key, "_password"); }
    if ReadsAtEnd(key, "_api_key") { ReadsEndsInPair(key, "_api_key"); }
  }
}
