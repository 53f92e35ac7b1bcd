/**
 The redacted format in the terms of its documentation: the four prefixes, the alphabet, the count and
 the marker are written out here and do not depend on how the scanner names them.
 */
module SecretFormat {
  import opened Blocks
  import opened Redaction
  import opened SecretShapes

  predicate IsWordChar(c: char) {
    '0' <= c <= '9' || 'A' <= c <= 'Z' || 'a' <= c <= 'z' || c == '_' || c == '-'
  }

  predicate IsWord(s: string) {
    forall i :: 0 <= i < |s| ==> IsWordChar(s[i])
  }

  /** One of the four secret prefixes stands at the start of `s`. */
  predicate OpensLikeSecret(s: string) {
    "sk-" <= s || "tok_" <= s || "ghp_" <= s || "secret_" <= s
  }

  /** The positions that hold neither an underscore nor a hyphen. */
  function Letters(s: string): set<nat> {
    set i: nat | i < |s| && s[i] != '_' && s[i] != '-'
  }

  lemma LettersOfOneMore(s: string, c: char)
    ensures |Letters(s + [c])| == |Letters(s)| + if c != '_' && c != '-' then 1 else 0
  {
    assert Letters(s + [c]) == Letters(s) + if c != '_' && c != '-' then {|s|} else {};
  }

  lemma AlnumCountOfOne(c: char)
    requires IsWordChar(c)
    ensures AlnumCount([c]) == if c != '_' && c != '-' then 1 else 0
  {
    assert [c][1..] == "";
  }

  lemma {:induction false} AlnumCountIsLetters(s: string)
    requires IsWord(s)
    ensures AlnumCount(s) == |Letters(s)|
  {
    if s == "" {
      assert Letters(s) == {};
    } else {
      AlnumCountOfInit(s);
      AlnumCountIsLetters(s[..|s| - 1]);
    }
  }

  lemma AlnumCountOfInit(s: string)
    requires s != "" && IsWord(s)
    ensures AlnumCount(s) - AlnumCount(s[..|s| - 1]) == |Letters(s)| - |Letters(s[..|s| - 1])|
  {
    hide AlnumCount, Letters;
    var n := |s| - 1;
    assert s == s[..n] + [s[n]];
    AlnumCountAppend(s[..n], [s[n]]);
    AlnumCountOfOne(s[n]);
    LettersOfOneMore(s[..n], s[n]);
  }

  lemma PrefixesAreTheFour(s: string)
    ensures HasSecretPrefix(s) <==> OpensLikeSecret(s)
  {
    assert SECRET_PREFIXES[0] == "sk-" && SECRET_PREFIXES[1] == "tok_";
    assert SECRET_PREFIXES[2] == "ghp_" && SECRET_PREFIXES[3] == "secret_";
  }

  /** Within a word, a secret shape is one of the prefixes with at least 20 letters and digits from there on. */
  lemma SecretInWord(word: string)
    requires IsWord(word)
    ensures Secret(word) <==> OpensLikeSecret(word) && |Letters(word)| >= 20
  {
    hide AlnumCount, BodyLen, HasSecretPrefix, OpensLikeSecret;
    BodyLenUnique(word, |word|);
    assert word[..|word|] == word;
    PrefixesAreTheFour(word);
    AlnumCountIsLetters(word);
  }

  /**
   A word that opens with a prefix becomes the marker when at least 20 of its characters are neither
   underscore nor hyphen, and is kept otherwise.
   */
  lemma PrefixedWord(prefix: string, rest: string)
    requires prefix in {"sk-", "tok_", "ghp_", "secret_"} && IsWord(rest)
    ensures Redact(prefix + rest) == if |Letters(prefix + rest)| >= 20 then "[REDACTED]" else prefix + rest
    ensures HasSecret(prefix + rest) <==> |Letters(prefix + rest)| >= 20
  {
    hide Redact, Secret, AlnumCount, BodyLen, Letters, Replacements;
    var s := prefix + rest;
    PrefixedIsWord(prefix, rest);
    assert s[0..] == s;
    SecretInWord(s);
    if |Letters(s)| >= 20 {
      RedactDecomposes(s, 0);
      BodyLenUnique(s, |s|);
      RedactWithoutSecret("");
      assert s[RunEnd(s, 0)..] == "";
      assert s[..0] + MARKER + "" == "[REDACTED]";
    } else {
      forall q | 0 <= q < |s| ensures !Secret(s[q..]) {
        SecretInWord(s[q..]);
        FewerLetters(s, q);
      }
      RedactWithoutSecret(s);
    }
  }

  lemma PrefixedIsWord(prefix: string, rest: string)
    requires prefix in {"sk-", "tok_", "ghp_", "secret_"} && IsWord(rest)
    ensures IsWord(prefix + rest) && OpensLikeSecret(prefix + rest)
  {
    assert IsWord(prefix);
    assert prefix <= prefix + rest;
  }

  lemma FewerLetters(s: string, q: nat)
    requires q <= |s| && IsWord(s)
    ensures IsWord(s[q..]) && |Letters(s[q..])| <= |Letters(s)|
  {
    hide Letters;
    AlnumCountIsLetters(s);
    AlnumCountIsLetters(s[q..]);
    AlnumCountAppend(s[..q], s[q..]);
    assert s[..q] + s[q..] == s;
  }

  /** A text in which none of the four prefixes occurs is kept as it is. */
  lemma TextWithoutPrefix(s: string)
    requires forall i :: 0 <= i < |s| ==> !OpensLikeSecret(s[i..])
    ensures Redact(s) == s && !HasSecret(s)
  {
    hide Redact, OpensLikeSecret, HasSecretPrefix;
    forall i | 0 <= i < |s| ensures !Secret(s[i..]) {
      PrefixesAreTheFour(s[i..]);
    }
    RedactWithoutSecret(s);
  }

  /** A character outside the alphabet ends every run: what stands before and behind it is redacted on its own. */
  lemma RunsEndAtOtherCharacters(a: string, c: char, b: string)
    requires !IsWordChar(c)
    ensures Redact(a + [c] + b) == Redact(a) + [c] + Redact(b)
  {
    hide Redact;
    RedactSplitsAtBarrier(a, c, b);
  }

  /** From `p` to `e` stands a word through position `i` that opens with a prefix and has 20 letters or digits. */
  ghost predicate ErasedWithin(s: string, p: nat, i: nat, e: nat) {
    && p <= i < e <= |s| && OpensLikeSecret(s[p..e]) && IsWord(s[p..e]) && |Letters(s[p..e])| >= 20
  }

  /** Exactly the positions of such words are erased. */
  lemma ErasedIffWithinSecret(s: string, i: nat)
    requires i < |s|
    ensures Covered(ShapeEnds(s), i) <==> exists p: nat, e: nat :: ErasedWithin(s, p, i, e)
  {
    hide Covered, ShapeEnds, ErasedFrom, ErasedWithin;
    ErasedExactly(s, i);
    if p: nat :| p <= i && ErasedFrom(s, p, i) {
      ErasedFromHasWord(s, p, i);
    }
    if p: nat, e: nat :| ErasedWithin(s, p, i, e) {
      WordErases(s, p, i, e);
    }
  }

  lemma ErasedFromHasWord(s: string, p: nat, i: nat)
    requires p <= i < |s| && ErasedFrom(s, p, i)
    ensures ErasedWithin(s, p, i, RunEnd(s, p))
  {
    hide AlnumCount, Letters, BodyLen, HasSecretPrefix;
    var e := RunEnd(s, p);
    var word := s[p..e];
    BodyLenIsMaximal(s[p..]);
    assert word == s[p..][..BodyLen(s[p..])];
    assert e < |s| ==> s[e] == s[p..][BodyLen(s[p..])];
    assert IsWord(word);
    AlnumCountIsLetters(word);
    PrefixesAreTheFour(s[p..]);
    PrefixIsInRun(s, p, e);
  }

  lemma PrefixIsInRun(s: string, p: nat, e: nat)
    requires p <= e <= |s| && OpensLikeSecret(s[p..]) && (e < |s| ==> !IsWordChar(s[e]))
    ensures OpensLikeSecret(s[p..e])
  {
    var t := s[p..];
    var q := if "sk-" <= t then "sk-" else if "tok_" <= t then "tok_" else if "ghp_" <= t then "ghp_" else "secret_";
    assert q <= t && IsWord(q);
    assert forall k :: 0 <= k < |q| ==> q[k] == t[k] == s[p + k];
    assert |q| <= e - p;
    assert forall k :: 0 <= k < |q| ==> s[p..e][k] == q[k];
    assert q <= s[p..e];
  }

  lemma WordErases(s: string, p: nat, i: nat, e: nat)
    requires ErasedWithin(s, p, i, e)
    ensures p <= i < |s| && ErasedFrom(s, p, i)
  {
    hide AlnumCount, Letters, BodyLen, HasSecretPrefix;
    var word, run := s[p..e], s[p..RunEnd(s, p)];
    PrefixesAreTheFour(s[p..]);
    LongerOpensToo(s, p, e);
    AlnumCountIsLetters(word);
    BodyLenIsMaximal(s[p..]);
    assert forall k :: 0 <= k < |word| ==> word[k] == s[p..][k];
    assert forall j :: p <= j < e ==> s[j] == word[j - p];
    assert e <= RunEnd(s, p);
    AlnumCountAppend(word, s[e..RunEnd(s, p)]);
    assert run == word + s[e..RunEnd(s, p)];
  }

  lemma LongerOpensToo(s: string, p: nat, e: nat)
    requires p <= e <= |s| && OpensLikeSecret(s[p..e])
    ensures OpensLikeSecret(s[p..])
  {
    assert s[p..e] <= s[p..];
  }
}
