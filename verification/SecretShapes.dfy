/**
 What a secret shape is, and what redacting a text means, position by position.
 Nothing here mentions how the scanner of `src/isolation.rs` finds the shapes.
 */
module SecretShapes {
  import opened Blocks

  const SECRET_PREFIXES: seq<string> := ["sk-", "tok_", "ghp_", "secret_"]
  const MIN_SECRET_ALNUM_CHARS: nat := 20
  const MARKER: string := "[REDACTED]"

  predicate IsAsciiAlphanumeric(c: char) {
    '0' <= c <= '9' || 'A' <= c <= 'Z' || 'a' <= c <= 'z'
  }

  predicate IsSecretBodyChar(c: char) {
    IsAsciiAlphanumeric(c) || c == '_' || c == '-'
  }

  predicate HasSecretPrefix(text: string) {
    exists k :: 0 <= k < |SECRET_PREFIXES| && SECRET_PREFIXES[k] <= text
  }

  /** Length of the maximal run of body characters at the start of `text`. */
  function BodyLen(text: string): (n: nat)
    ensures n <= |text|
  {
    if text != "" && IsSecretBodyChar(text[0]) then 1 + BodyLen(text[1..]) else 0
  }

  /** End of the maximal run of body characters that starts at position `p`. */
  function RunEnd(s: string, p: nat): (e: nat)
    requires p <= |s|
    ensures p <= e <= |s|
  {
    p + BodyLen(s[p..])
  }

  function AlnumCount(text: string): nat {
    if text == "" then 0 else (if IsAsciiAlphanumeric(text[0]) then 1 else 0) + AlnumCount(text[1..])
  }

  /** A secret shape starts at the first character of `text`. */
  predicate Secret(text: string) {
    HasSecretPrefix(text) && AlnumCount(text[..BodyLen(text)]) >= MIN_SECRET_ALNUM_CHARS
  }

  ghost predicate HasSecret(s: string) {
    exists p :: 0 <= p < |s| && Secret(s[p..])
  }

  /** Where the secret shape that starts at position `p` ends; `p` itself when none starts there. */
  ghost function ShapeEnd(s: string, p: nat): nat
    requires p < |s|
  {
    if Secret(s[p..]) then RunEnd(s, p) else p
  }

  ghost function ShapeEndsTo(s: string, n: nat): (ends: seq<nat>)
    requires n <= |s|
    ensures |ends| == n
  {
    if n == 0 then [] else ShapeEndsTo(s, n - 1) + [ShapeEnd(s, n - 1)]
  }

  ghost function ShapeEnds(s: string): (ends: seq<nat>)
    ensures |ends| == |s|
  {
    ShapeEndsTo(s, |s|)
  }

  /** The redacted text: every maximal block of erased positions becomes one marker, the rest is kept. */
  ghost function Redact(s: string): string {
    Render(s, ShapeEnds(s), |s|, MARKER)
  }

  ghost function Replacements(s: string): nat {
    BlockCount(ShapeEnds(s), |s|)
  }

  // ----- Runs of body characters -----

  /** The run consists of body characters, and is not followed by one. */
  lemma {:induction false} BodyLenIsMaximal(text: string)
    ensures forall i :: 0 <= i < BodyLen(text) ==> IsSecretBodyChar(text[i])
    ensures BodyLen(text) < |text| ==> !IsSecretBodyChar(text[BodyLen(text)])
  {
    if text != "" && IsSecretBodyChar(text[0]) {
      BodyLenIsMaximal(text[1..]);
      assert forall i :: 0 < i < |text| ==> text[i] == text[1..][i - 1];
    }
  }

  /** The run is determined by where it ends. */
  lemma {:induction false} BodyLenUnique(text: string, n: nat)
    requires n <= |text|
    requires forall i :: 0 <= i < n ==> IsSecretBodyChar(text[i])
    requires n < |text| ==> !IsSecretBodyChar(text[n])
    ensures BodyLen(text) == n
  {
    BodyLenIsMaximal(text);
    var m := BodyLen(text);
    assert n <= m;
  }

  /** From inside a run, the rest of the run ends at the same place. */
  lemma BodyLenInside(s: string, p: nat, q: nat)
    requires p <= q <= |s| && q <= RunEnd(s, p)
    ensures RunEnd(s, q) == RunEnd(s, p)
  {
    BodyLenIsMaximal(s[p..]);
    var n := RunEnd(s, p) - q;
    assert forall i :: 0 <= i < n ==> s[q..][i] == s[p..][q - p + i];
    assert n < |s[q..]| ==> s[q..][n] == s[p..][BodyLen(s[p..])];
    BodyLenUnique(s[q..], n);
  }

  lemma {:induction false} AlnumCountAppend(s: string, t: string)
    ensures AlnumCount(s + t) == AlnumCount(s) + AlnumCount(t)
  {
    if s == "" {
      assert s + t == t;
    } else {
      AlnumCountAppend(s[1..], t);
      assert (s + t)[1..] == s[1..] + t;
    }
  }

  lemma {:induction false} AlnumCountBounded(s: string)
    ensures AlnumCount(s) <= |s|
    ensures (exists i :: 0 <= i < |s| && !IsAsciiAlphanumeric(s[i])) ==> AlnumCount(s) < |s|
  {
    if s == "" {
    } else {
      AlnumCountBounded(s[1..]);
      if i :| 0 <= i < |s| && !IsAsciiAlphanumeric(s[i]) {
        assert i > 0 ==> s[1..][i - 1] == s[i];
      }
    }
  }

  /** A secret shape opens with a letter of some prefix and takes at least 21 characters. */
  lemma SecretIsLong(text: string)
    requires Secret(text)
    ensures text != "" && text[0] in {'s', 't', 'g'}
    ensures BodyLen(text) >= MIN_SECRET_ALNUM_CHARS + 1
  {
    var k :| 0 <= k < |SECRET_PREFIXES| && SECRET_PREFIXES[k] <= text;
    var p := SECRET_PREFIXES[k];
    assert p in SECRET_PREFIXES;
    var last := |p| - 1;
    assert p[0] in {'s', 't', 'g'} && p[last] in {'-', '_'};
    var run := text[..BodyLen(text)];
    AlnumCountBounded(run);
    BodyLenIsMaximal(text);
    assert text[0] == p[0] && text[last] == p[last];
    assert forall i :: 0 <= i < |p| ==> IsSecretBodyChar(p[i]);
    assert forall i :: 0 <= i < |p| ==> text[i] == p[i];
    assert |p| <= BodyLen(text);
    assert !IsAsciiAlphanumeric(run[last]);
  }

  /** Longer texts keep the secret shapes they start with. */
  lemma SecretExtends(s: string, t: string)
    requires Secret(s)
    ensures Secret(s + t)
  {
    var k :| 0 <= k < |SECRET_PREFIXES| && SECRET_PREFIXES[k] <= s;
    assert SECRET_PREFIXES[k] <= s + t;
    var n, m := BodyLen(s), BodyLen(s + t);
    BodyLenIsMaximal(s);
    BodyLenIsMaximal(s + t);
    assert forall i :: 0 <= i < n ==> (s + t)[i] == s[i];
    assert n <= m;
    assert (s + t)[..m] == s[..n] + (s + t)[n..m];
    AlnumCountAppend(s[..n], (s + t)[n..m]);
  }

  /** A character outside the body alphabet hides everything after it. */
  lemma SecretStopsAtBarrier(a: string, c: char, b: string)
    requires !IsSecretBodyChar(c)
    ensures BodyLen(a + [c] + b) == BodyLen(a)
    ensures Secret(a + [c] + b) == Secret(a)
  {
    hide BodyLen, AlnumCount;
    var s := a + [c] + b;
    BodyLenIsMaximal(a);
    BodyLenUnique(s, BodyLen(a));
    assert s[..BodyLen(a)] == a[..BodyLen(a)];
    if k :| 0 <= k < |SECRET_PREFIXES| && SECRET_PREFIXES[k] <= s {
      var p := SECRET_PREFIXES[k];
      assert p in SECRET_PREFIXES;
      assert forall i :: 0 <= i < |p| ==> IsSecretBodyChar(p[i]);
      assert forall i :: 0 <= i < |p| ==> p[i] == s[i];
      assert s[|a|] == c;
      assert |p| <= |a|;
      assert p <= a;
    }
    if HasSecretPrefix(a) {
      var k :| 0 <= k < |SECRET_PREFIXES| && SECRET_PREFIXES[k] <= a;
      assert SECRET_PREFIXES[k] <= s;
    }
  }

  // ----- How redaction decomposes at the first secret shape -----

  ghost predicate FirstSecret(s: string, f: nat) {
    f < |s| && Secret(s[f..]) && forall q :: 0 <= q < f ==> !Secret(s[q..])
  }

  lemma FirstSecretExists(s: string) returns (f: nat)
    requires HasSecret(s)
    ensures FirstSecret(s, f)
  {
    hide Secret;
    f := 0;
    var w :| 0 <= w < |s| && Secret(s[w..]);
    while !Secret(s[f..])
      invariant f <= w
      invariant forall q :: 0 <= q < f ==> !Secret(s[q..])
      decreases w - f
    {
      f := f + 1;
    }
  }

  lemma {:induction false} ShapeEndsAt(s: string, n: nat, p: nat)
    requires p < n <= |s|
    ensures ShapeEndsTo(s, n)[p] == ShapeEnd(s, p)
  {
    hide ShapeEnd;
    if p < n - 1 {
      ShapeEndsAt(s, n - 1, p);
    }
  }

  /** The shape ends of a suffix. */
  lemma ShapeEndsOfSuffix(s: string, e: nat)
    requires e <= |s|
    ensures IsTail(ShapeEnds(s), e, ShapeEnds(s[e..]))
  {
    hide ShapeEnds;
    forall i | 0 <= i < |s| - e ensures ShapeEnds(s)[e + i] == e + ShapeEnds(s[e..])[i] {
      ShapeEndOfSuffix(s, e, i);
    }
  }

  lemma ShapeEndOfSuffix(s: string, e: nat, i: nat)
    requires e + i < |s|
    ensures ShapeEnds(s)[e + i] == e + ShapeEnds(s[e..])[i]
  {
    hide Secret, ShapeEndsTo, BodyLen;
    var tail := s[e..];
    ShapeEndsAt(s, |s|, e + i);
    ShapeEndsAt(tail, |tail|, i);
    assert tail[i..] == s[e + i..];
  }

  lemma FirstSecretIsFirstBlock(s: string, f: nat)
    requires FirstSecret(s, f)
    ensures FirstBlock(ShapeEnds(s), f, RunEnd(s, f))
  {
    hide Secret, BodyLen, ShapeEndsTo;
    SecretIsLong(s[f..]);
    var e := RunEnd(s, f);
    ShapeEndsAt(s, |s|, f);
    forall q | 0 <= q < f ensures ShapeEnds(s)[q] <= q {
      ShapeEndsAt(s, |s|, q);
    }
    forall q | f <= q < e ensures ShapeEnds(s)[q] <= e {
      ShapeEndsAt(s, |s|, q);
      BodyLenInside(s, f, q);
    }
    if e < |s| {
      ShapeEndsAt(s, |s|, e);
      BodyLenInside(s, f, e);
    }
  }

  /** Redaction keeps the text before the first secret shape, marks it, and redacts what follows. */
  lemma RedactDecomposes(s: string, f: nat)
    requires FirstSecret(s, f)
    ensures var e := RunEnd(s, f);
            f < e <= |s|
            && Redact(s) == s[..f] + MARKER + Redact(s[e..])
            && Replacements(s) == 1 + Replacements(s[e..])
  {
    hide Secret, ShapeEnds, FirstBlock, IsTail, Render, BlockCount, BodyLen;
    SecretIsLong(s[f..]);
    var e := RunEnd(s, f);
    FirstSecretIsFirstBlock(s, f);
    ShapeEndsOfSuffix(s, e);
    var ends, tail := ShapeEnds(s), s[e..];
    var rest := ShapeEnds(tail);
    RenderFromFirst(s, ends, f, e, rest, |s|, MARKER);
    assert |s| - e == |tail|;
    assert Redact(s) == s[..f] + MARKER + Render(tail, rest, |tail|, MARKER);
    assert Replacements(s) == 1 + BlockCount(rest, |tail|);
    assert Redact(tail) == Render(tail, rest, |tail|, MARKER);
  }

  lemma RedactWithoutSecret(s: string)
    requires !HasSecret(s)
    ensures Redact(s) == s && Replacements(s) == 0
  {
    forall q | 0 <= q < |s| ensures ShapeEnds(s)[q] <= q {
      ShapeEndsAt(s, |s|, q);
    }
    RenderUncovered(s, ShapeEnds(s), |s|, MARKER);
  }
}
