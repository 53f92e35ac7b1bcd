/**
 What the redacted text guarantees: the exact positions erased, no secret shape left, independence
 of the parts of a text, and the byte budget of the scanner's preallocated buffer.
 */
module Redaction {
  import opened Blocks
  import opened SecretShapes
  import opened Utf8

  /** A run of body characters from `p` through `i` opens with a secret prefix and is long enough. */
  ghost predicate ErasedFrom(s: string, p: nat, i: nat)
    requires p <= i < |s|
  {
    && HasSecretPrefix(s[p..])
    && (forall j :: p <= j <= i ==> IsSecretBodyChar(s[j]))
    && AlnumCount(s[p..RunEnd(s, p)]) >= MIN_SECRET_ALNUM_CHARS
  }

  lemma ErasedFromIsInShape(s: string, p: nat, i: nat)
    requires p <= i < |s|
    ensures i < ShapeEnds(s)[p] <==> ErasedFrom(s, p, i)
  {
    hide HasSecretPrefix, AlnumCount, ShapeEndsTo, BodyLen, IsSecretBodyChar;
    ShapeEndsAt(s, |s|, p);
    BodyLenIsMaximal(s[p..]);
    var n := BodyLen(s[p..]);
    assert s[p..p + n] == s[p..][..n];
    if p + n <= i {
      assert s[p..][n] == s[p + n];
    } else {
      assert forall j :: p <= j <= i ==> s[j] == s[p..][j - p];
    }
  }

  /** Exactly the positions in a long enough run that opens with a secret prefix are erased. */
  lemma ErasedExactly(s: string, i: nat)
    requires i < |s|
    ensures Covered(ShapeEnds(s), i) <==> exists p :: 0 <= p <= i && ErasedFrom(s, p, i)
  {
    hide ErasedFrom, ShapeEnds;
    if Covered(ShapeEnds(s), i) {
      var p :| 0 <= p <= i && p < |ShapeEnds(s)| && i < ShapeEnds(s)[p];
      ErasedFromIsInShape(s, p, i);
    }
    if p :| 0 <= p <= i && ErasedFrom(s, p, i) {
      ErasedFromIsInShape(s, p, i);
    }
  }

  // ----- A character outside the body alphabet separates what is redacted -----

  lemma SecretAcrossBarrier(a: string, c: char, b: string, q: nat)
    requires !IsSecretBodyChar(c) && q <= |a| + |b|
    ensures var s := a + [c] + b;
            if q < |a| then Secret(s[q..]) == Secret(a[q..]) && BodyLen(s[q..]) == BodyLen(a[q..])
            else if q == |a| then !Secret(s[q..])
            else s[q..] == b[q - |a| - 1..]
  {
    var s := a + [c] + b;
    if q <= |a| {
      assert s[q..] == a[q..] + [c] + b;
      SecretStopsAtBarrier(a[q..], c, b);
      if q == |a| && Secret(a[q..]) {
        SecretIsLong(a[q..]);
      }
    }
  }

  lemma HasSecretAcrossBarrier(a: string, c: char, b: string)
    requires !IsSecretBodyChar(c)
    ensures HasSecret(a + [c] + b) <==> HasSecret(a) || HasSecret(b)
  {
    var s := a + [c] + b;
    if HasSecret(s) {
      var p :| 0 <= p < |s| && Secret(s[p..]);
      SecretAcrossBarrier(a, c, b, p);
    }
    if p :| 0 <= p < |a| && Secret(a[p..]) {
      SecretAcrossBarrier(a, c, b, p);
      assert Secret(s[p..]);
    }
    if p :| 0 <= p < |b| && Secret(b[p..]) {
      assert s[|a| + 1 + p..] == b[p..];
    }
  }

  /** Redaction splits at every character outside the body alphabet. */
  lemma {:induction false} RedactSplitsAtBarrier(a: string, c: char, b: string)
    requires !IsSecretBodyChar(c)
    ensures Redact(a + [c] + b) == Redact(a) + [c] + Redact(b)
    ensures Replacements(a + [c] + b) == Replacements(a) + Replacements(b)
    decreases |a|
  {
    hide Redact, Replacements, HasSecret, FirstSecret, BodyLen;
    var s := a + [c] + b;
    HasSecretAcrossBarrier(a, c, b);
    if HasSecret(a) {
      var f := FirstSecretExists(a);
      FirstSecretOfLeft(a, c, b, f);
      RedactDecomposes(a, f);
      RedactDecomposes(s, f);
      var e := RunEnd(a, f);
      assert s[e..] == a[e..] + [c] + b && s[..f] == a[..f];
      RedactSplitsAtBarrier(a[e..], c, b);
      var x, y, z := a[..f] + MARKER, Redact(a[e..]), Redact(b);
      assert x + (y + [c] + z) == (x + y) + [c] + z;
    } else {
      RedactWithoutSecret(a);
      if HasSecret(b) {
        var f := FirstSecretExists(b);
        FirstSecretOfRight(a, c, b, f);
        RedactDecomposes(b, f);
        var g := |a| + 1 + f;
        RedactDecomposes(s, g);
        var e := RunEnd(b, f);
        assert s[|a| + 1 + e..] == b[e..] && s[..g] == a + [c] + b[..f];
        var x, y, z := a + [c], b[..f], MARKER + Redact(b[e..]);
        assert x + y + MARKER + Redact(b[e..]) == x + (y + MARKER + Redact(b[e..]));
      } else {
        RedactWithoutSecret(b);
        RedactWithoutSecret(s);
      }
    }
  }

  lemma FirstSecretOfLeft(a: string, c: char, b: string, f: nat)
    requires !IsSecretBodyChar(c) && FirstSecret(a, f)
    ensures FirstSecret(a + [c] + b, f) && BodyLen((a + [c] + b)[f..]) == BodyLen(a[f..])
  {
    forall q | 0 <= q <= f ensures Secret((a + [c] + b)[q..]) == Secret(a[q..]) {
      SecretAcrossBarrier(a, c, b, q);
    }
    SecretAcrossBarrier(a, c, b, f);
  }

  lemma FirstSecretOfRight(a: string, c: char, b: string, f: nat)
    requires !IsSecretBodyChar(c) && FirstSecret(b, f) && !HasSecret(a)
    ensures FirstSecret(a + [c] + b, |a| + 1 + f) && (a + [c] + b)[|a| + 1 + f..] == b[f..]
  {
    var s := a + [c] + b;
    forall q | 0 <= q < |a| + 1 + f ensures !Secret(s[q..]) {
      SecretAcrossBarrier(a, c, b, q);
    }
    SecretAcrossBarrier(a, c, b, |a| + 1 + f);
  }

  // ----- Redaction leaves nothing behind -----

  /** No secret shape survives, not even one formed across a splice. */
  lemma {:induction false} RedactedTextIsClean(s: string)
    ensures !HasSecret(Redact(s))
    decreases |s|
  {
    hide Redact, FirstSecret, BodyLen, HasSecret, Secret;
    if HasSecret(s) {
      var f := FirstSecretExists(s);
      RedactDecomposes(s, f);
      var e := RunEnd(s, f);
      var kept, rest := s[..f], Redact(s[e..]);
      RedactedTextIsClean(s[e..]);
      TextBeforeFirstIsClean(s, f);
      MarkerIsClean();
      HasSecretAcrossBarrier("REDACTED", ']', rest);
      HasSecretAcrossBarrier(kept, '[', "REDACTED" + [']'] + rest);
      assert Redact(s) == kept + ['['] + ("REDACTED" + [']'] + rest);
    } else {
      RedactWithoutSecret(s);
    }
  }

  lemma TextBeforeFirstIsClean(s: string, f: nat)
    requires FirstSecret(s, f)
    ensures !HasSecret(s[..f])
  {
    hide Secret;
    if q :| 0 <= q < f && Secret(s[..f][q..]) {
      assert s[..f][q..] + s[f..] == s[q..];
      SecretExtends(s[..f][q..], s[f..]);
    }
  }

  lemma MarkerIsClean()
    ensures !HasSecret("REDACTED")
  {
    if p :| 0 <= p < |"REDACTED"| && Secret("REDACTED"[p..]) {
      SecretIsLong("REDACTED"[p..]);
    }
  }

  /** A second pass changes nothing and reports nothing. */
  lemma RedactIsIdempotent(s: string)
    ensures Redact(Redact(s)) == Redact(s) && Replacements(Redact(s)) == 0
  {
    RedactedTextIsClean(s);
    RedactWithoutSecret(Redact(s));
  }

  // ----- Byte budget -----

  /** The bytes of a secret shape, at least 21, are replaced by the 10 bytes of the marker. */
  lemma SecretBytes(s: string, f: nat)
    requires FirstSecret(s, f)
    ensures var e := RunEnd(s, f);
            e <= |s| && ByteLen(s[..f]) + ByteLen(MARKER) + 11 + ByteLen(s[e..]) <= ByteLen(s)
  {
    hide ByteLen, Secret, BodyLen;
    SecretIsLong(s[f..]);
    var e := RunEnd(s, f);
    ByteLenAtLeastLength(s[f..e]);
    MarkerBytes();
    SplitBytes(s, f, e);
  }

  lemma MarkerBytes()
    ensures ByteLen(MARKER) == 10
  {
    hide ByteLen;
    ByteLenOfAscii(MARKER);
  }

  lemma SplitBytes(s: string, f: nat, e: nat)
    requires f <= e <= |s|
    ensures ByteLen(s) == ByteLen(s[..f]) + ByteLen(s[f..e]) + ByteLen(s[e..])
  {
    hide ByteLen;
    ByteLenAppend(s[..f], s[f..e]);
    ByteLenAppend(s[..e], s[e..]);
    assert s == s[..e] + s[e..] && s[..e] == s[..f] + s[f..e];
  }

  /** Each replacement shrinks the text by at least 11 bytes, so the output never outgrows the input. */
  lemma {:induction false} RedactByteBudget(s: string)
    ensures ByteLen(Redact(s)) + 11 * Replacements(s) <= ByteLen(s)
    decreases |s|
  {
    hide Redact, Replacements, HasSecret, FirstSecret, BodyLen, ByteLen;
    if HasSecret(s) {
      var f := FirstSecretExists(s);
      RedactDecomposes(s, f);
      SecretBytes(s, f);
      var e := RunEnd(s, f);
      RedactByteBudget(s[e..]);
      ByteLenAppend(s[..f] + MARKER, Redact(s[e..]));
      ByteLenAppend(s[..f], MARKER);
    } else {
      RedactWithoutSecret(s);
    }
  }

  /** Something is replaced exactly when there is a secret shape, and exactly when the text changes. */
  lemma RedactChangesIffSecret(s: string)
    ensures HasSecret(s) <==> Redact(s) != s
    ensures HasSecret(s) <==> Replacements(s) > 0
  {
    hide Redact, Replacements, HasSecret;
    if HasSecret(s) {
      var f := FirstSecretExists(s);
      RedactDecomposes(s, f);
      RedactByteBudget(s);
    } else {
      RedactWithoutSecret(s);
    }
  }

  // ----- One pass over the maximal runs -----

  /** Cuts a run of body characters at its leftmost secret prefix, when enough alphanumerics follow. */
  function CutRun(run: string, p: nat): string
    requires p <= |run|
    decreases |run| - p
  {
    if p == |run| then run
    else if !HasSecretPrefix(run[p..]) then CutRun(run, p + 1)
    else if AlnumCount(run[p..]) >= MIN_SECRET_ALNUM_CHARS then run[..p] + MARKER
    else run
  }

  /** Redaction in one pass: each maximal run of body characters is cut on its own. */
  function CutRuns(s: string): string
    decreases |s|
  {
    if s == "" then ""
    else if !IsSecretBodyChar(s[0]) then [s[0]] + CutRuns(s[1..])
    else CutRun(s[..BodyLen(s)], 0) + CutRuns(s[BodyLen(s)..])
  }

  /** Within one run only the leftmost prefix matters. */
  lemma {:induction false} CutRunIsRedact(run: string, p: nat)
    requires p <= |run| && BodyLen(run) == |run|
    requires forall q :: 0 <= q < p ==> !Secret(run[q..])
    ensures CutRun(run, p) == Redact(run)
    decreases |run| - p
  {
    hide HasSecretPrefix, AlnumCount, BodyLen, Redact;
    forall q | 0 <= q <= |run| ensures BodyLen(run[q..]) == |run| - q {
      assert run[0..] == run;
      BodyLenInside(run, 0, q);
    }
    if p == |run| {
      RedactWithoutSecret(run);
    } else if !HasSecretPrefix(run[p..]) {
      CutRunIsRedact(run, p + 1);
    } else {
      assert run[p..][..|run| - p] == run[p..];
      if AlnumCount(run[p..]) >= MIN_SECRET_ALNUM_CHARS {
        RedactDecomposes(run, p);
        RedactWithoutSecret("");
        assert run[|run|..] == "";
        assert run[..p] + MARKER + "" == run[..p] + MARKER;
      } else {
        forall q | p <= q < |run| ensures !Secret(run[q..]) {
          assert run[q..][..|run| - q] == run[q..] && run[p..] == run[p..q] + run[q..];
          AlnumCountAppend(run[p..q], run[q..]);
        }
        RedactWithoutSecret(run);
      }
    }
  }

  /** The restarting scanner's result is the result of the single pass over maximal runs. */
  lemma {:induction false} OnePassIsRedact(s: string)
    ensures CutRuns(s) == Redact(s)
    decreases |s|
  {
    hide Redact, CutRun, IsSecretBodyChar;
    RedactWithoutSecret("");
    BodyLenIsMaximal(s);
    if s == "" {
    } else {
      var n := BodyLen(s);
      var run := s[..n];
      if n == 0 {
        OnePassIsRedact(s[1..]);
        RedactSplitsAtBarrier("", s[0], s[1..]);
        assert s == "" + [s[0]] + s[1..];
      } else {
        BodyLenUnique(run, n);
        CutRunIsRedact(run, 0);
        if n == |s| {
          assert run == s && s[n..] == "";
          assert Redact(s) + "" == Redact(s);
        } else {
          OnePassIsRedact(s[n..]);
          var tail := s[n..];
          assert tail == "" + [tail[0]] + tail[1..];
          RedactSplitsAtBarrier("", tail[0], tail[1..]);
          RedactSplitsAtBarrier(run, tail[0], tail[1..]);
          assert s == run + [tail[0]] + tail[1..];
        }
      }
    }
  }
}
