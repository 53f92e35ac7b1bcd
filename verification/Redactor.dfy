/**
 The scanner of `src/isolation.rs` and the places that apply it, as they update their variables,
 proved against the position-by-position meaning of redaction.
 */
module Redactor {
  import opened Redaction
  import opened SecretShapes
  import opened Utf8
  import opened Wrappers

  /** `span` holds the byte offsets between which the first secret shape of `s` lies. */
  ghost predicate IsFirstSpan(s: string, span: (nat, nat)) {
    exists f: nat :: FirstSecret(s, f) && span == (ByteLen(s[..f]), ByteLen(s[..RunEnd(s, f)]))
  }

  /** Finds the byte offsets of the first secret shape of `input`. */
  method FindSecretShapedSubstring(input: string) returns (found: Option<(nat, nat)>)
    ensures found.None? <==> !HasSecret(input)
    ensures found.Some? ==> IsFirstSpan(input, found.value)
  {
    hide HasSecretPrefix, AlnumCount, ByteLen, BodyLen, IsFirstSpan, IsCharBoundary, Slice;
    EmptyText();
    assert input[..0] == "";
    var start := 0;
    for i := 0 to |input|
      invariant start == ByteLen(input[..i])
      invariant forall q :: 0 <= q < i ==> !Secret(input[q..])
    {
      SliceToEnd(input, i);
      var rest := Slice(input, start, ByteLen(input));
      if HasSecretPrefix(rest) {
        RunSlice(input, i);
        var end := start + ByteLen(rest[..BodyLen(rest)]);
        var candidate := Slice(input, start, end);
        if AlnumCount(candidate) >= MIN_SECRET_ALNUM_CHARS {
          SpanAt(input, i);
          return Some((start, end));
        }
      }
      NextOffset(input, i);
      start := start + Width(input[i]);
    }
    return None;
  }

  /** The run from character `i` is the slice between its byte offsets. */
  lemma RunSlice(s: string, i: nat)
    requires i <= |s|
    ensures var rest, start := s[i..], ByteLen(s[..i]);
            var run := rest[..BodyLen(rest)];
            && ByteLen(s[..RunEnd(s, i)]) == start + ByteLen(run)
            && IsCharBoundary(s, start) && IsCharBoundary(s, start + ByteLen(run))
            && Slice(s, start, start + ByteLen(run)) == run
            && run == s[i..RunEnd(s, i)]
  {
    hide ByteLen, BodyLen, IsCharBoundary, Slice;
    var e := RunEnd(s, i);
    OffsetInSuffix(s, i, e - i);
    SliceAtOffsets(s, i, e);
    assert s[i..][..BodyLen(s[i..])] == s[i..e];
  }

  lemma SpanAt(s: string, f: nat)
    requires FirstSecret(s, f)
    ensures HasSecret(s) && IsFirstSpan(s, (ByteLen(s[..f]), ByteLen(s[..f]) + ByteLen(s[f..RunEnd(s, f)])))
  {
    hide Secret, ByteLen, RunEnd;
    var e := RunEnd(s, f);
    ByteLenAppend(s[..f], s[f..e]);
    assert s[..e] == s[..f] + s[f..e];
  }

  lemma NextOffset(s: string, i: nat)
    requires i < |s|
    ensures ByteLen(s[..i + 1]) == ByteLen(s[..i]) + Width(s[i])
  {
    ByteLenAppend(s[..i], [s[i]]);
    assert s[..i + 1] == s[..i] + [s[i]];
    assert [s[i]][1..] == "";
  }

  /** An offset in the suffix from character `k` is an offset in the whole text, moved by the suffix's own offset. */
  lemma OffsetInSuffix(s: string, k: nat, i: nat)
    requires k + i <= |s|
    ensures ByteLen(s[..k + i]) == ByteLen(s[..k]) + ByteLen(s[k..][..i])
  {
    hide ByteLen;
    ByteLenAppend(s[..k], s[k..][..i]);
    assert s[..k + i] == s[..k] + s[k..][..i];
  }

  /** Only the end of the text has the offset of its length. */
  lemma EndOffset(s: string, k: nat)
    requires k <= |s| && ByteLen(s[..k]) >= ByteLen(s)
    ensures k == |s|
  {
    hide ByteLen;
    assert s[..|s|] == s;
    if k < |s| {
      OffsetsIncrease(s, k, |s|);
    }
  }

  lemma EmptyText()
    ensures ByteLen("") == 0 && !HasSecret("") && Redact("") == ""
  {
    RedactWithoutSecret("");
  }

  /** The suffix from character `k` is the slice from its byte offset to the end. */
  lemma SliceToEnd(s: string, k: nat)
    requires k <= |s|
    ensures IsCharBoundary(s, ByteLen(s[..k])) && IsCharBoundary(s, ByteLen(s))
    ensures ByteLen(s[..k]) <= ByteLen(s) && Slice(s, ByteLen(s[..k]), ByteLen(s)) == s[k..]
  {
    hide ByteLen, IsCharBoundary, Slice;
    SliceAtOffsets(s, k, |s|);
    assert s[..|s|] == s && s[k..|s|] == s[k..];
  }

  /** What one iteration of the scanner copies and skips when the suffix from character `k` holds a secret shape. */
  lemma ScanStep(s: string, k: nat, span: (nat, nat)) returns (e: nat)
    requires k <= |s| && IsFirstSpan(s[k..], span)
    ensures k < e <= |s| && ByteLen(s[..e]) == ByteLen(s[..k]) + span.1
    ensures IsCharBoundary(s, ByteLen(s[..k])) && IsCharBoundary(s, ByteLen(s[..k]) + span.0)
    ensures Redact(s[k..]) == Slice(s, ByteLen(s[..k]), ByteLen(s[..k]) + span.0) + MARKER + Redact(s[e..])
  {
    hide ByteLen, IsCharBoundary, Slice, Redact, Secret, RunEnd;
    var suffix := s[k..];
    var f: nat :| FirstSecret(suffix, f) && span == (ByteLen(suffix[..f]), ByteLen(suffix[..RunEnd(suffix, f)]));
    RedactDecomposes(suffix, f);
    e := k + RunEnd(suffix, f);
    OffsetInSuffix(s, k, f);
    OffsetInSuffix(s, k, e - k);
    SliceAtOffsets(s, k, k + f);
    assert s[k..k + f] == suffix[..f] && s[e..] == suffix[e - k..];
  }

  /** Restarts the search behind each secret shape found; `cursor` is a byte offset. */
  method RedactSecretShapedValues(input: string) returns (output: string, redacted: bool)
    ensures output == Redact(input)
    ensures redacted <==> HasSecret(input)
    ensures ByteLen(output) <= ByteLen(input)
  {
    hide Redact, HasSecret, IsFirstSpan, ByteLen, Slice, IsCharBoundary;
    EmptyText();
    output, redacted := "", false;
    var cursor := 0;
    ghost var k := 0;
    assert input[..0] == "" && input[0..] == input && input[|input|..] == "";
    while cursor < ByteLen(input)
      invariant k <= |input| && cursor == ByteLen(input[..k])
      invariant Redact(input) == output + Redact(input[k..])
      invariant HasSecret(input) <==> redacted || HasSecret(input[k..])
      decreases |input| - k
    {
      SliceToEnd(input, k);
      var suffix := Slice(input, cursor, ByteLen(input));
      var found := FindSecretShapedSubstring(suffix);
      if found.Some? {
        var (start, end) := found.value;
        ghost var e := ScanStep(input, k, found.value);
        ghost var before, kept := output, Slice(input, cursor, cursor + start);
        assert before + (kept + MARKER + Redact(input[e..])) == before + kept + MARKER + Redact(input[e..]);
        output := output + Slice(input, cursor, cursor + start);
        output := output + MARKER;
        cursor := cursor + end;
        redacted := true;
        k := e;
      } else {
        RedactWithoutSecret(suffix);
        output := output + suffix;
        k := |input|;
        break;
      }
    }
    if cursor >= ByteLen(input) {
      EndOffset(input, k);
    }
    RedactByteBudget(input);
  }

  // ----- Records with redacted fields -----

  datatype LogChunk = LogChunk(jobId: string, runnerId: string, sequence: nat, stream: string, redacted: bool, line: string)

  datatype ArtifactDescriptor = ArtifactDescriptor(
    pathLabel: string, contentType: string, sizeBytes: nat, checksumSha256: string, retentionPolicy: string)

  datatype RunnerError = RunnerError(
    jobId: Option<string>, runnerId: string, category: string, retryable: bool, message: string)

  /** The flag tells exactly whether this pass or an earlier one removed something. */
  method RedactLogChunk(chunk: LogChunk) returns (r: LogChunk)
    ensures !HasSecret(r.line)
    ensures r == chunk.(line := Redact(chunk.line), redacted := chunk.redacted || HasSecret(chunk.line))
    ensures r == chunk <==> !HasSecret(chunk.line)
  {
    r := chunk;
    var line, redacted := RedactSecretShapedValues(chunk.line);
    r := r.(line := line);
    r := r.(redacted := r.redacted || redacted);
    RedactedTextIsClean(chunk.line);
    RedactChangesIffSecret(chunk.line);
  }

  method RedactArtifactDescriptor(descriptor: ArtifactDescriptor) returns (r: ArtifactDescriptor)
    ensures !HasSecret(r.pathLabel) && r == descriptor.(pathLabel := Redact(descriptor.pathLabel))
  {
    var pathLabel, _ := RedactSecretShapedValues(descriptor.pathLabel);
    r := descriptor.(pathLabel := pathLabel);
    RedactedTextIsClean(descriptor.pathLabel);
  }

  method RedactRunnerError(error: RunnerError) returns (r: RunnerError)
    ensures !HasSecret(r.message) && r == error.(message := Redact(error.message))
  {
    var message, _ := RedactSecretShapedValues(error.message);
    r := error.(message := message);
    RedactedTextIsClean(error.message);
  }
}
