/**
 Strings built from identifiers, and when they tell the identifiers apart (`src/dispatch_auth.rs`,
 `src/isolation.rs`).
 */
module Labels {
  import opened Dispatch
  import opened Whitespace

  /** `sep` occurs in `s` at position `p`. */
  predicate OccursAt(sep: string, s: string, p: nat) {
    p + |sep| <= |s| && s[p..p + |sep|] == sep
  }

  /** A separator splits a text in one way only exactly when it occurs in it only once. */
  lemma SplitIsUniqueIff(a: string, sep: string, b: string)
    ensures (forall x, y :: x + sep + y == a + sep + b ==> x == a && y == b)
            <==> (forall p :: 0 <= p && OccursAt(sep, a + sep + b, p) ==> p == |a|)
  {
    var s := a + sep + b;
    if forall x, y :: x + sep + y == s ==> x == a && y == b {
      forall p | 0 <= p && OccursAt(sep, s, p) ensures p == |a| {
        assert s == s[..p] + sep + s[p + |sep|..];
      }
    }
    if forall p :: 0 <= p && OccursAt(sep, s, p) ==> p == |a| {
      forall x, y | x + sep + y == s ensures x == a && y == b {
        assert s[|x|..|x| + |sep|] == sep by { assert (x + sep + y)[|x|..|x| + |sep|] == sep; }
        assert OccursAt(sep, s, |x|);
        assert x == s[..|x|] && a == s[..|a|];
        assert y == s[|x| + |sep|..] && b == s[|a| + |sep|..];
      }
    }
  }

  // ----- Replay keys -----

  datatype Identity = Identity(runnerId: string, jobId: string, idempotencyKey: string)

  function IdentityOf(d: JobDispatch): Identity {
    Identity(d.runnerId, d.jobId, d.idempotencyKey)
  }

  function IdentityKey(i: Identity): string {
    i.runnerId + ":" + i.jobId + ":" + i.idempotencyKey
  }

  predicate ColonFree(s: string) {
    ':' !in s
  }

  /** Text up to the first separator is determined when that text does not contain it. */
  lemma FirstFieldIsDetermined(a: string, x: string, b: string, y: string)
    requires ColonFree(a) && ColonFree(b) && a + ":" + x == b + ":" + y
    ensures a == b && x == y
  {
    var s := a + ":" + x;
    assert s[|a|] == ':' && s[|b|] == ':' by { assert (b + ":" + y)[|b|] == ':'; }
    assert forall i :: 0 <= i < |a| ==> s[i] == a[i];
    assert forall i :: 0 <= i < |b| ==> s[i] == b[i] by {
      assert forall i :: 0 <= i < |b| ==> (b + ":" + y)[i] == b[i];
    }
    assert a == s[..|a|] && b == (b + ":" + y)[..|b|];
    assert x == s[|a| + 1..] && y == (b + ":" + y)[|b| + 1..];
  }

  /** The identities have the same runner, or runners without colons, and their jobs contain no colon. */
  predicate Separable(a: Identity, b: Identity) {
    && (a.runnerId == b.runnerId || (ColonFree(a.runnerId) && ColonFree(b.runnerId)))
    && ColonFree(a.jobId) && ColonFree(b.jobId)
  }

  lemma ReplayKeysSeparate(a: Identity, b: Identity)
    requires Separable(a, b)
    ensures IdentityKey(a) == IdentityKey(b) <==> a == b
  {
    if IdentityKey(a) == IdentityKey(b) {
      if a.runnerId == b.runnerId {
        OneRunnerKeysAgreeIff(a, b);
      } else {
        assert a.runnerId + ":" + JobKey(a) == IdentityKey(a) && b.runnerId + ":" + JobKey(b) == IdentityKey(b);
        FirstFieldIsDetermined(a.runnerId, JobKey(a), b.runnerId, JobKey(b));
      }
      FirstFieldIsDetermined(a.jobId, a.idempotencyKey, b.jobId, b.idempotencyKey);
    }
  }

  // ----- Which identities own their replay key -----

  /** An identity that passes the check for required fields. */
  predicate Admissible(i: Identity) {
    !Blank(i.runnerId) && !Blank(i.jobId) && !Blank(i.idempotencyKey)
  }

  /** The colons at `p` and `q` cut the key into three parts that are not blank. */
  predicate CutsKey(key: string, p: nat, q: nat) {
    && p < q < |key| && key[p] == ':' && key[q] == ':'
    && !Blank(key[..p]) && !Blank(key[p + 1..q]) && !Blank(key[q + 1..])
  }

  /** The parts of an identity, cut out of its key. */
  lemma PartsOfKey(i: Identity)
    ensures var s, p := IdentityKey(i), |i.runnerId|;
            var q := p + 1 + |i.jobId|;
            q < |s| && s[p] == ':' && s[q] == ':' && i == Identity(s[..p], s[p + 1..q], s[q + 1..])
  {
  }

  lemma KeyOfParts(s: string, p: nat, q: nat)
    requires p < q < |s| && s[p] == ':' && s[q] == ':'
    ensures IdentityKey(Identity(s[..p], s[p + 1..q], s[q + 1..])) == s
  {
  }

  /**
   An admissible identity owns its replay key exactly when no other two colons of the key cut it into
   parts that are not blank.
   */
  lemma ReplayKeyIsOwnedIff(i: Identity)
    requires Admissible(i)
    ensures (forall other :: Admissible(other) && IdentityKey(other) == IdentityKey(i) ==> other == i)
            <==> (forall p: nat, q: nat :: CutsKey(IdentityKey(i), p, q) ==> p == |i.runnerId| && q == p + 1 + |i.jobId|)
  {
    hide IdentityKey, Blank;
    var s := IdentityKey(i);
    PartsOfKey(i);
    if forall other :: Admissible(other) && IdentityKey(other) == s ==> other == i {
      forall p: nat, q: nat | CutsKey(s, p, q) ensures p == |i.runnerId| && q == p + 1 + |i.jobId| {
        KeyOfParts(s, p, q);
        var other := Identity(s[..p], s[p + 1..q], s[q + 1..]);
        assert Admissible(other);
        assert |other.runnerId| == p && |other.jobId| == q - p - 1;
      }
    }
    if forall p: nat, q: nat :: CutsKey(s, p, q) ==> p == |i.runnerId| && q == p + 1 + |i.jobId| {
      forall other | Admissible(other) && IdentityKey(other) == s ensures other == i {
        PartsOfKey(other);
        assert CutsKey(s, |other.runnerId|, |other.runnerId| + 1 + |other.jobId|);
      }
    }
  }

  /** Job and idempotency key, as they stand behind the runner in the replay key. */
  function JobKey(i: Identity): string {
    i.jobId + ":" + i.idempotencyKey
  }

  /** The colon at `p` cuts the rest of the key into two parts that are not blank. */
  predicate CutsJobKey(key: string, p: nat) {
    p < |key| && key[p] == ':' && !Blank(key[..p]) && !Blank(key[p + 1..])
  }

  /** For one runner, whatever its identifier contains, only job and idempotency key matter. */
  lemma OneRunnerKeysAgreeIff(a: Identity, b: Identity)
    requires a.runnerId == b.runnerId
    ensures IdentityKey(a) == IdentityKey(b) <==> JobKey(a) == JobKey(b)
  {
    var prefix := a.runnerId + ":";
    assert IdentityKey(a) == prefix + JobKey(a) && IdentityKey(b) == prefix + JobKey(b);
    if IdentityKey(a) == IdentityKey(b) {
      assert JobKey(a) == IdentityKey(a)[|prefix|..] && JobKey(b) == IdentityKey(b)[|prefix|..];
    }
  }

  /** Among the identities of one runner, an identity owns its key exactly when no other colon cuts job and key. */
  lemma OneRunnerKeyIsOwnedIff(i: Identity)
    requires Admissible(i)
    ensures (forall other :: Admissible(other) && other.runnerId == i.runnerId && IdentityKey(other) == IdentityKey(i) ==> other == i)
            <==> (forall p: nat :: CutsJobKey(JobKey(i), p) ==> p == |i.jobId|)
  {
    hide IdentityKey, Blank;
    var s := JobKey(i);
    if forall other :: Admissible(other) && other.runnerId == i.runnerId && IdentityKey(other) == IdentityKey(i) ==> other == i {
      forall p: nat | CutsJobKey(s, p) ensures p == |i.jobId| {
        var other := Identity(i.runnerId, s[..p], s[p + 1..]);
        assert JobKey(other) == s;
        OneRunnerKeysAgreeIff(other, i);
        assert |other.jobId| == p;
      }
    }
    if forall p: nat :: CutsJobKey(s, p) ==> p == |i.jobId| {
      forall other | Admissible(other) && other.runnerId == i.runnerId && IdentityKey(other) == IdentityKey(i)
        ensures other == i
      {
        OneRunnerKeysAgreeIff(other, i);
        JobKeyCut(other);
        JobKeyCut(i);
        assert CutsJobKey(s, |other.jobId|);
      }
    }
  }

  lemma JobKeyCut(i: Identity)
    ensures var s, p := JobKey(i), |i.jobId|;
            p < |s| && s[p] == ':' && i.jobId == s[..p] && i.idempotencyKey == s[p + 1..]
  {
  }

  /** A colon alone does no harm: this identity contains one and still owns its key. */
  lemma TrailingColonIsHarmless(other: Identity)
    requires Admissible(other) && IdentityKey(other) == IdentityKey(Identity("r", "j", "k:"))
    ensures other == Identity("r", "j", "k:")
  {
    var s := IdentityKey(other);
    assert s == "r:j:k:";
    PartsOfKey(other);
    var p := |other.runnerId|;
    var q := p + 1 + |other.jobId|;
    assert s[0] != ':' && s[2] != ':' && s[4] != ':';
    assert |other.idempotencyKey| > 0;
    assert p == 1 && q == 3;
  }

  // ----- Workspace and artifact labels -----

  function WorkspaceRootLabel(jobId: string, workspaceId: string): string {
    "jobs/" + jobId + "/workspaces/" + workspaceId
  }

  function ArtifactRootLabel(jobId: string): string {
    "jobs/" + jobId + "/artifacts"
  }

  /** Where each part of the labels stands. */
  lemma LabelParts(jobId: string, workspaceId: string)
    ensures var w, a, n := WorkspaceRootLabel(jobId, workspaceId), ArtifactRootLabel(jobId), |jobId|;
            && |w| == 17 + n + |workspaceId| && w[..5] == "jobs/" && w[5..5 + n] == jobId
            && w[5 + n..17 + n] == "/workspaces/" && w[17 + n..] == workspaceId
            && |a| == 15 + n && a[..5] == "jobs/" && a[5..5 + n] == jobId && a[5 + n..] == "/artifacts"
  {
  }

  /** Jobs never share an artifact root, whatever their identifiers contain. */
  lemma ArtifactLabelsSeparate(a: string, b: string)
    ensures ArtifactRootLabel(a) == ArtifactRootLabel(b) <==> a == b
  {
    var x, y := ArtifactRootLabel(a), ArtifactRootLabel(b);
    assert a == x[5..|x| - 10] && b == y[5..|y| - 10];
  }

  /** A job and workspace own their label exactly when the separator occurs only once behind the fixed prefix. */
  lemma WorkspaceLabelIsUnambiguousIff(jobId: string, workspaceId: string)
    ensures (forall j, w :: WorkspaceRootLabel(j, w) == WorkspaceRootLabel(jobId, workspaceId) ==> j == jobId && w == workspaceId)
            <==> (forall p :: 0 <= p && OccursAt("/workspaces/", jobId + "/workspaces/" + workspaceId, p) ==> p == |jobId|)
  {
    hide OccursAt;
    SplitIsUniqueIff(jobId, "/workspaces/", workspaceId);
    forall j: string, w: string
      ensures WorkspaceRootLabel(j, w) == WorkspaceRootLabel(jobId, workspaceId)
              <==> j + "/workspaces/" + w == jobId + "/workspaces/" + workspaceId
    {
      LabelTail(j, w);
      LabelTail(jobId, workspaceId);
    }
    var s := jobId + "/workspaces/" + workspaceId;
    if forall x, y :: x + "/workspaces/" + y == s ==> x == jobId && y == workspaceId {
      forall j, w | WorkspaceRootLabel(j, w) == WorkspaceRootLabel(jobId, workspaceId) ensures j == jobId && w == workspaceId {
        assert j + "/workspaces/" + w == s;
      }
    }
    if forall j, w :: WorkspaceRootLabel(j, w) == WorkspaceRootLabel(jobId, workspaceId) ==> j == jobId && w == workspaceId {
      forall x, y | x + "/workspaces/" + y == s ensures x == jobId && y == workspaceId {
        assert WorkspaceRootLabel(x, y) == WorkspaceRootLabel(jobId, workspaceId);
      }
    }
  }

  /** Two jobs, each with its own workspace, that are given the same workspace root. */
  lemma WorkspaceLabelsCanCollide()
    ensures WorkspaceRootLabel("a", "b/workspaces/c") == WorkspaceRootLabel("a/workspaces/b", "c") && "a" != "a/workspaces/b"
  {
    LabelsCollide("a", "b", "c");
    assert "a" + "/workspaces/" + "b" == "a/workspaces/b" && "b" + "/workspaces/" + "c" == "b/workspaces/c";
  }

  lemma LabelsCollide(a: string, b: string, c: string)
    ensures WorkspaceRootLabel(a, b + "/workspaces/" + c) == WorkspaceRootLabel(a + "/workspaces/" + b, c)
  {
    var sep := "/workspaces/";
    assert "jobs/" + a + sep + (b + sep + c) == "jobs/" + (a + sep + b) + sep + c;
  }

  lemma LabelTail(j: string, w: string)
    ensures WorkspaceRootLabel(j, w) == "jobs/" + (j + "/workspaces/" + w)
    ensures WorkspaceRootLabel(j, w)[5..] == j + "/workspaces/" + w
  {
  }

  /** Jobs whose identifiers contain no slash share no workspace root, and none with an artifact root. */
  lemma SlashFreeJobsAreSeparate(a: string, v: string, b: string, w: string)
    requires '/' !in a && '/' !in b
    ensures WorkspaceRootLabel(a, v) == WorkspaceRootLabel(b, w) <==> a == b && v == w
    ensures WorkspaceRootLabel(a, v) != ArtifactRootLabel(b)
  {
    var x, y, z := WorkspaceRootLabel(a, v), WorkspaceRootLabel(b, w), ArtifactRootLabel(b);
    assert x[5 + |a|] == '/' && x[6 + |a|] == 'w';
    assert y[5 + |b|] == '/';
    assert z[5 + |b|] == '/' && z[6 + |b|] == 'a';
    assert forall i :: 0 <= i < |a| ==> x[5 + i] == a[i];
    assert forall i :: 0 <= i < |b| ==> y[5 + i] == b[i] && z[5 + i] == b[i];
    if x == y {
      assert |a| == |b|;
      assert a == x[5..5 + |a|] && b == y[5..5 + |b|];
      assert v == x[17 + |a|..] && w == y[17 + |b|..];
    }
  }
}
