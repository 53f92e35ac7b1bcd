/** What holds over every sequence of registrations and rotations, failed ones included. */
module LifecycleRuns {
  import opened Lifecycle
  import opened Wrappers

  datatype Op =
    | RegisterOp(tokenId: string, runnerId: string, credentialRef: string)
    | RotateOp(runnerId: string, current: string, next: string)

  function Apply(w: World, op: Op): (World, Result<Grant, LifecycleError>) {
    match op
    case RegisterOp(t, r, c) => Register(w, t, r, c)
    case RotateOp(r, current, next) => Rotate(w, r, current, next)
  }

  /** The state before call `n` of the run. */
  function StateAt(w: World, ops: seq<Op>, n: nat): World
    requires n <= |ops|
  {
    if n == 0 then w else Apply(StateAt(w, ops, n - 1), ops[n - 1]).0
  }

  function ResultAt(w: World, ops: seq<Op>, j: nat): Result<Grant, LifecycleError>
    requires j < |ops|
  {
    Apply(StateAt(w, ops, j), ops[j]).1
  }

  // ----- What one call can change -----

  /** A rotation that reaches the point where the current credential is given up, whatever happens next. */
  predicate Deactivates(w: World, op: Op) {
    op.RotateOp? && op.runnerId in w.runners && w.runners[op.runnerId].credentialRef == Some(op.current)
    && op.current in w.credentials
  }

  predicate GrantsTo(w: World, op: Op, r: string) {
    Apply(w, op).1.Ok? && op.runnerId == r
  }

  /** The next credential of a rotation cannot be granted once the current one is given up. */
  predicate NextIsUnusable(w: World, op: Op)
    requires op.RotateOp?
  {
    || op.next == op.current || op.next !in w.credentials
    || !w.credentials[op.next].active || w.credentials[op.next].expiresAtTick <= w.now
  }

  /**
   A call fails and still changes the state exactly when it is a rotation away from an active
   credential to an unusable one.
   */
  lemma FailureLeavesTraceIff(w: World, op: Op)
    ensures Apply(w, op).1.Err? && Apply(w, op).0 != w
            <==> Deactivates(w, op) && w.credentials[op.current].active && NextIsUnusable(w, op)
    ensures Apply(w, op).1.Err? ==> Apply(w, op).0 == w.(credentials := Apply(w, op).0.credentials)
  {
    if Deactivates(w, op) && !w.credentials[op.current].active {
      assert w.credentials[op.current := w.credentials[op.current]] == w.credentials;
    }
  }

  /** A runner that took leases loses its only credential to a rotation that fails. */
  lemma FailedRotationLeavesTrace()
    ensures var credential := Credential("current", 10, true, None);
            var runner := Runner("runner", Registered, None, Some("current"));
            var w := World(5, map[], map["current" := credential], map["runner" := runner]);
            var (v, result) := Apply(w, RotateOp("runner", "current", "next"));
            && Accepts(w, "runner") && result == Err(RunnerCredentialNotFound)
            && v == w.(credentials := map["current" := credential.(active := false)])
            && v != w && !Accepts(v, "runner")
  {
    var w := World(5, map[], map["current" := Credential("current", 10, true, None)],
                   map["runner" := Runner("runner", Registered, None, Some("current"))]);
    FailureLeavesTraceIff(w, RotateOp("runner", "current", "next"));
  }

  /** Credentials only ever lose their active flag, and exactly the given-up one loses it. */
  lemma CredentialStep(w: World, op: Op, c: string)
    ensures Apply(w, op).0.now == w.now
    ensures c in Apply(w, op).0.credentials <==> c in w.credentials
    ensures c in w.credentials ==>
      Apply(w, op).0.credentials[c] == if Deactivates(w, op) && c == op.current then w.credentials[c].(active := false)
                                       else w.credentials[c]
  {
  }

  /** Tokens only ever go from unused to used, by the runner of the registration that succeeds with them. */
  lemma TokenStep(w: World, op: Op, t: string)
    ensures t in Apply(w, op).0.tokens <==> t in w.tokens
    ensures t in w.tokens ==>
      Apply(w, op).0.tokens[t] == if op.RegisterOp? && op.tokenId == t && Apply(w, op).1.Ok?
                                  then w.tokens[t].(usedByRunnerId := Some(op.runnerId)) else w.tokens[t]
    ensures op.RegisterOp? && op.tokenId == t && Apply(w, op).1.Ok? ==>
      t in w.tokens && w.tokens[t].usedByRunnerId.None? && w.now < w.tokens[t].expiresAtTick
  {
  }

  /** A call touches at most the runner it names, and a grant names the credential that runner then holds. */
  lemma RunnerStep(w: World, op: Op, r: string)
    ensures var (v, result) := Apply(w, op);
            if GrantsTo(w, op, r) then
              && r in v.runners && v.runners[r].state == Registered && v.runners[r].credentialRef.Some?
              && result.value == Grant(r, v.runners[r].credentialRef.value)
              && result.value.credentialRef == (if op.RegisterOp? then op.credentialRef else op.next)
              && (op.RegisterOp? ==> v.runners[r].registrationTokenId == Some(op.tokenId))
              && (op.RotateOp? ==> r in w.runners && v.runners[r].registrationTokenId == w.runners[r].registrationTokenId)
            else
              (r in v.runners <==> r in w.runners) && (r in w.runners ==> v.runners[r] == w.runners[r])
  {
  }

  // ----- A credential once given up is dead -----

  ghost predicate Dead(w: World, c: string) {
    c in w.credentials && !w.credentials[c].active
  }

  /** After any rotation gave up a credential, it stays inactive, is never granted, and carries no lease. */
  lemma {:induction false} GivenUpCredentialIsDead(w: World, ops: seq<Op>, i: nat, n: nat, c: string)
    requires i < n <= |ops|
    requires Deactivates(StateAt(w, ops, i), ops[i]) && ops[i].current == c
    ensures Dead(StateAt(w, ops, n), c)
    ensures forall r :: r in StateAt(w, ops, n).runners && StateAt(w, ops, n).runners[r].credentialRef == Some(c)
                        ==> !Accepts(StateAt(w, ops, n), r)
    ensures ResultAt(w, ops, n - 1).Ok? ==> ResultAt(w, ops, n - 1).value.credentialRef != c
    decreases n
  {
    CredentialStep(StateAt(w, ops, n - 1), ops[n - 1], c);
    if i < n - 1 {
      GivenUpCredentialIsDead(w, ops, i, n - 1, c);
    }
  }

  // ----- When leases are accepted -----

  /** The call gives up the credential that `r` holds. */
  predicate KnocksOut(w: World, op: Op, r: string) {
    Deactivates(w, op) && r in w.runners && w.runners[r].credentialRef == Some(op.current)
  }

  /**
   One call makes a runner accept leases exactly by granting to it, and stops it exactly by giving up
   its credential.
   */
  lemma AcceptsStep(w: World, op: Op, r: string)
    ensures Accepts(Apply(w, op).0, r) <==> GrantsTo(w, op, r) || (Accepts(w, r) && !KnocksOut(w, op, r))
  {
  }

  /** Acceptance began at position `k` of the run: with the initial state, or with the grant of call `k - 1`. */
  ghost predicate BeginsAt(w: World, ops: seq<Op>, k: nat, r: string)
    requires k <= |ops|
  {
    if k == 0 then Accepts(w, r) else GrantsTo(StateAt(w, ops, k - 1), ops[k - 1], r)
  }

  ghost predicate UndisturbedFrom(w: World, ops: seq<Op>, k: nat, n: nat, r: string)
    requires n <= |ops|
  {
    forall j :: k <= j < n ==> !KnocksOut(StateAt(w, ops, j), ops[j], r)
  }

  /** Leases are accepted exactly when some grant, or the initial state, has not been disturbed since. */
  lemma {:induction false} AcceptsIffGrantedAndUndisturbed(w: World, ops: seq<Op>, n: nat, r: string)
    requires n <= |ops|
    ensures Accepts(StateAt(w, ops, n), r) <==>
            exists k :: 0 <= k <= n && BeginsAt(w, ops, k, r) && UndisturbedFrom(w, ops, k, n, r)
  {
    hide Accepts, Apply, Deactivates, GrantsTo;
    if n == 0 {
      assert UndisturbedFrom(w, ops, 0, 0, r);
      assert BeginsAt(w, ops, 0, r) <==> Accepts(w, r);
    } else {
      var v, op := StateAt(w, ops, n - 1), ops[n - 1];
      AcceptsIffGrantedAndUndisturbed(w, ops, n - 1, r);
      AcceptsStep(v, op, r);
      if GrantsTo(v, op, r) {
        assert BeginsAt(w, ops, n, r) && UndisturbedFrom(w, ops, n, n, r);
      } else if Accepts(v, r) && !KnocksOut(v, op, r) {
        var k :| 0 <= k <= n - 1 && BeginsAt(w, ops, k, r) && UndisturbedFrom(w, ops, k, n - 1, r);
        assert UndisturbedFrom(w, ops, k, n, r);
      }
      if k :| 0 <= k <= n && BeginsAt(w, ops, k, r) && UndisturbedFrom(w, ops, k, n, r) {
        if k < n {
          assert UndisturbedFrom(w, ops, k, n - 1, r);
        }
      }
    }
  }

  // ----- The record of a runner -----

  /** Call `k - 1` is the last one before `n` that grants to `r`. */
  ghost predicate LastGrant(w: World, ops: seq<Op>, k: nat, n: nat, r: string)
    requires 0 < k <= n <= |ops|
  {
    && GrantsTo(StateAt(w, ops, k - 1), ops[k - 1], r)
    && forall j :: k <= j < n ==> !GrantsTo(StateAt(w, ops, j), ops[j], r)
  }

  ghost predicate NeverGranted(w: World, ops: seq<Op>, n: nat, r: string)
    requires n <= |ops|
  {
    forall j :: 0 <= j < n ==> !GrantsTo(StateAt(w, ops, j), ops[j], r)
  }

  /**
   A runner's record is its initial one until a grant names it; from then on the runner is registered
   with the credential of the last grant to it.
   */
  lemma {:induction false} RunnerHistory(w: World, ops: seq<Op>, n: nat, r: string)
    requires n <= |ops|
    ensures NeverGranted(w, ops, n, r) ==>
      (r in StateAt(w, ops, n).runners <==> r in w.runners)
      && (r in w.runners ==> StateAt(w, ops, n).runners[r] == w.runners[r])
    ensures forall k :: 0 < k <= n && LastGrant(w, ops, k, n, r) ==>
      && r in StateAt(w, ops, n).runners && StateAt(w, ops, n).runners[r].state == Registered
      && StateAt(w, ops, n).runners[r].credentialRef == Some(ResultAt(w, ops, k - 1).value.credentialRef)
  {
    hide Apply;
    if n == 0 {
    } else {
      RunnerHistory(w, ops, n - 1, r);
      RunnerStep(StateAt(w, ops, n - 1), ops[n - 1], r);
      assert NeverGranted(w, ops, n, r) ==> NeverGranted(w, ops, n - 1, r);
      forall k | 0 < k < n && LastGrant(w, ops, k, n, r) ensures LastGrant(w, ops, k, n - 1, r) {
      }
      assert ResultAt(w, ops, n - 1) == Apply(StateAt(w, ops, n - 1), ops[n - 1]).1;
    }
  }

  // ----- Registration tokens -----

  predicate RegistersWith(w: World, ops: seq<Op>, j: nat, t: string)
    requires j < |ops|
  {
    ops[j].RegisterOp? && ops[j].tokenId == t && ResultAt(w, ops, j).Ok?
  }

  /** The token's history: untouched until a registration succeeds with it, and bound to that runner ever after. */
  lemma {:induction false} TokenHistory(w: World, ops: seq<Op>, n: nat, t: string)
    requires n <= |ops|
    ensures t in StateAt(w, ops, n).tokens <==> t in w.tokens
    ensures StateAt(w, ops, n).now == w.now
    ensures (forall j :: 0 <= j < n ==> !RegistersWith(w, ops, j, t)) && t in w.tokens ==>
      StateAt(w, ops, n).tokens[t] == w.tokens[t]
    ensures forall j :: 0 <= j < n && RegistersWith(w, ops, j, t) ==>
      && t in w.tokens && w.tokens[t].usedByRunnerId.None? && w.now < w.tokens[t].expiresAtTick
      && StateAt(w, ops, n).tokens[t] == w.tokens[t].(usedByRunnerId := Some(ops[j].runnerId))
  {
    hide Apply;
    if n == 0 {
    } else {
      TokenHistory(w, ops, n - 1, t);
      TokenStep(StateAt(w, ops, n - 1), ops[n - 1], t);
      CredentialStep(StateAt(w, ops, n - 1), ops[n - 1], "");
      assert RegistersWith(w, ops, n - 1, t) <==>
        ops[n - 1].RegisterOp? && ops[n - 1].tokenId == t && Apply(StateAt(w, ops, n - 1), ops[n - 1]).1.Ok?;
    }
  }

  /** A token backs at most one successful registration, and none when it starts used or expired. */
  lemma TokenIsSingleUse(w: World, ops: seq<Op>, i: nat, j: nat, t: string)
    requires i <= j < |ops| && RegistersWith(w, ops, i, t) && RegistersWith(w, ops, j, t)
    ensures i == j
    ensures t in w.tokens && w.tokens[t].usedByRunnerId.None? && w.now < w.tokens[t].expiresAtTick
  {
    hide StateAt;
    TokenHistory(w, ops, j, t);
    TokenStep(StateAt(w, ops, j), ops[j], t);
  }

  /** The runner's recorded token names the runner as its user. */
  ghost predicate TokenPointsBack(w: World, r: string) {
    && r in w.runners && w.runners[r].registrationTokenId.Some?
    && w.runners[r].registrationTokenId.value in w.tokens
    && w.tokens[w.runners[r].registrationTokenId.value].usedByRunnerId == Some(r)
  }

  lemma TokenPointsBackStep(w: World, op: Op, r: string)
    requires TokenPointsBack(w, r) || (op.RegisterOp? && GrantsTo(w, op, r))
    ensures TokenPointsBack(Apply(w, op).0, r)
  {
  }

  /** A runner registered in the run keeps a token that points back to it, through rotations and re-registrations. */
  lemma {:induction false} RegisteredTokenPointsBack(w: World, ops: seq<Op>, i: nat, n: nat)
    requires i < n <= |ops| && ops[i].RegisterOp? && ResultAt(w, ops, i).Ok?
    ensures TokenPointsBack(StateAt(w, ops, n), ops[i].runnerId)
    decreases n
  {
    hide Apply, TokenPointsBack;
    if i < n - 1 {
      RegisteredTokenPointsBack(w, ops, i, n - 1);
    }
    TokenPointsBackStep(StateAt(w, ops, n - 1), ops[n - 1], ops[i].runnerId);
  }
}
