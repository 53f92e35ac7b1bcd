/** Every run contains finitely many successful grants, and the initial state says how many at most. */
module LifecycleBound {
  import opened Lifecycle
  import opened LifecycleRuns
  import opened Wrappers

  /** Credentials that can still be granted. */
  ghost function Usable(w: World): set<string> {
    set c | c in w.credentials && w.credentials[c].active && w.now < w.credentials[c].expiresAtTick
  }

  /** Tokens that can still be used. */
  ghost function Fresh(w: World): set<string> {
    set t | t in w.tokens && w.tokens[t].usedByRunnerId.None? && w.now < w.tokens[t].expiresAtTick
  }

  /** The pairs of `x` with each element of `s`. */
  ghost function Row(x: string, s: set<string>): set<(string, string)> {
    set c | c in s :: (x, c)
  }

  ghost function Pairs(a: set<string>, b: set<string>): set<(string, string)> {
    set x, y | x in a && y in b :: (x, y)
  }

  /** A usable credential that a known runner could still rotate to. */
  ghost function Moves(w: World): set<(string, string)> {
    set r, c | r in w.runners && c in Usable(w) && w.runners[r].credentialRef != Some(c) :: (r, c)
  }

  /** A usable credential that a fresh token could still be registered with. */
  ghost function Offers(w: World): set<(string, string)> {
    Pairs(Fresh(w), Usable(w))
  }

  ghost function Measure(w: World): nat {
    |Moves(w)| + |Offers(w)|
  }

  lemma {:induction false} RowSize(x: string, s: set<string>)
    ensures |Row(x, s)| == |s|
  {
    if s == {} {
    } else {
      var c :| c in s;
      RowSize(x, s - {c});
      assert Row(x, s) == Row(x, s - {c}) + {(x, c)};
    }
  }

  lemma {:induction false} SubsetSize<T>(a: set<T>, b: set<T>)
    requires a <= b
    ensures |a| <= |b| && (|a| == |b| ==> a == b)
  {
    assert b == a + (b - a);
    assert |b| == |a| + |b - a|;
  }

  /** A successful registration uses up a whole row of offers. */
  lemma OffersAfterRegister(w: World, t: string, r: string, c: string)
    requires Register(w, t, r, c).1.Ok?
    ensures |Offers(Register(w, t, r, c).0)| + |Usable(w)| == |Offers(w)|
  {
    var v := Register(w, t, r, c).0;
    assert Usable(v) == Usable(w) && Fresh(v) == Fresh(w) - {t} && t in Fresh(w);
    RowSize(t, Usable(w));
    assert Offers(w) == Offers(v) + Row(t, Usable(w)) && Offers(v) !! Row(t, Usable(w));
  }

  /** It opens at most one move for every usable credential but the one it grants. */
  lemma MovesAfterRegister(w: World, t: string, r: string, c: string)
    requires Register(w, t, r, c).1.Ok?
    ensures |Moves(Register(w, t, r, c).0)| < |Moves(w)| + |Usable(w)|
  {
    var v := Register(w, t, r, c).0;
    assert Usable(v) == Usable(w) && c in Usable(w);
    RowSize(r, Usable(w) - {c});
    assert Moves(v) <= Moves(w) + Row(r, Usable(w) - {c});
    SubsetSize(Moves(v), Moves(w) + Row(r, Usable(w) - {c}));
  }

  /** Whatever a rotation does, no move and no offer appears; a successful one consumes the move it makes. */
  lemma RotateNeverRaisesMeasure(w: World, r: string, current: string, next: string)
    ensures Measure(Rotate(w, r, current, next).0) <= Measure(w)
    ensures Rotate(w, r, current, next).1.Ok? ==> Measure(Rotate(w, r, current, next).0) < Measure(w)
  {
    var (v, result) := Rotate(w, r, current, next);
    assert Usable(v) <= Usable(w);
    assert Fresh(v) == Fresh(w);
    assert Offers(v) <= Offers(w);
    assert Moves(v) <= Moves(w) by {
      if result.Ok? {
        assert current !in Usable(v);
      }
    }
    SubsetSize(Offers(v), Offers(w));
    SubsetSize(Moves(v), Moves(w));
    if result.Ok? {
      assert next in Usable(v) && w.runners[r].credentialRef != Some(next);
      assert (r, next) in Moves(w) && (r, next) !in Moves(v);
    }
  }

  lemma MeasureStep(w: World, op: Op)
    ensures Measure(Apply(w, op).0) + (if Apply(w, op).1.Ok? then 1 else 0) <= Measure(w)
  {
    hide Moves, Offers, Usable, Register, Rotate;
    match op {
      case RegisterOp(t, r, c) =>
        if Register(w, t, r, c).1.Ok? {
          OffersAfterRegister(w, t, r, c);
          MovesAfterRegister(w, t, r, c);
        } else {
          FailureLeavesTraceIff(w, op);
        }
      case RotateOp(r, current, next) =>
        RotateNeverRaisesMeasure(w, r, current, next);
    }
  }

  /** Number of successful calls among the first `n`. */
  ghost function GrantCount(w: World, ops: seq<Op>, n: nat): nat
    requires n <= |ops|
  {
    if n == 0 then 0 else GrantCount(w, ops, n - 1) + (if ResultAt(w, ops, n - 1).Ok? then 1 else 0)
  }

  /** However long the run, its grants are paid for by the measure of the initial state. */
  lemma {:induction false} GrantsAreBounded(w: World, ops: seq<Op>, n: nat)
    requires n <= |ops|
    ensures GrantCount(w, ops, n) + Measure(StateAt(w, ops, n)) <= Measure(w)
  {
    hide Measure, Apply;
    if n == 0 {
    } else {
      GrantsAreBounded(w, ops, n - 1);
      MeasureStep(StateAt(w, ops, n - 1), ops[n - 1]);
    }
  }

  lemma {:induction false} PairsSize(a: set<string>, b: set<string>)
    ensures |Pairs(a, b)| == |a| * |b|
  {
    if a == {} {
      assert Pairs(a, b) == {};
    } else {
      var x :| x in a;
      var rest := a - {x};
      PairsSize(rest, b);
      RowSize(x, b);
      PairsOfRest(a, b, x);
      assert |a| == |rest| + 1;
      assert |a| * |b| == |rest| * |b| + |b|;
    }
  }

  lemma PairsOfRest(a: set<string>, b: set<string>, x: string)
    requires x in a
    ensures |Pairs(a, b)| == |Pairs(a - {x}, b)| + |Row(x, b)|
  {
    assert Pairs(a, b) == Pairs(a - {x}, b) + Row(x, b);
    assert Pairs(a - {x}, b) !! Row(x, b);
  }

  lemma MeasureIsBounded(w: World)
    ensures Measure(w) <= |w.runners| * |Usable(w)| + |Fresh(w)| * |Usable(w)|
  {
    assert Moves(w) <= Pairs(w.runners.Keys, Usable(w));
    SubsetSize(Moves(w), Pairs(w.runners.Keys, Usable(w)));
    PairsSize(w.runners.Keys, Usable(w));
    PairsSize(Fresh(w), Usable(w));
    assert |w.runners.Keys| == |w.runners|;
  }

  /** The bound in plain numbers: one grant for each usable credential and each runner or fresh token. */
  lemma GrantsAreBoundedByCounts(w: World, ops: seq<Op>)
    ensures GrantCount(w, ops, |ops|) <= |w.runners| * |Usable(w)| + |Fresh(w)| * |Usable(w)|
  {
    hide Measure, Usable, Fresh, GrantCount;
    GrantsAreBounded(w, ops, |ops|);
    MeasureIsBounded(w);
  }
}
