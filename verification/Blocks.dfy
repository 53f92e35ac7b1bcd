/**
 Rendering a text in which some intervals are erased.  `ends[p]` is the end of the interval that
 starts at position `p`, or at most `p` when none does; intervals may nest and overlap.
 */
module Blocks {

  /** Some interval contains position `i`. */
  ghost predicate Covered(ends: seq<nat>, i: int) {
    exists p :: 0 <= p <= i && p < |ends| && i < ends[p]
  }

  /** Position `i` is the first of a maximal block of covered positions. */
  ghost predicate OpensBlock(ends: seq<nat>, i: int) {
    Covered(ends, i) && !Covered(ends, i - 1)
  }

  /** What position `i` contributes to the rendered text. */
  ghost function Emit(s: string, ends: seq<nat>, i: nat, marker: string): string
    requires i < |s|
  {
    if !Covered(ends, i) then [s[i]] else if OpensBlock(ends, i) then marker else ""
  }

  ghost function Render(s: string, ends: seq<nat>, n: nat, marker: string): string
    requires n <= |s|
  {
    if n == 0 then "" else Render(s, ends, n - 1, marker) + Emit(s, ends, n - 1, marker)
  }

  ghost function BlockCount(ends: seq<nat>, n: nat): nat {
    if n == 0 then 0 else BlockCount(ends, n - 1) + (if OpensBlock(ends, n - 1) then 1 else 0)
  }

  /** A stretch without covered positions is rendered as it is. */
  lemma {:induction false} RenderKeptStretch(s: string, ends: seq<nat>, a: nat, b: nat, marker: string)
    requires a <= b <= |s| && forall i :: a <= i < b ==> !Covered(ends, i)
    ensures Render(s, ends, b, marker) == Render(s, ends, a, marker) + s[a..b]
    ensures BlockCount(ends, b) == BlockCount(ends, a)
  {
    if a == b {
      assert s[a..b] == "";
    } else {
      RenderKeptStretch(s, ends, a, b - 1, marker);
      assert s[a..b] == s[a..b - 1] + [s[b - 1]];
    }
  }

  /** Every maximal block of covered positions, wherever it is, is rendered as one marker. */
  lemma {:induction false} RenderErasedBlock(s: string, ends: seq<nat>, a: nat, b: nat, marker: string)
    requires a < b <= |s| && !Covered(ends, a - 1) && forall i :: a <= i < b ==> Covered(ends, i)
    ensures Render(s, ends, b, marker) == Render(s, ends, a, marker) + marker
    ensures BlockCount(ends, b) == BlockCount(ends, a) + 1
    decreases b
  {
    hide Covered;
    if b == a + 1 {
      assert OpensBlock(ends, a);
    } else {
      RenderErasedBlock(s, ends, a, b - 1, marker);
      assert !OpensBlock(ends, b - 1);
    }
  }

  lemma RenderUncovered(s: string, ends: seq<nat>, n: nat, marker: string)
    requires n <= |s| && n <= |ends|
    requires forall q :: 0 <= q < n ==> ends[q] <= q
    ensures Render(s, ends, n, marker) == s[..n] && BlockCount(ends, n) == 0
  {
    assert forall i :: 0 <= i < n ==> !Covered(ends, i);
    RenderKeptStretch(s, ends, 0, n, marker);
  }

  /** [f, e) is the first block, and no interval crosses its end. */
  ghost predicate FirstBlock(ends: seq<nat>, f: nat, e: nat) {
    && f < e <= |ends|
    && (forall q :: 0 <= q < f ==> ends[q] <= q)
    && ends[f] == e
    && (forall q :: f <= q < e ==> ends[q] <= e)
    && (e < |ends| ==> ends[e] <= e)
  }

  lemma FirstBlockBounds(ends: seq<nat>, f: nat, e: nat)
    requires FirstBlock(ends, f, e)
    ensures f < e <= |ends|
  {
  }

  /** `rest` gives the intervals from position `e` on, counted from there. */
  ghost predicate IsTail(ends: seq<nat>, e: nat, rest: seq<nat>) {
    e + |rest| == |ends| && forall k :: 0 <= k < |rest| ==> ends[e + k] == e + rest[k]
  }

  /** Coverage, seen from the end of the first block. */
  lemma CoveredAroundFirst(ends: seq<nat>, f: nat, e: nat, rest: seq<nat>, i: int)
    requires FirstBlock(ends, f, e) && i < |ends|
    requires IsTail(ends, e, rest)
    ensures Covered(ends, i) == (if i < f then false else if i < e then true else Covered(rest, i - e))
    ensures i == e ==> !Covered(ends, i)
  {
    if f <= i < e {
      assert i < ends[f];
    }
    if Covered(ends, i) {
      var p :| 0 <= p <= i && p < |ends| && i < ends[p];
      if e <= p {
        assert ends[e + (p - e)] == e + rest[p - e];
      }
    }
    if e <= i && Covered(rest, i - e) {
      var p :| 0 <= p <= i - e && p < |rest| && i - e < rest[p];
      assert i < ends[e + p];
    }
  }

  lemma EmitAroundFirst(s: string, ends: seq<nat>, f: nat, e: nat, rest: seq<nat>, i: nat, marker: string)
    requires FirstBlock(ends, f, e) && |ends| == |s| && i < |s|
    requires IsTail(ends, e, rest)
    ensures i < f ==> Emit(s, ends, i, marker) == [s[i]] && !OpensBlock(ends, i)
    ensures i == f ==> Emit(s, ends, i, marker) == marker && OpensBlock(ends, i)
    ensures f < i < e ==> Emit(s, ends, i, marker) == "" && !OpensBlock(ends, i)
    ensures e <= i ==> Emit(s, ends, i, marker) == Emit(s[e..], rest, i - e, marker)
                       && OpensBlock(ends, i) == OpensBlock(rest, i - e)
  {
    CoveredAroundFirst(ends, f, e, rest, i);
    CoveredAroundFirst(ends, f, e, rest, i - 1);
    if i == e {
      assert !Covered(rest, -1);
    }
  }

  /** Rendering up to `n` keeps what precedes the first block, marks the block, and renders what follows. */
  lemma {:induction false} RenderFromFirst(s: string, ends: seq<nat>, f: nat, e: nat, rest: seq<nat>, n: nat,
                                           marker: string)
    requires FirstBlock(ends, f, e) && |ends| == |s| && e <= n <= |s|
    requires IsTail(ends, e, rest)
    ensures Render(s, ends, n, marker) == s[..f] + marker + Render(s[e..], rest, n - e, marker)
    ensures BlockCount(ends, n) == 1 + BlockCount(rest, n - e)
    decreases n
  {
    hide Emit, OpensBlock, Covered, FirstBlock, IsTail;
    assert f < e by { FirstBlockBounds(ends, f, e); }
    if n == e {
      RenderFirstBlock(s, ends, f, e, marker);
      assert s[..f] + marker + "" == s[..f] + marker;
    } else {
      RenderFromFirst(s, ends, f, e, rest, n - 1, marker);
      EmitAroundFirst(s, ends, f, e, rest, n - 1, marker);
      var head, before, last := s[..f] + marker, Render(s[e..], rest, n - 1 - e, marker), Emit(s, ends, n - 1, marker);
      assert head + before + last == head + (before + last);
    }
  }

  lemma RenderFirstBlock(s: string, ends: seq<nat>, f: nat, e: nat, marker: string)
    requires FirstBlock(ends, f, e) && |ends| == |s|
    ensures Render(s, ends, e, marker) == s[..f] + marker && BlockCount(ends, e) == 1
  {
    RenderUncovered(s, ends, f, marker);
    assert forall i :: f <= i < e ==> Covered(ends, i) by {
      assert ends[f] == e;
    }
    assert !Covered(ends, f - 1);
    RenderErasedBlock(s, ends, f, e, marker);
  }
}
