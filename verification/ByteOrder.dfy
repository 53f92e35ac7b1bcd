/** Sorting keys character by character puts their UTF-8 bytes in order. */
module ByteOrder {
  import opened KeyOrder
  import opened Utf8

  /** At the first difference `x` has the smaller byte, or has already ended. */
  ghost predicate BytesBelow(x: seq<Byte>, y: seq<Byte>) {
    exists n :: 0 <= n <= |x| && n < |y| && x[..n] == y[..n] && (n == |x| || x[n] < y[n])
  }

  /** The keys' bytes ascend. */
  ghost predicate Ascending(keys: seq<string>) {
    forall i, j :: 0 <= i < j < |keys| ==> BytesBelow(Encode(keys[i]), Encode(keys[j]))
  }

  lemma BelowIsAsymmetric(x: seq<Byte>, y: seq<Byte>)
    requires BytesBelow(x, y)
    ensures !BytesBelow(y, x)
  {
    var n :| 0 <= n <= |x| && n < |y| && x[..n] == y[..n] && (n == |x| || x[n] < y[n]);
    SamePrefix(x, y, n);
    forall m | 0 <= m <= |y| && m < |x| && y[..m] == x[..m] ensures m < |y| && !(y[m] < x[m]) {
      SamePrefix(y, x, m);
    }
  }

  lemma SamePrefix(x: seq<Byte>, y: seq<Byte>, n: nat)
    requires n <= |x| && n <= |y| && x[..n] == y[..n]
    ensures forall k :: 0 <= k < n ==> x[k] == y[k]
  {
    assert forall k :: 0 <= k < n ==> x[k] == x[..n][k] && y[k] == y[..n][k];
  }

  lemma BelowBehindCommon(p: seq<Byte>, x: seq<Byte>, y: seq<Byte>)
    requires BytesBelow(x, y)
    ensures BytesBelow(p + x, p + y)
  {
    var n :| 0 <= n <= |x| && n < |y| && x[..n] == y[..n] && (n == |x| || x[n] < y[n]);
    var m := |p| + n;
    assert (p + x)[..m] == p + x[..n] && (p + y)[..m] == p + y[..n];
    assert m < |p + x| ==> (p + x)[m] == x[n];
    assert (p + y)[m] == y[n];
  }

  /** The bytes of two characters of one width first differ where their leading bits do. */
  lemma FirstDifference(c: char, d: char) returns (n: nat)
    requires c < d
    ensures n < |EncodeChar(c)| && n < |EncodeChar(d)|
    ensures (forall k :: 0 <= k < n ==> EncodeChar(c)[k] == EncodeChar(d)[k]) && EncodeChar(c)[n] < EncodeChar(d)[n]
  {
    hide SixBits;
    var u, v := c as int, d as int;
    if Width(c) < Width(d) || Width(c) == 1 {
      n := 0;
    } else {
      if u / 64 == v / 64 {
        SixBitsGrow(u, v);
      } else if u / 64 / 64 == v / 64 / 64 {
        SixBitsGrow(u / 64, v / 64);
      } else {
        SixBitsGrow(u / 64 / 64, v / 64 / 64);
      }
      n := Width(c) - 1 - (if u / 64 == v / 64 then 0 else if u / 64 / 64 == v / 64 / 64 then 1
                           else if u / 64 / 64 / 64 == v / 64 / 64 / 64 then 2 else 3);
    }
  }

  lemma SixBitsGrow(u: nat, v: nat)
    requires u <= v
    ensures u / 64 <= v / 64 && (u < v && u / 64 == v / 64 ==> SixBits(u) < SixBits(v))
  {
  }

  lemma CharBelow(c: char, d: char, x: seq<Byte>, y: seq<Byte>)
    requires c < d
    ensures BytesBelow(EncodeChar(c) + x, EncodeChar(d) + y)
  {
    hide EncodeChar;
    var n := FirstDifference(c, d);
    var s, t := EncodeChar(c) + x, EncodeChar(d) + y;
    assert forall k :: 0 <= k < n ==> s[k] == EncodeChar(c)[k] && t[k] == EncodeChar(d)[k];
    assert s[..n] == t[..n];
    assert s[n] == EncodeChar(c)[n] && t[n] == EncodeChar(d)[n];
  }

  lemma {:induction false} LeqIsBelow(a: string, b: string)
    requires Leq(a, b) && a != b
    ensures BytesBelow(Encode(a), Encode(b))
  {
    hide EncodeChar, BytesBelow;
    if a == "" {
      NothingIsBelow(b);
    } else if a[0] < b[0] {
      CharBelow(a[0], b[0], Encode(a[1..]), Encode(b[1..]));
    } else {
      assert a == [a[0]] + a[1..] && b == [b[0]] + b[1..];
      LeqIsBelow(a[1..], b[1..]);
      BelowBehindCommon(EncodeChar(a[0]), Encode(a[1..]), Encode(b[1..]));
    }
  }

  lemma NothingIsBelow(b: string)
    requires b != ""
    ensures BytesBelow(Encode(""), Encode(b))
  {
    var x, y := Encode(""), Encode(b);
    assert x[..0] == y[..0];
  }

  /** Comparing characters and comparing bytes agree. */
  lemma LeqIsByteOrder(a: string, b: string)
    requires a != b
    ensures Leq(a, b) <==> BytesBelow(Encode(a), Encode(b))
  {
    hide Leq, Encode, BytesBelow;
    LeqIsTotal(a, b);
    if Leq(a, b) {
      LeqIsBelow(a, b);
    } else {
      LeqIsBelow(b, a);
      BelowIsAsymmetric(Encode(b), Encode(a));
    }
  }

  lemma AscendingIffStrictlySorted(keys: seq<string>)
    ensures Ascending(keys) <==> StrictlySorted(keys)
  {
    hide Leq, Encode, BytesBelow;
    forall i, j | 0 <= i < j < |keys|
      ensures BytesBelow(Encode(keys[i]), Encode(keys[j])) <==> keys[i] != keys[j] && Leq(keys[i], keys[j])
    {
      if keys[i] == keys[j] {
        if BytesBelow(Encode(keys[i]), Encode(keys[j])) {
          BelowIsAsymmetric(Encode(keys[i]), Encode(keys[j]));
        }
      } else {
        LeqIsByteOrder(keys[i], keys[j]);
      }
    }
  }

  /** A sorted map lists its keys with ascending bytes. */
  lemma SortedKeysAscend(keys: set<string>)
    ensures Ascending(SortedKeys(keys))
  {
    hide Leq, Encode;
    SortedKeysAreSorted(keys);
    AscendingIffStrictlySorted(SortedKeys(keys));
  }
}
