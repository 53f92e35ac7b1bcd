/**
 Byte offsets into a string.  The source slices `&str` values by byte offset, which is defined only
 at character boundaries of the UTF-8 encoding (section 4 of RFC 3629).  Strings are sequences of
 Unicode scalar values here, and the number of bytes each one takes is explicit.
 */
module Utf8 {

  /** Number of bytes that encode one character. */
  function Width(c: char): (w: nat)
    ensures 1 <= w <= 4
  {
    if c as int < 0x80 then 1
    else if c as int < 0x800 then 2
    else if c as int < 0x10000 then 3
    else 4
  }

  newtype Byte = b: int | 0 <= b < 256

  /** The bytes of one character: a lead byte that tells how many follow, and six bits in each of those. */
  function EncodeChar(c: char): (bytes: seq<Byte>)
    ensures |bytes| == Width(c)
  {
    var u := c as int;
    if u < 0x80 then [u as Byte]
    else if u < 0x800 then [(0xC0 + u / 64) as Byte, SixBits(u)]
    else if u < 0x10000 then [(0xE0 + u / 64 / 64) as Byte, SixBits(u / 64), SixBits(u)]
    else [(0xF0 + u / 64 / 64 / 64) as Byte, SixBits(u / 64 / 64), SixBits(u / 64), SixBits(u)]
  }

  /** A following byte carries the low six bits. */
  function SixBits(u: nat): Byte {
    (0x80 + u % 64) as Byte
  }

  lemma SixBitsAndRest(u: nat, v: nat)
    requires SixBits(u) == SixBits(v) && u / 64 == v / 64
    ensures u == v
  {
  }

  /**
   The table in section 3 of RFC 3629: the lead byte opens with the bits 0, 110, 1110 or 11110, every
   following byte with 10, and the remaining bits are those of the character.
   */
  lemma EncodeCharFollowsTable(c: char)
    ensures var p, u := EncodeChar(c), c as int;
            match |p|
            case 1 => u <= 0x7F && p[0] as int == u
            case 2 =>
              && 0x80 <= u <= 0x7FF && 0xC0 <= p[0] <= 0xDF && 0x80 <= p[1] <= 0xBF
              && u == (p[0] - 0xC0) as int * 0x40 + (p[1] - 0x80) as int
            case 3 =>
              && 0x800 <= u <= 0xFFFF && 0xE0 <= p[0] <= 0xEF && 0x80 <= p[1] <= 0xBF && 0x80 <= p[2] <= 0xBF
              && u == (p[0] - 0xE0) as int * 0x1000 + (p[1] - 0x80) as int * 0x40 + (p[2] - 0x80) as int
            case _ =>
              && |p| == 4 && 0x10000 <= u && 0xF0 <= p[0] <= 0xF4 && 0x80 <= p[1] <= 0xBF && 0x80 <= p[2] <= 0xBF
              && 0x80 <= p[3] <= 0xBF
              && u == (p[0] - 0xF0) as int * 0x40000 + (p[1] - 0x80) as int * 0x1000
                      + (p[2] - 0x80) as int * 0x40 + (p[3] - 0x80) as int
  {
  }

  /** The bytes of a string. */
  function Encode(s: string): seq<Byte> {
    if s == "" then [] else EncodeChar(s[0]) + Encode(s[1..])
  }

  /** The lead byte determines the width, and the bytes together the character. */
  lemma EncodeCharIsPrefixCode(c: char, d: char, x: seq<Byte>, y: seq<Byte>)
    requires EncodeChar(c) + x == EncodeChar(d) + y
    ensures c == d && x == y
  {
    var p, q, s, t := EncodeChar(c), EncodeChar(d), EncodeChar(c) + x, EncodeChar(d) + y;
    assert p[0] == s[0] == t[0] == q[0];
    assert |p| == |q|;
    assert forall i :: 0 <= i < |p| ==> p[i] == s[i] && q[i] == t[i];
    assert x == s[|p|..] && y == t[|p|..];
    SameBytesSameChar(c, d);
  }

  lemma SameBytesSameChar(c: char, d: char)
    requires |EncodeChar(c)| == |EncodeChar(d)|
    requires forall i :: 0 <= i < |EncodeChar(c)| ==> EncodeChar(c)[i] == EncodeChar(d)[i]
    ensures c == d
  {
    hide SixBits;
    var p, q, u, v := EncodeChar(c), EncodeChar(d), c as int, d as int;
    assert p[0] == q[0];
    if |p| > 3 {
      assert p[1] == q[1];
      SixBitsAndRest(u / 64 / 64, v / 64 / 64);
    }
    if |p| > 2 {
      assert p[|p| - 2] == q[|p| - 2];
      SixBitsAndRest(u / 64, v / 64);
    }
    if |p| > 1 {
      assert p[|p| - 1] == q[|p| - 1];
      SixBitsAndRest(u, v);
    }
  }

  /** Different strings have different bytes. */
  lemma {:induction false} EncodeIsInjective(s: string, t: string)
    requires Encode(s) == Encode(t)
    ensures s == t
  {
    hide EncodeChar;
    if s == "" || t == "" {
    } else {
      EncodeCharIsPrefixCode(s[0], t[0], Encode(s[1..]), Encode(t[1..]));
      EncodeIsInjective(s[1..], t[1..]);
      assert s == [s[0]] + s[1..] && t == [t[0]] + t[1..];
    }
  }

  /** Length of a string in bytes. */
  function ByteLen(s: string): nat {
    if s == "" then 0 else Width(s[0]) + ByteLen(s[1..])
  }

  lemma {:induction false} ByteLenIsEncodedLength(s: string)
    ensures ByteLen(s) == |Encode(s)|
  {
    hide EncodeChar;
    if s == "" {
    } else {
      ByteLenIsEncodedLength(s[1..]);
    }
  }

  lemma {:induction false} ByteLenAppend(s: string, t: string)
    ensures ByteLen(s + t) == ByteLen(s) + ByteLen(t)
  {
    if s == "" {
      assert s + t == t;
    } else {
      ByteLenAppend(s[1..], t);
      assert (s + t)[1..] == s[1..] + t;
    }
  }

  lemma {:induction false} ByteLenAtLeastLength(s: string)
    ensures |s| <= ByteLen(s)
  {
    if s == "" {
    } else {
      ByteLenAtLeastLength(s[1..]);
    }
  }

  lemma {:induction false} ByteLenOfAscii(s: string)
    requires forall i :: 0 <= i < |s| ==> s[i] as int < 0x80
    ensures ByteLen(s) == |s|
  {
    if s == "" {
    } else {
      ByteLenOfAscii(s[1..]);
    }
  }

  /** Byte offset `b` falls between two characters of `s`, or at one of its ends. */
  ghost predicate IsCharBoundary(s: string, b: nat) {
    exists i :: 0 <= i <= |s| && ByteLen(s[..i]) == b
  }

  lemma OffsetsIncrease(s: string, i: nat, j: nat)
    requires i < j <= |s|
    ensures ByteLen(s[..i]) < ByteLen(s[..j])
  {
    assert s[..j] == s[..i] + s[i..j];
    ByteLenAppend(s[..i], s[i..j]);
    ByteLenAtLeastLength(s[i..j]);
  }

  function CharIndexFrom(s: string, b: nat, i: nat): (k: nat)
    requires i <= |s| && exists j :: i <= j <= |s| && ByteLen(s[..j]) == b
    ensures i <= k <= |s| && ByteLen(s[..k]) == b
    decreases |s| - i
  {
    if ByteLen(s[..i]) == b then i else CharIndexFrom(s, b, i + 1)
  }

  /** The slice `&s[lo..hi]`.  The precondition is what keeps the source from panicking. */
  function Slice(s: string, lo: nat, hi: nat): string
    requires IsCharBoundary(s, lo) && IsCharBoundary(s, hi) && lo <= hi
  {
    var i := CharIndexFrom(s, lo, 0);
    var j := CharIndexFrom(s, hi, 0);
    assert i <= j by {
      if j < i {
        OffsetsIncrease(s, j, i);
      }
    }
    s[i..j]
  }

  /** A slice between the offsets of two characters is the text between those characters. */
  lemma SliceAtOffsets(s: string, i: nat, j: nat)
    requires i <= j <= |s|
    ensures IsCharBoundary(s, ByteLen(s[..i])) && IsCharBoundary(s, ByteLen(s[..j]))
    ensures ByteLen(s[..i]) <= ByteLen(s[..j])
    ensures Slice(s, ByteLen(s[..i]), ByteLen(s[..j])) == s[i..j]
  {
    var lo, hi := ByteLen(s[..i]), ByteLen(s[..j]);
    assert IsCharBoundary(s, lo) && IsCharBoundary(s, hi);
    forall k, m | 0 <= k < m <= |s| ensures ByteLen(s[..k]) < ByteLen(s[..m]) {
      OffsetsIncrease(s, k, m);
    }
    assert CharIndexFrom(s, lo, 0) == i;
    assert CharIndexFrom(s, hi, 0) == j;
  }
}
