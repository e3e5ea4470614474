/** Valid UTF-8 byte texts and their character boundaries (sections 3 and 4 of RFC 3629). */
module Utf8 {

  type Byte = b: int | 0 <= b < 256

  predicate IsContinuation(b: Byte) { 0x80 <= b < 0xC0 }

  /** The length of the character that starts at `p`, 0 when no well-formed one does. */
  function CharLen(s: seq<Byte>, p: nat): (n: nat)
    requires p < |s|
    ensures p + n <= |s| && n <= 4
    ensures n > 0 ==> !IsContinuation(s[p]) && forall i :: p < i < p + n ==> IsContinuation(s[i])
    ensures s[p] < 0x80 ==> n == 1
  {
    var b := s[p];
    if b < 0x80 then 1
    else if p + 1 >= |s| then 0
    else
      var b1 := s[p + 1];
      if 0xC2 <= b <= 0xDF then if IsContinuation(b1) then 2 else 0
      else if p + 2 >= |s| || !IsContinuation(s[p + 2]) then 0
      else if b == 0xE0 then if 0xA0 <= b1 <= 0xBF then 3 else 0
      else if b == 0xED then if 0x80 <= b1 <= 0x9F then 3 else 0
      else if 0xE1 <= b <= 0xEF then if IsContinuation(b1) then 3 else 0
      else if p + 3 >= |s| || !IsContinuation(s[p + 3]) then 0
      else if b == 0xF0 then if 0x90 <= b1 <= 0xBF then 4 else 0
      else if b == 0xF4 then if 0x80 <= b1 <= 0x8F then 4 else 0
      else if 0xF1 <= b <= 0xF3 then if IsContinuation(b1) then 4 else 0
      else 0
  }

  /** The code point of the character that starts at `p`. */
  function CodePoint(s: seq<Byte>, p: nat): nat
    requires p < |s| && CharLen(s, p) > 0
  {
    var n := CharLen(s, p);
    if n == 1 then s[p]
    else if n == 2 then Low(s[p], 0x20) * 0x40 + Low(s[p + 1], 0x40)
    else if n == 3 then Low(s[p], 0x10) * 0x1000 + Low(s[p + 1], 0x40) * 0x40 + Low(s[p + 2], 0x40)
    else Low(s[p], 0x08) * 0x40000 + Low(s[p + 1], 0x40) * 0x1000 + Low(s[p + 2], 0x40) * 0x40 + Low(s[p + 3], 0x40)
  }

  function Low(b: Byte, m: nat): nat
    requires m > 0
  {
    b % m
  }

  predicate ValidFrom(s: seq<Byte>, p: nat)
    requires p <= |s|
    decreases |s| - p
  {
    p == |s| || (CharLen(s, p) > 0 && ValidFrom(s, p + CharLen(s, p)))
  }

  predicate Valid(s: seq<Byte>) { ValidFrom(s, 0) }

  /** A position where a slice may start or end. */
  predicate Boundary(s: seq<Byte>, p: nat) {
    p == |s| || (p < |s| && !IsContinuation(s[p]))
  }

  /** A slice of a text; cutting inside a character is not possible. */
  function Slice(s: seq<Byte>, from: nat, to: nat): (t: seq<Byte>)
    requires from <= to && Boundary(s, from) && Boundary(s, to)
  {
    s[from..to]
  }

  /** In valid text every boundary starts a character. */
  lemma {:induction false} BoundaryStartsChar(s: seq<Byte>, q: nat, p: nat)
    requires q <= p && Boundary(s, p) && ValidFrom(s, q)
    ensures ValidFrom(s, p)
    decreases p - q
  {
    if q < p {
      BoundaryStartsChar(s, q + CharLen(s, q), p);
    }
  }

  lemma CharAt(s: seq<Byte>, p: nat)
    requires Valid(s) && p < |s| && Boundary(s, p)
    ensures CharLen(s, p) > 0 && Boundary(s, p + CharLen(s, p)) && ValidFrom(s, p)
  {
    BoundaryStartsChar(s, 0, p);
  }

  lemma AsciiAt(s: seq<Byte>, p: nat)
    requires Valid(s) && p < |s| && s[p] < 0x80
    ensures Boundary(s, p) && Boundary(s, p + 1)
  {
    CharAt(s, p);
  }

  lemma {:induction false} SliceValidFrom(s: seq<Byte>, from: nat, to: nat, p: nat)
    requires from <= p <= to && Boundary(s, to) && ValidFrom(s, p)
    ensures ValidFrom(s[from..to], p - from)
    decreases |s| - p
  {
    if p < to {
      var n := CharLen(s, p);
      assert p + n <= to;
      assert CharLen(s[from..to], p - from) == n;
      SliceValidFrom(s, from, to, p + n);
    }
  }

  /** Slices cut at boundaries are valid text again. */
  lemma SliceValid(s: seq<Byte>, from: nat, to: nat)
    requires Valid(s) && from <= to && Boundary(s, from) && Boundary(s, to)
    ensures Valid(s[from..to])
  {
    BoundaryStartsChar(s, 0, from);
    SliceValidFrom(s, from, to, from);
  }

  // ---- what the characters are ----

  /** A Unicode scalar value. */
  predicate Scalar(c: nat) { c < 0xD800 || 0xE000 <= c < 0x11_0000 }

  /** The bytes of a character (section 3 of RFC 3629). */
  function Encode(c: nat): (bytes: seq<Byte>)
    requires Scalar(c)
  {
    if c < 128 then [c]
    else if c < 2048 then [192 + c / 64, 128 + c % 64]
    else if c < 65_536 then [224 + c / 4096, 128 + c / 64 % 64, 128 + c % 64]
    else [240 + c / 262_144, 128 + c / 4096 % 64, 128 + c / 64 % 64, 128 + c % 64]
  }

  predicate HasBytes(s: seq<Byte>, p: nat, bytes: seq<Byte>) {
    p + |bytes| <= |s| && forall i | 0 <= i < |bytes| :: s[p + i] == bytes[i]
  }

  lemma TwoDigits(a: nat, b: nat)
    requires b < 64
    ensures (a * 64 + b) / 64 == a && (a * 64 + b) % 64 == b
  {
  }

  lemma ThreeDigits(a: nat, b: nat, c: nat)
    requires b < 64 && c < 64
    ensures var v := a * 4096 + b * 64 + c; v / 4096 == a && v / 64 % 64 == b && v % 64 == c
  {
    var v := a * 4096 + b * 64 + c;
    assert v == (a * 64 + b) * 64 + c;
    TwoDigits(a * 64 + b, c);
    TwoDigits(a, b);
    assert v / 4096 == v / 64 / 64;
  }

  lemma FourDigits(a: nat, b: nat, c: nat, d: nat)
    requires b < 64 && c < 64 && d < 64
    ensures var v := a * 262_144 + b * 4096 + c * 64 + d;
            v / 262_144 == a && v / 4096 % 64 == b && v / 64 % 64 == c && v % 64 == d
  {
    var v := a * 262_144 + b * 4096 + c * 64 + d;
    assert v == (a * 4096 + b * 64 + c) * 64 + d;
    TwoDigits(a * 4096 + b * 64 + c, d);
    ThreeDigits(a, b, c);
    assert v / 4096 == v / 64 / 64 && v / 262_144 == v / 64 / 4096;
  }

  lemma LowIs(b: Byte)
    ensures IsContinuation(b) ==> Low(b, 0x40) == b - 128
    ensures 192 <= b < 224 ==> Low(b, 0x20) == b - 192
    ensures 224 <= b < 240 ==> Low(b, 0x10) == b - 224
    ensures 240 <= b < 248 ==> Low(b, 0x08) == b - 240
  {
  }

  lemma DecodesTwo(s: seq<Byte>, p: nat)
    requires p < |s| && CharLen(s, p) == 2
    ensures var a: int, b: int := s[p] - 192, s[p + 1] - 128;
            var c := a * 64 + b;
            CodePoint(s, p) == c && 128 <= c < 2048 && c / 64 == s[p] - 192 && c % 64 == s[p + 1] - 128
  {
    LowIs(s[p]);
    LowIs(s[p + 1]);
    TwoDigits(s[p] - 192, s[p + 1] - 128);
    hide Low;
  }

  lemma DecodesThree(s: seq<Byte>, p: nat)
    requires p < |s| && CharLen(s, p) == 3
    ensures var a: int, b: int, d: int := s[p] - 224, s[p + 1] - 128, s[p + 2] - 128;
            var c := a * 4096 + b * 64 + d;
            && CodePoint(s, p) == c && 2048 <= c < 65_536 && Scalar(c)
            && c / 4096 == s[p] - 224 && c / 64 % 64 == s[p + 1] - 128 && c % 64 == s[p + 2] - 128
  {
    LowIs(s[p]);
    LowIs(s[p + 1]);
    LowIs(s[p + 2]);
    ThreeDigits(s[p] - 224, s[p + 1] - 128, s[p + 2] - 128);
    hide Low;
  }

  lemma DecodesFour(s: seq<Byte>, p: nat)
    requires p < |s| && CharLen(s, p) == 4
    ensures var a: int, b: int, d: int, e: int := s[p] - 240, s[p + 1] - 128, s[p + 2] - 128, s[p + 3] - 128;
            var c := a * 262_144 + b * 4096 + d * 64 + e;
            && CodePoint(s, p) == c && 65_536 <= c && Scalar(c)
            && c / 262_144 == s[p] - 240 && c / 4096 % 64 == s[p + 1] - 128
            && c / 64 % 64 == s[p + 2] - 128 && c % 64 == s[p + 3] - 128
  {
    LowIs(s[p]);
    LowIs(s[p + 1]);
    LowIs(s[p + 2]);
    LowIs(s[p + 3]);
    FourDigits(s[p] - 240, s[p + 1] - 128, s[p + 2] - 128, s[p + 3] - 128);
    hide Low;
  }

  lemma OneIsAscii(s: seq<Byte>, p: nat)
    requires p < |s| && CharLen(s, p) > 0
    ensures CharLen(s, p) == 1 ==> s[p] < 128 && CodePoint(s, p) == s[p]
  {
  }

  /** A well-formed character is the encoding of its code point. */
  lemma CharDecodes(s: seq<Byte>, p: nat)
    requires p < |s| && CharLen(s, p) > 0
    ensures Scalar(CodePoint(s, p)) && HasBytes(s, p, Encode(CodePoint(s, p)))
    ensures |Encode(CodePoint(s, p))| == CharLen(s, p)
  {
    match CharLen(s, p) {
      case 2 => TwoDecodes(s, p);
      case 3 => ThreeDecodes(s, p);
      case 4 => FourDecodes(s, p);
      case _ => OneDecodes(s, p);
    }
    hide CharLen, CodePoint, Encode;
  }

  lemma OneDecodes(s: seq<Byte>, p: nat)
    requires p < |s| && CharLen(s, p) > 0
    ensures var c := CodePoint(s, p);
            CharLen(s, p) == 1 ==> Scalar(c) && |Encode(c)| == 1 && HasBytes(s, p, Encode(c))
  {
    OneIsAscii(s, p);
    hide CharLen, CodePoint;
  }

  lemma TwoDecodes(s: seq<Byte>, p: nat)
    requires p < |s| && CharLen(s, p) == 2
    ensures var c := CodePoint(s, p); Scalar(c) && |Encode(c)| == 2 && HasBytes(s, p, Encode(c))
  {
    DecodesTwo(s, p);
    hide CharLen, CodePoint;
  }

  lemma ThreeDecodes(s: seq<Byte>, p: nat)
    requires p < |s| && CharLen(s, p) == 3
    ensures var c := CodePoint(s, p); Scalar(c) && |Encode(c)| == 3 && HasBytes(s, p, Encode(c))
  {
    DecodesThree(s, p);
    hide CharLen, CodePoint;
  }

  lemma FourDecodes(s: seq<Byte>, p: nat)
    requires p < |s| && CharLen(s, p) == 4
    ensures var c := CodePoint(s, p); Scalar(c) && |Encode(c)| == 4 && HasBytes(s, p, Encode(c))
  {
    DecodesFour(s, p);
    hide CharLen, CodePoint;
  }

  lemma TwoReads(s: seq<Byte>, p: nat, c: nat)
    requires 128 <= c < 2048 && p + 2 <= |s| && s[p] == 192 + c / 64 && s[p + 1] == 128 + c % 64
    ensures CharLen(s, p) == 2 && CodePoint(s, p) == c
  {
    assert 2 <= c / 64 < 32;
    LowIs(s[p]);
    LowIs(s[p + 1]);
    hide Low;
  }

  lemma ThreeReads(s: seq<Byte>, p: nat, c: nat)
    requires 2048 <= c < 65_536 && Scalar(c) && p + 3 <= |s|
    requires s[p] == 224 + c / 4096 && s[p + 1] == 128 + c / 64 % 64 && s[p + 2] == 128 + c % 64
    ensures CharLen(s, p) == 3 && CodePoint(s, p) == c
  {
    var a, b, d := c / 4096, c / 64 % 64, c % 64;
    assert c == a * 4096 + b * 64 + d by { assert c / 64 == a * 64 + b; }
    LowIs(s[p]);
    LowIs(s[p + 1]);
    LowIs(s[p + 2]);
    hide Low;
    assert a < 16 && (a == 0 ==> b >= 32) && (a == 13 ==> b < 32);
  }

  lemma FourReads(s: seq<Byte>, p: nat, c: nat)
    requires 65_536 <= c < 0x11_0000 && p + 4 <= |s|
    requires s[p] == 240 + c / 262_144 && s[p + 1] == 128 + c / 4096 % 64
    requires s[p + 2] == 128 + c / 64 % 64 && s[p + 3] == 128 + c % 64
    ensures CharLen(s, p) == 4 && CodePoint(s, p) == c
  {
    var a, b, d, e := c / 262_144, c / 4096 % 64, c / 64 % 64, c % 64;
    assert c == a * 262_144 + b * 4096 + d * 64 + e by {
      assert c / 64 == c / 4096 * 64 + d;
      assert c / 4096 == a * 64 + b;
    }
    LowIs(s[p]);
    LowIs(s[p + 1]);
    LowIs(s[p + 2]);
    LowIs(s[p + 3]);
    hide Low;
    assert a <= 4 && (a == 0 ==> b >= 16) && (a == 4 ==> b < 16);
  }

  /** The encoding of a scalar value reads as one character with that code point. */
  lemma EncodedReads(s: seq<Byte>, p: nat, c: nat)
    requires Scalar(c) && p < |s| && HasBytes(s, p, Encode(c))
    ensures CharLen(s, p) == |Encode(c)| && CodePoint(s, p) == c
  {
    hide CodePoint;
    var bytes := Encode(c);
    assert s[p + 0] == bytes[0];
    match |bytes| {
      case 1 => OneReads(s, p);
      case 2 =>
        assert s[p + 1] == bytes[1];
        TwoReads(s, p, c);
      case 3 =>
        assert s[p + 1] == bytes[1] && s[p + 2] == bytes[2];
        ThreeReads(s, p, c);
      case _ =>
        assert s[p + 1] == bytes[1] && s[p + 2] == bytes[2] && s[p + 3] == bytes[3];
        FourReads(s, p, c);
    }
  }

  lemma OneReads(s: seq<Byte>, p: nat)
    requires p < |s| && s[p] < 128
    ensures CharLen(s, p) == 1 && CodePoint(s, p) == s[p]
  {
  }
}
