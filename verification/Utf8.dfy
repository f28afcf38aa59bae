// Well-formed UTF-8 (section 4 of RFC 3629), as the Go protobuf library demands of text fields.
module Utf8 {
  import opened Prelude

  predicate IsTail(b: Byte) {
    0x80 <= b <= 0xBF
  }

  /** The second byte of a character is narrower after some first bytes: no overlong forms, surrogates or large values. */
  predicate IsSecond(first: Byte, b: Byte) {
    if first == 0xE0 then 0xA0 <= b <= 0xBF
    else if first == 0xED then 0x80 <= b <= 0x9F
    else if first == 0xF0 then 0x90 <= b <= 0xBF
    else if first == 0xF4 then 0x80 <= b <= 0x8F
    else IsTail(b)
  }

  /** The length of the character at the front of `s`, 0 when there is none. */
  function CharLength(s: Bytes): (n: nat)
    ensures n <= |s|
    ensures n > 0 && s[0] >= 128 ==> n > 1
    ensures forall i | 0 < i < n :: s[i] >= 128
  {
    if s == [] then 0
    else if s[0] < 128 then 1
    else if 0xC2 <= s[0] <= 0xDF then if |s| >= 2 && IsSecond(s[0], s[1]) then 2 else 0
    else if 0xE0 <= s[0] <= 0xEF then if |s| >= 3 && IsSecond(s[0], s[1]) && IsTail(s[2]) then 3 else 0
    else if 0xF0 <= s[0] <= 0xF4 then if |s| >= 4 && IsSecond(s[0], s[1]) && IsTail(s[2]) && IsTail(s[3]) then 4 else 0
    else 0
  }

  predicate ValidUtf8(s: Bytes) {
    s == [] || (CharLength(s) > 0 && ValidUtf8(s[CharLength(s)..]))
  }

  predicate IsAscii(s: Bytes) {
    forall b | b in s :: b < 128
  }

  lemma {:induction false} AsciiIsValid(s: Bytes)
    requires IsAscii(s)
    ensures ValidUtf8(s)
  {
    if s != [] {
      assert s[0] in s && forall b | b in s[1..] :: b in s;
      AsciiIsValid(s[1..]);
    }
  }

  /** Only the character itself is looked at. */
  lemma CharLengthLocal(s: Bytes, a: Bytes)
    requires a <= s && CharLength(s) <= |a|
    ensures CharLength(s) > 0 ==> CharLength(a) == CharLength(s)
    ensures CharLength(a) > 0 ==> CharLength(s) == CharLength(a)
  {
  }

  /** An ASCII byte is a character of its own, so text splits at it. */
  lemma {:induction false} ValidSplits(a: Bytes, x: Byte, b: Bytes)
    requires x < 128
    ensures ValidUtf8(a + [x] + b) <==> ValidUtf8(a) && ValidUtf8(b)
  {
    var s := a + [x] + b;
    if a == [] {
      assert s[1..] == b;
    } else {
      var n := CharLength(s);
      assert s[|a|] == x && a <= s;
      CharLengthLocal(s, a);
      if n > 0 {
        ValidSplits(a[n..], x, b);
        assert s[n..] == a[n..] + [x] + b;
      }
    }
  }

  /** ASCII in front does not matter. */
  lemma ValidAfter(x: Byte, b: Bytes)
    requires x < 128
    ensures ValidUtf8([x] + b) <==> ValidUtf8(b)
  {
    assert ([x] + b)[1..] == b;
  }

  /** Bytes beyond ASCII never stand alone. */
  lemma {:induction false} NeverAlone(s: Bytes, i: nat)
    requires ValidUtf8(s) && i < |s| && s[i] >= 128
    ensures (i > 0 && s[i - 1] >= 128) || (i + 1 < |s| && s[i + 1] >= 128)
  {
    var n := CharLength(s);
    if i >= n {
      NeverAlone(s[n..], i - n);
      assert s[n..][i - n] == s[i];
    }
  }

  /******* Characters and their encodings *******/

  /** A Unicode scalar value: no surrogate, and at most 10FFFF. */
  predicate IsScalar(cp: nat) {
    cp < 0xD800 || 0xDFFF < cp < 0x11_0000
  }

  /** The bytes of one character, in groups of six bits behind the first byte. */
  function EncodeScalar(cp: nat): (bs: Bytes)
    requires IsScalar(cp)
    ensures bs != []
  {
    if cp < 0x80 then [cp]
    else if cp < 0x800 then [0xC0 + cp / 64, 0x80 + cp % 64]
    else if cp < 0x1_0000 then [0xE0 + cp / 4096, 0x80 + cp / 64 % 64, 0x80 + cp % 64]
    else [0xF0 + cp / 262144, 0x80 + cp / 4096 % 64, 0x80 + cp / 64 % 64, 0x80 + cp % 64]
  }

  predicate AllScalars(cps: seq<nat>) {
    forall cp | cp in cps :: IsScalar(cp)
  }

  function EncodeText(cps: seq<nat>): Bytes
    requires AllScalars(cps)
  {
    if cps == [] then [] else EncodeScalar(cps[0]) + EncodeText(cps[1..])
  }

  lemma CharOfScalar(cp: nat)
    requires IsScalar(cp)
    ensures CharLength(EncodeScalar(cp)) == |EncodeScalar(cp)|
  {
    if cp < 0x80 {
    } else if cp < 0x800 {
      assert 2 <= cp / 64 < 32;
    } else if cp < 0x1_0000 {
      ThreeBytes(cp);
    } else {
      FourBytes(cp);
    }
  }

  lemma ThreeBytes(cp: nat)
    requires 0x800 <= cp < 0x1_0000 && IsScalar(cp)
    ensures var first: int, second: int := 0xE0 + cp / 4096, 0x80 + cp / 64 % 64;
            && 0xE0 <= first <= 0xEF && 0x80 <= second <= 0xBF
            && (first == 0xE0 ==> 0xA0 <= second) && (first == 0xED ==> second <= 0x9F)
  {
    var high, middle := cp / 4096, cp / 64 % 64;
    assert cp / 64 == high * 64 + middle;
  }

  lemma FourBytes(cp: nat)
    requires 0x1_0000 <= cp < 0x11_0000
    ensures var first: int, second: int := 0xF0 + cp / 262144, 0x80 + cp / 4096 % 64;
            && 0xF0 <= first <= 0xF4 && 0x80 <= second <= 0xBF
            && (first == 0xF0 ==> 0x90 <= second) && (first == 0xF4 ==> second <= 0x8F)
  {
    var high, middle := cp / 262144, cp / 4096 % 64;
    assert cp / 4096 == high * 64 + middle;
  }

  lemma FourGroups(cp: nat, a: nat, b: nat, c: nat, d: nat)
    requires b < 64 && c < 64 && d < 64 && cp == a * 262144 + b * 4096 + c * 64 + d
    ensures cp / 262144 == a && cp / 4096 % 64 == b && cp / 64 % 64 == c && cp % 64 == d
  {
    assert cp / 4096 == a * 64 + b;
    assert cp / 64 == a * 4096 + b * 64 + c;
  }

  /** The character at the front of valid bytes. */
  lemma ScalarOfChar(s: Bytes) returns (cp: nat)
    requires s != [] && CharLength(s) == |s|
    ensures IsScalar(cp) && EncodeScalar(cp) == s
  {
    var a: int := s[0];
    if |s| == 1 {
      cp := a;
    } else if |s| == 2 {
      var b: int := s[1];
      cp := (a - 0xC0) * 64 + (b - 0x80);
      assert cp / 64 == a - 0xC0 && cp % 64 == b - 0x80;
    } else if |s| == 3 {
      var b: int, c: int := s[1], s[2];
      cp := (a - 0xE0) * 4096 + (b - 0x80) * 64 + (c - 0x80);
      assert cp / 4096 == a - 0xE0 && cp / 64 == (a - 0xE0) * 64 + (b - 0x80) && cp % 64 == c - 0x80;
      assert cp / 64 % 64 == b - 0x80;
    } else {
      var b: int, c: int, d: int := s[1], s[2], s[3];
      cp := (a - 0xF0) * 262144 + (b - 0x80) * 4096 + (c - 0x80) * 64 + (d - 0x80);
      FourGroups(cp, a - 0xF0, b - 0x80, c - 0x80, d - 0x80);
    }
  }

  lemma {:induction false} EncodedIsValid(cps: seq<nat>)
    requires AllScalars(cps)
    ensures ValidUtf8(EncodeText(cps))
  {
    if cps != [] {
      hide EncodeScalar, IsScalar;
      var front, rest := EncodeScalar(cps[0]), EncodeText(cps[1..]);
      EncodedIsValid(cps[1..]);
      CharOfScalar(cps[0]);
      FrontLength(front, rest);
      assert (front + rest)[|front|..] == rest;
    }
  }

  /** What follows a whole character does not change it. */
  lemma FrontLength(front: Bytes, rest: Bytes)
    requires front != [] && CharLength(front) == |front|
    ensures CharLength(front + rest) == |front|
  {
    var s := front + rest;
    assert forall i | 0 <= i < |front| :: s[i] == front[i];
  }

  lemma {:induction false} ValidIsEncoded(s: Bytes) returns (cps: seq<nat>)
    requires ValidUtf8(s)
    ensures AllScalars(cps) && EncodeText(cps) == s
  {
    if s == [] {
      cps := [];
    } else {
      var n := CharLength(s);
      var rest := ValidIsEncoded(s[n..]);
      WholeChar(s);
      hide CharLength, EncodeScalar, IsScalar;
      var cp := ScalarOfChar(s[..n]);
      cps := [cp] + rest;
      assert cps[1..] == rest && s == s[..n] + s[n..];
    }
  }

  lemma WholeChar(s: Bytes)
    requires CharLength(s) > 0
    ensures CharLength(s[..CharLength(s)]) == CharLength(s)
  {
    CharLengthLocal(s, s[..CharLength(s)]);
  }

  /** Valid UTF-8 is exactly the encoding of some sequence of scalar values. */
  lemma ValidExactly(s: Bytes)
    ensures ValidUtf8(s) <==> exists cps | AllScalars(cps) :: EncodeText(cps) == s
  {
    if ValidUtf8(s) {
      var cps := ValidIsEncoded(s);
    }
    if cps :| AllScalars(cps) && EncodeText(cps) == s {
      EncodedIsValid(cps);
    }
  }
}
