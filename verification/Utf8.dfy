/** UTF-8 as RFC 3629 section 4 spells it out, a byte per `char`. */
module Utf8 {
  import opened Wrappers

  predicate IsTail(c: char) {
    '\U{80}' <= c <= '\U{BF}'
  }

  predicate IsTailAt(s: string, k: nat) {
    k < |s| && IsTail(s[k])
  }

  /** The length of the encoded character at the front of `s`, or 0 when there is none. */
  function CharLength(s: string): (n: nat)
    requires s != ""
    ensures n <= |s|
    ensures forall k | 0 < k < n :: s[k] >= '\U{80}'
    ensures n > 1 ==> s[0] >= '\U{80}'
  {
    var c := s[0];
    if c < '\U{80}' then 1
    else if '\U{C2}' <= c <= '\U{DF}' then
      if IsTailAt(s, 1) then 2 else 0
    else if '\U{E0}' <= c <= '\U{EF}' then
      if IsTailAt(s, 1) && IsTailAt(s, 2) && (c == '\U{E0}' ==> s[1] >= '\U{A0}') && (c == '\U{ED}' ==> s[1] < '\U{A0}')
      then 3 else 0
    else if '\U{F0}' <= c <= '\U{F4}' then
      if IsTailAt(s, 1) && IsTailAt(s, 2) && IsTailAt(s, 3) && (c == '\U{F0}' ==> s[1] >= '\U{90}')
        && (c == '\U{F4}' ==> s[1] < '\U{90}')
      then 4 else 0
    else 0
  }

  predicate ValidUtf8(s: string)
    decreases |s|
  {
    s == "" || (CharLength(s) > 0 && ValidUtf8(s[CharLength(s)..]))
  }

  function Byte(n: nat): char
    requires n < 256
  {
    n as char
  }

  /** The encoding of one Unicode scalar value. */
  function Encode(cp: nat): (s: string)
    requires cp < 0xD800 || 0xE000 <= cp < 0x11_0000
    ensures s != "" && CharLength(s) == |s|
  {
    if cp < 0x80 then [Byte(cp)]
    else if cp < 0x800 then [Byte(0xC0 + cp / 0x40), Byte(0x80 + cp % 0x40)]
    else if cp < 0x1_0000 then
      [Byte(0xE0 + cp / 0x1000), Byte(0x80 + cp / 0x40 % 0x40), Byte(0x80 + cp % 0x40)]
    else
      [Byte(0xF0 + cp / 0x4_0000), Byte(0x80 + cp / 0x1000 % 0x40), Byte(0x80 + cp / 0x40 % 0x40),
       Byte(0x80 + cp % 0x40)]
  }

  lemma {:induction false} EncodeIsValid(cp: nat)
    requires cp < 0xD800 || 0xE000 <= cp < 0x11_0000
    ensures ValidUtf8(Encode(cp))
  {
    assert Encode(cp)[CharLength(Encode(cp))..] == "";
  }

  lemma {:induction false} CharLengthPrefix(a: string, b: string)
    requires a != ""
    ensures CharLength(a) > 0 ==> CharLength(a + b) == CharLength(a)
    ensures CharLength(a + b) <= |a| ==> CharLength(a) == CharLength(a + b)
  {
    assert forall k | 0 <= k < |a| :: (a + b)[k] == a[k];
  }

  lemma {:induction false} ValidConcat(a: string, b: string)
    requires ValidUtf8(a) && ValidUtf8(b)
    ensures ValidUtf8(a + b)
    decreases |a|
  {
    if a == "" {
      assert a + b == b;
    } else {
      hide CharLength;
      var n := CharLength(a);
      CharLengthPrefix(a, b);
      assert (a + b)[n..] == a[n..] + b;
      ValidConcat(a[n..], b);
    }
  }

  /** Valid text may be cut in front of any ASCII byte. */
  lemma {:induction false} ValidCut(a: string, b: string)
    requires ValidUtf8(a + b)
    requires b == "" || b[0] < '\U{80}'
    ensures ValidUtf8(a) && ValidUtf8(b)
    decreases |a|
  {
    if a == "" {
      assert a + b == b;
    } else {
      hide CharLength;
      var n := CharLength(a + b);
      assert b != "" ==> (a + b)[|a|] == b[0];
      CharLengthPrefix(a, b);
      assert (a + b)[n..] == a[n..] + b;
      ValidCut(a[n..], b);
    }
  }

  // ---- what the bytes say -------------------------------------------------------------------

  /** A Unicode scalar value: a code point that is not a surrogate. */
  predicate IsScalarValue(cp: int) {
    0 <= cp <= 0x10FFFF && !(0xD800 <= cp <= 0xDFFF)
  }

  /** The number that the payload bits of one encoded character add up to. */
  function Decode(s: string): Option<int> {
    var b := (k: int) requires 0 <= k < |s| => s[k] as int;
    if |s| == 1 && b(0) < 0x80 then Some(b(0))
    else if |s| == 2 && 0xC0 <= b(0) < 0xE0 && HasTail(s) then Some(64 * (b(0) - 0xC0) + (b(1) - 0x80))
    else if |s| == 3 && 0xE0 <= b(0) < 0xF0 && HasTail(s) then
      Some(4096 * (b(0) - 0xE0) + 64 * (b(1) - 0x80) + (b(2) - 0x80))
    else if |s| == 4 && 0xF0 <= b(0) < 0xF8 && HasTail(s) then
      Some(262144 * (b(0) - 0xF0) + 4096 * (b(1) - 0x80) + 64 * (b(2) - 0x80) + (b(3) - 0x80))
    else None
  }

  /** Every byte but the first is a continuation byte. */
  predicate HasTail(s: string) {
    forall k | 0 < k < |s| :: 0x80 <= s[k] as int < 0xC0
  }

  /** Encoding is undone by adding up the payload bits, and takes as few bytes as can hold the value. */
  lemma {:induction false} EncodeThenDecode(cp: nat)
    requires IsScalarValue(cp)
    ensures Decode(Encode(cp)) == Some(cp)
    ensures |Encode(cp)| == if cp < 0x80 then 1 else if cp < 0x800 then 2 else if cp < 0x1_0000 then 3 else 4
  {
    if cp < 0x80 {
    } else if cp < 0x800 {
      assert cp / 0x40 < 0x20;
    } else if cp < 0x1_0000 {
      assert cp / 0x40 / 0x40 == cp / 0x1000;
    } else {
      assert cp / 0x40 / 0x40 == cp / 0x1000 && cp / 0x1000 / 0x40 == cp / 0x4_0000;
    }
  }

  /** What is taken for one character is the encoding of one scalar value. */
  lemma {:induction false} CharIsEncoded(s: string) returns (cp: nat)
    requires s != "" && CharLength(s) > 0
    ensures IsScalarValue(cp) && s[..CharLength(s)] == Encode(cp)
  {
    var n := CharLength(s);
    if n == 1 {
      cp := s[0] as int;
    } else if n == 2 {
      cp := TwoBytes(s[0], s[1]);
    } else if n == 3 {
      cp := ThreeBytes(s[0], s[1], s[2]);
    } else {
      cp := FourBytes(s[0], s[1], s[2], s[3]);
    }
  }

  lemma {:induction false} TwoBytes(a: char, b: char) returns (cp: nat)
    requires '\U{C2}' <= a <= '\U{DF}' && IsTail(b)
    ensures IsScalarValue(cp) && Encode(cp) == [a, b]
  {
    cp := 0x40 * (a as int - 0xC0) + (b as int - 0x80);
  }

  lemma {:induction false} ThreeBytes(a: char, b: char, c: char) returns (cp: nat)
    requires '\U{E0}' <= a <= '\U{EF}' && IsTail(b) && IsTail(c)
    requires (a == '\U{E0}' ==> b >= '\U{A0}') && (a == '\U{ED}' ==> b < '\U{A0}')
    ensures IsScalarValue(cp) && Encode(cp) == [a, b, c]
  {
    var high := 0x40 * (a as int - 0xE0) + (b as int - 0x80);
    cp := 0x40 * high + (c as int - 0x80);
    assert cp / 0x40 == high && cp / 0x1000 == high / 0x40;
  }

  lemma {:induction false} FourBytes(a: char, b: char, c: char, d: char) returns (cp: nat)
    requires '\U{F0}' <= a <= '\U{F4}' && IsTail(b) && IsTail(c) && IsTail(d)
    requires (a == '\U{F0}' ==> b >= '\U{90}') && (a == '\U{F4}' ==> b < '\U{90}')
    ensures IsScalarValue(cp) && Encode(cp) == [a, b, c, d]
  {
    var top := 0x40 * (a as int - 0xF0) + (b as int - 0x80);
    var high := 0x40 * top + (c as int - 0x80);
    cp := 0x40 * high + (d as int - 0x80);
    assert cp / 0x40 == high && cp / 0x1000 == high / 0x40 == top && cp / 0x4_0000 == top / 0x40;
  }

  predicate AllScalarValues(cps: seq<nat>) {
    forall k | 0 <= k < |cps| :: IsScalarValue(cps[k])
  }

  function EncodeAll(cps: seq<nat>): string
    requires AllScalarValues(cps)
  {
    if cps == [] then "" else Encode(cps[0]) + EncodeAll(cps[1..])
  }

  /** UTF-8 is the encodings of scalar values, one after another, and nothing else. */
  lemma {:induction false} ValidIsEncoded(s: string)
    ensures ValidUtf8(s) <==> exists cps: seq<nat> :: AllScalarValues(cps) && s == EncodeAll(cps)
  {
    if ValidUtf8(s) {
      var cps := DecodeAll(s);
    }
    if exists cps: seq<nat> :: AllScalarValues(cps) && s == EncodeAll(cps) {
      var cps: seq<nat> :| AllScalarValues(cps) && s == EncodeAll(cps);
      EncodedIsValid(cps);
    }
  }

  lemma {:induction false} DecodeAll(s: string) returns (cps: seq<nat>)
    requires ValidUtf8(s)
    ensures AllScalarValues(cps) && s == EncodeAll(cps)
    decreases |s|
  {
    hide CharLength, Encode;
    if s == "" {
      cps := [];
    } else {
      var n := CharLength(s);
      var first := CharIsEncoded(s);
      var rest := DecodeAll(s[n..]);
      cps := [first] + rest;
      assert cps[1..] == rest && s == s[..n] + s[n..];
    }
  }

  lemma {:induction false} EncodedIsValid(cps: seq<nat>)
    requires AllScalarValues(cps)
    ensures ValidUtf8(EncodeAll(cps))
    decreases |cps|
  {
    hide CharLength, Encode, ValidUtf8;
    if cps == [] {
      NothingIsValid();
    } else {
      EncodeIsValid(cps[0]);
      EncodedIsValid(cps[1..]);
      ValidConcat(Encode(cps[0]), EncodeAll(cps[1..]));
    }
  }

  lemma {:induction false} NothingIsValid()
    ensures ValidUtf8("")
  {
  }
}
