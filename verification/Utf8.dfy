/** Strict UTF-8 of section 3 of RFC 3629, as the hosts' text codecs read and write it. */
module Utf8 {
  import opened Wrappers
  import opened Bytes

  type CodePoint = x: int | 0 <= x < 0x11_0000

  predicate IsScalar(c: CodePoint) { !(0xD800 <= c < 0xE000) }

  predicate IsText(s: seq<CodePoint>) { forall k :: 0 <= k < |s| ==> IsScalar(s[k]) }

  function ScalarOctets(c: CodePoint): (s: seq<Byte>)
    ensures 1 <= |s| <= 4
  {
    if c < 0x80 then [c]
    else if c < 0x800 then [0xC0 + c / 64, 0x80 + c % 64]
    else if c < 0x1_0000 then [0xE0 + c / 64 / 64, 0x80 + c / 64 % 64, 0x80 + c % 64]
    else [0xF0 + c / 64 / 64 / 64, 0x80 + c / 64 / 64 % 64, 0x80 + c / 64 % 64, 0x80 + c % 64]
  }

  /** The leading bits tell the number of octets; the others are the number, in its shortest form. */
  lemma ScalarSays(c: CodePoint)
    ensures var s := ScalarOctets(c);
            && (c < 0x80 ==> |s| == 1 && s[0] == c)
            && (0x80 <= c < 0x800 ==>
                  |s| == 2 && s[0] / 32 == 6 && s[1] / 64 == 2 && Digits64([s[0] % 32, s[1] % 64]) == c)
            && (0x800 <= c < 0x1_0000 ==>
                  |s| == 3 && s[0] / 16 == 14 && s[1] / 64 == s[2] / 64 == 2 &&
                  Digits64([s[0] % 16, s[1] % 64, s[2] % 64]) == c)
            && (0x1_0000 <= c ==>
                  |s| == 4 && s[0] / 8 == 30 && s[1] / 64 == s[2] / 64 == s[3] / 64 == 2 &&
                  Digits64([s[0] % 8, s[1] % 64, s[2] % 64, s[3] % 64]) == c)
  {
    if c < 0x800 {
      DigitsOf([c / 64, c % 64]);
    } else if c < 0x1_0000 {
      DigitsOf([c / 64 / 64, c / 64 % 64, c % 64]);
    } else {
      DigitsOf([c / 64 / 64 / 64, c / 64 / 64 % 64, c / 64 % 64, c % 64]);
    }
  }

  /** The number with these digits in base 64, the highest first. */
  function Digits64(digits: seq<nat>): nat {
    if digits == [] then 0 else 64 * Digits64(digits[..|digits| - 1]) + digits[|digits| - 1]
  }

  lemma DigitsOf(d: seq<nat>)
    requires 2 <= |d| <= 4
    ensures |d| == 2 ==> Digits64(d) == 64 * d[0] + d[1]
    ensures |d| == 3 ==> Digits64(d) == 64 * (64 * d[0] + d[1]) + d[2]
    ensures |d| == 4 ==> Digits64(d) == 64 * (64 * (64 * d[0] + d[1]) + d[2]) + d[3]
  {
    assert Digits64(d[..1]) == d[0] by { assert d[..1][..0] == []; }
    assert Digits64(d[..2]) == 64 * d[0] + d[1] by { assert d[..2][..1] == d[..1]; }
    if |d| == 2 { assert d[..2] == d; }
    if |d| >= 3 {
      assert Digits64(d[..3]) == 64 * (64 * d[0] + d[1]) + d[2] by { assert d[..3][..2] == d[..2]; }
    }
    if |d| == 3 { assert d[..3] == d; }
  }

  function Utf8Of(s: seq<CodePoint>): seq<Byte> {
    if s == [] then [] else ScalarOctets(s[0]) + Utf8Of(s[1..])
  }

  predicate IsTail(b: Byte) { 0x80 <= b < 0xC0 }

  datatype Read = Read(c: CodePoint, length: nat)

  /** The first character: shortest form only, no surrogates, nothing past U+10FFFF. */
  function FirstScalar(b: seq<Byte>): (r: Option<Read>)
    requires b != []
    ensures r.Some? ==> 1 <= r.value.length <= |b|
  {
    var b0: int := b[0];
    if b0 < 0x80 then Some(Read(b0, 1))
    else if b0 < 0xE0 then
      if b0 < 0xC2 || |b| < 2 || !IsTail(b[1]) then None
      else Some(Read((b0 - 0xC0) * 64 + (b[1] - 0x80), 2))
    else if b0 < 0xF0 then
      if |b| < 3 || !IsTail(b[1]) || !IsTail(b[2]) then None
      else
        var high := (b0 - 0xE0) * 64 + (b[1] - 0x80);
        var c := high * 64 + (b[2] - 0x80);
        if c < 0x800 || 0xD800 <= c < 0xE000 then None else Some(Read(c, 3))
    else
      if b0 > 0xF4 || |b| < 4 || !IsTail(b[1]) || !IsTail(b[2]) || !IsTail(b[3]) then None
      else
        var top := (b0 - 0xF0) * 64 + (b[1] - 0x80);
        var high := top * 64 + (b[2] - 0x80);
        var c := high * 64 + (b[3] - 0x80);
        if c < 0x1_0000 || c >= 0x11_0000 then None else Some(Read(c, 4))
  }

  function TextOf(b: seq<Byte>): (r: Option<seq<CodePoint>>)
    decreases |b|
  {
    if b == [] then Some([])
    else
      var first := FirstScalar(b);
      if first.None? then None
      else
        var rest := TextOf(b[first.value.length..]);
        if rest.None? then None else Some([first.value.c] + rest.value)
  }

  lemma Digit64(high: int, low: int)
    requires 0 <= low < 64
    ensures (high * 64 + low) / 64 == high && (high * 64 + low) % 64 == low
  {
  }

  lemma FirstScalarWrites(b: seq<Byte>)
    requires b != [] && FirstScalar(b).Some?
    ensures var r := FirstScalar(b).value; IsScalar(r.c) && ScalarOctets(r.c) == b[..r.length]
  {
    var r := FirstScalar(b).value;
    var b0: int := b[0];
    if b0 >= 0x80 {
      if b0 < 0xE0 {
        Digit64(b0 - 0xC0, b[1] - 0x80);
      } else if b0 < 0xF0 {
        var high := (b0 - 0xE0) * 64 + (b[1] - 0x80);
        Digit64(b0 - 0xE0, b[1] - 0x80);
        Digit64(high, b[2] - 0x80);
      } else {
        var top := (b0 - 0xF0) * 64 + (b[1] - 0x80);
        var high := top * 64 + (b[2] - 0x80);
        Digit64(b0 - 0xF0, b[1] - 0x80);
        Digit64(top, b[2] - 0x80);
        Digit64(high, b[3] - 0x80);
      }
    }
  }

  lemma ScalarReads(c: CodePoint, rest: seq<Byte>)
    requires IsScalar(c)
    ensures FirstScalar(ScalarOctets(c) + rest) == Some(Read(c, |ScalarOctets(c)|))
  {
    var b := ScalarOctets(c) + rest;
    var d, e, f: int := c / 64, c / 64 / 64, c / 64 / 64 / 64;
    assert c == d * 64 + c % 64 && d == e * 64 + d % 64 && e == f * 64 + e % 64;
    if c < 0x80 {
    } else if c < 0x800 {
      assert b[0] == 0xC0 + d && b[1] == 0x80 + c % 64;
    } else if c < 0x1_0000 {
      assert b[0] == 0xE0 + e && b[1] == 0x80 + d % 64 && b[2] == 0x80 + c % 64;
    } else {
      assert b[0] == 0xF0 + f && b[1] == 0x80 + e % 64 && b[2] == 0x80 + d % 64 && b[3] == 0x80 + c % 64;
    }
  }

  /** Text reads back from its octets. */
  lemma {:induction false} TextReads(s: seq<CodePoint>)
    requires IsText(s)
    ensures TextOf(Utf8Of(s)) == Some(s)
  {
    if s != [] {
      hide FirstScalar, ScalarOctets;
      var b, first := Utf8Of(s), ScalarOctets(s[0]);
      ScalarReads(s[0], Utf8Of(s[1..]));
      assert b[|first|..] == Utf8Of(s[1..]);
      TextReads(s[1..]);
      assert s == [s[0]] + s[1..];
    }
  }

  lemma WriteFirst(c: CodePoint, rest: seq<CodePoint>)
    requires IsScalar(c) && IsText(rest)
    ensures IsText([c] + rest) && Utf8Of([c] + rest) == ScalarOctets(c) + Utf8Of(rest)
  {
    assert ([c] + rest)[1..] == rest;
  }

  /** Octets that read as text are the only octets of that text. */
  lemma {:induction false} TextWrites(b: seq<Byte>)
    requires TextOf(b).Some?
    ensures IsText(TextOf(b).value) && Utf8Of(TextOf(b).value) == b
    decreases |b|
  {
    hide FirstScalar, ScalarOctets, Utf8Of, IsText, TextOf;
    if b == [] {
      NothingReads();
    } else {
      TextUnfolds(b);
      FirstScalarWrites(b);
      var r := FirstScalar(b).value;
      var rest := b[r.length..];
      TextWrites(rest);
      WriteFirst(r.c, TextOf(rest).value);
      assert b == b[..r.length] + rest;
    }
  }

  lemma NothingReads()
    ensures TextOf([]) == Some([]) && Utf8Of([]) == [] && IsText([])
  {
  }

  lemma TextUnfolds(b: seq<Byte>)
    requires b != [] && TextOf(b).Some?
    ensures FirstScalar(b).Some?
    ensures var r := FirstScalar(b).value;
            TextOf(b[r.length..]).Some? && TextOf(b) == Some([r.c] + TextOf(b[r.length..]).value)
  {
    hide FirstScalar;
  }
}
