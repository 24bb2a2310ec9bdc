/** Octets and the fixed-width integer forms the writers and readers share. */
module Bytes {
  type Byte = x: int | 0 <= x < 256
  type Int32 = x: int | -0x8000_0000 <= x < 0x8000_0000
  type UInt16 = x: int | 0 <= x < 0x1_0000
  type UInt32 = x: int | 0 <= x < 0x1_0000_0000

  /** Four little-endian octets of the low 32 bits. */
  function Le32(x: int): (s: seq<Byte>)
    ensures |s| == 4
  {
    var u := x % 0x1_0000_0000;
    [u % 256, u / 256 % 256, u / 65536 % 256, u / 16777216]
  }

  function Int32Of(b0: Byte, b1: Byte, b2: Byte, b3: Byte): Int32 {
    var u := b0 + 256 * b1 + 65536 * b2 + 16777216 * b3;
    if u >= 0x8000_0000 then u - 0x1_0000_0000 else u
  }

  function Int32At(s: seq<Byte>, at: nat): Int32
    requires at + 4 <= |s|
  {
    Int32Of(s[at], s[at + 1], s[at + 2], s[at + 3])
  }

  function Le16(x: UInt16): (s: seq<Byte>)
    ensures |s| == 2
  {
    [x % 256, x / 256]
  }

  function UInt16At(s: seq<Byte>, at: nat): UInt16
    requires at + 2 <= |s|
  {
    var low: int, high: int := s[at], s[at + 1];
    low + 256 * high
  }

  /** A signed octet, as C# `(sbyte)` reads it. */
  function SByteOf(b: Byte): (r: int)
    ensures -128 <= r < 128
  {
    if b >= 128 then b - 256 else b
  }

  /** The octet C# `unchecked((byte)x)` keeps. */
  function ByteOf(x: int): Byte { x % 256 }

  lemma Le32Reads(x: Int32)
    ensures Int32At(Le32(x), 0) == x
  {
    var u: int := if x < 0 then x + 0x1_0000_0000 else x;
    assert u == x % 0x1_0000_0000;
    SplitWord(u);
  }

  lemma Int32Writes(b0: Byte, b1: Byte, b2: Byte, b3: Byte)
    ensures Le32(Int32Of(b0, b1, b2, b3)) == [b0, b1, b2, b3]
  {
    var u: int := b0 + 256 * b1 + 65536 * b2 + 16777216 * b3;
    assert Int32Of(b0, b1, b2, b3) % 0x1_0000_0000 == u;
    var h: int := b1 + 256 * b2 + 65536 * b3;
    assert u == 256 * h + b0;
    JoinWord(b0, h);
    var g: int := b2 + 256 * b3;
    assert h == 256 * g + b1;
    JoinWord(b1, h / 256);
    JoinWord(b1, g);
    JoinWord(b2, b3);
    assert u / 65536 == h / 256;
    assert u / 16777216 == g / 256;
  }

  lemma JoinWord(low: Byte, high: int)
    ensures (256 * high + low) % 256 == low && (256 * high + low) / 256 == high
  {
  }

  lemma SplitWord(u: int)
    requires 0 <= u < 0x1_0000_0000
    ensures u == u % 256 + 256 * (u / 256 % 256) + 65536 * (u / 65536 % 256) + 16777216 * (u / 16777216)
    ensures 0 <= u / 16777216 < 256
  {
    assert u / 65536 == u / 256 / 256;
    assert u / 16777216 == u / 65536 / 256;
  }

  /** `n` octets of `code` at `at` reappear in `copy` at `to`. */
  predicate SameOctets(code: seq<Byte>, at: nat, copy: seq<Byte>, to: nat, n: nat) {
    at + n <= |code| && to + n <= |copy| && forall p :: at <= p < at + n ==> code[p] == copy[p - at + to]
  }

  lemma SliceSame(code: seq<Byte>, at: nat, copy: seq<Byte>, to: nat, n: nat)
    requires at + n <= |code| && to + n <= |copy| && copy[to..to + n] == code[at..at + n]
    ensures SameOctets(code, at, copy, to, n)
  {
    forall p | at <= p < at + n
      ensures code[p] == copy[p - at + to]
    {
      assert code[at..at + n][p - at] == copy[to..to + n][p - at];
    }
  }

  // ---- Big-endian numbers ----

  function Pow256(n: nat): (p: int)
    ensures p >= 1
    ensures n > 0 ==> p >= 256
  {
    if n == 0 then 1 else 256 * Pow256(n - 1)
  }

  /** The low `width` octets, most significant first. */
  function BigEndian(value: int, width: nat): (s: seq<Byte>)
    ensures |s| == width
    decreases width
  {
    if width == 0 then [] else BigEndian(value / 256, width - 1) + [value % 256]
  }

  function FromBigEndian(s: seq<Byte>): nat {
    if s == [] then 0 else 256 * FromBigEndian(s[..|s| - 1]) + s[|s| - 1]
  }

  /** The octet at `k` counts the multiples of its power of 256. */
  lemma {:induction false} BigEndianAt(value: nat, width: nat, k: nat)
    requires k < width
    ensures BigEndian(value, width)[k] == value / Pow256(width - 1 - k) % 256
    decreases width
  {
    if k < width - 1 {
      BigEndianAt(value / 256, width - 1, k);
      DivideTwice(value, Pow256(width - 2 - k));
    } else {
      assert Pow256(0) == 1;
    }
  }

  lemma DivideTwice(value: nat, p: nat)
    requires p >= 1
    ensures value / 256 / p == value / (256 * p)
  {
    var q := value / (256 * p);
    var r := value - 256 * p * q;
    var h := value / 256;
    assert 256 * (p * q) <= value < 256 * (p * q) + 256 * p;
    assert p * q <= h < p * q + p;
    var rest := h - p * q;
    QuotientIs(h, p, q, rest);
  }

  lemma QuotientIs(n: nat, d: nat, q: nat, r: nat)
    requires d >= 1 && n == d * q + r && r < d
    ensures n / d == q
  {
    var other, rest := n / d, n % d;
    assert (other - q) * d == r - rest;
    Apart(other - q, d);
  }

  /** Multiples of a positive number are no closer to each other than the number. */
  lemma Apart(k: int, b: nat)
    requires b > 0
    ensures k == 0 || k * b >= b || k * b + b <= 0
  {
    var below: int := -k - 1;
    if k > 0 { assert (k - 1) * b >= 0; }
    if k < 0 { assert below * b >= 0; }
  }

  lemma {:induction false} BigEndianReads(value: nat, width: nat)
    requires value < Pow256(width)
    ensures FromBigEndian(BigEndian(value, width)) == value
    decreases width
  {
    if width > 0 {
      BigEndianReads(value / 256, width - 1);
      var s := BigEndian(value / 256, width - 1);
      assert (s + [value % 256])[..|s|] == s;
    }
  }

  lemma {:induction false} BigEndianWrites(s: seq<Byte>)
    ensures BigEndian(FromBigEndian(s), |s|) == s && FromBigEndian(s) < Pow256(|s|)
  {
    hide BigEndian, Pow256;
    if s == [] {
      NoOctets();
    } else {
      var high, low := FromBigEndian(s[..|s| - 1]), s[|s| - 1];
      BigEndianWrites(s[..|s| - 1]);
      OneOctetMore(high, low, |s| - 1);
      FrontAndLast(s);
    }
  }

  lemma NoOctets()
    ensures BigEndian(0, 0) == [] && Pow256(0) == 1
  {
  }

  lemma OneOctetMore(high: nat, low: Byte, width: nat)
    ensures BigEndian(256 * high + low, width + 1) == BigEndian(high, width) + [low]
    ensures Pow256(width + 1) == 256 * Pow256(width)
  {
    JoinWord(low, high);
  }

  lemma FrontAndLast<T>(s: seq<T>)
    requires s != []
    ensures s == s[..|s| - 1] + [s[|s| - 1]]
  {
  }

  lemma Subslice<T>(s: seq<T>, lo: nat, hi: nat, i: nat, j: nat)
    requires lo <= hi <= |s| && i <= j <= hi - lo
    ensures s[lo..hi][i..j] == s[lo + i..lo + j]
  {
    var a, b := s[lo..hi][i..j], s[lo + i..lo + j];
    assert |a| == |b|;
    forall k | 0 <= k < |a|
      ensures a[k] == b[k]
    {
      assert a[k] == s[lo..hi][i + k] == s[lo + (i + k)];
    }
  }
}
