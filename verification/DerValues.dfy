/** DER regions as the encodings of values, said without the reader's own checks: tags by class
    and number, lengths, and the contents of ITU-T X.690 section 8 in their only form of
    section 11. A region is validated exactly when such values spell it. */
module DerValues {
  import opened Wrappers
  import opened Bytes
  import opened Tlv
  import opened Der

  // ---- Contents ----

  function BooleanOctets(b: bool): seq<Byte> { if b then [0xFF] else [0x00] }

  /** The fewest big-endian octets of two's complement. */
  function IntegerOctets(n: int): (s: seq<Byte>)
    ensures s != []
    decreases if n < 0 then -n else n
  {
    if -128 <= n < 128 then [n % 256] else IntegerOctets(n / 256) + [n % 256]
  }

  /** The number of a bit list, its first bit the highest. */
  function Number(bits: seq<bool>): (n: nat)
    ensures n < Power2(|bits|)
  {
    if bits == [] then 0 else 2 * Number(bits[..|bits| - 1]) + (if bits[|bits| - 1] then 1 else 0)
  }

  function Zeros(n: nat): (bits: seq<bool>)
    ensures |bits| == n
  {
    if n == 0 then [] else Zeros(n - 1) + [false]
  }

  /** Eight bits an octet, the last octet filled up with zeros. */
  function Pack(bits: seq<bool>): seq<Byte> {
    assert Power2(8) == 256;
    if bits == [] then []
    else if |bits| <= 8 then [Number(bits + Zeros(8 - |bits|))]
    else [Number(bits[..8])] + Pack(bits[8..])
  }

  /** The number of bits filled up, then the bits. */
  function BitStringOctets(bits: seq<bool>): seq<Byte> {
    [(8 - |bits| % 8) % 8] + Pack(bits)
  }

  /** Base-128 digits that all announce another one. */
  function Leading(n: nat): (s: seq<Byte>)
    ensures s != []
  {
    if n < 128 then [128 + n] else Leading(n / 128) + [128 + n % 128]
  }

  /** A number in base 128 without leading zeros; all digits but the last are marked. */
  function Base128(n: nat): (s: seq<Byte>)
    ensures s != []
  {
    if n < 128 then [n] else Leading(n / 128) + [n % 128]
  }

  function ObjectIdentifierOctets(arcs: seq<nat>): seq<Byte> {
    if arcs == [] then [] else Base128(arcs[0]) + ObjectIdentifierOctets(arcs[1..])
  }

  // ---- BOOLEAN and NULL ----

  lemma BooleanIff(content: seq<Byte>)
    ensures CanonicalContent(BOOLEAN_TAG, content) <==> content == [0x00] || content == [0xFF]
    ensures CanonicalContent(BOOLEAN_TAG, content) <==> exists b :: BooleanOctets(b) == content
  {
    assert BooleanOctets(false) == [0x00] && BooleanOctets(true) == [0xFF];
  }

  // ---- INTEGER ----

  lemma {:induction false} IntegerOctetsCanonical(n: int)
    ensures CanonicalInteger(IntegerOctets(n))
    ensures |IntegerOctets(n)| == 1 ==> -128 <= n < 128 && IntegerOctets(n)[0] == n % 256
    decreases if n < 0 then -n else n
  {
    if !(-128 <= n < 128) { IntegerOctetsCanonical(n / 256); }
  }

  lemma {:induction false} CanonicalIsInteger(content: seq<Byte>) returns (n: int)
    requires CanonicalInteger(content)
    ensures IntegerOctets(n) == content
    ensures -128 <= n < 128 <==> |content| == 1
    decreases |content|
  {
    var last: int := content[|content| - 1];
    if |content| == 1 {
      n := if last < 128 then last else last - 256;
    } else {
      var front := content[..|content| - 1];
      var high := CanonicalIsInteger(front);
      assert content == front + [last];
      n := high * 256 + last;
      LongerInteger(high, last);
    }
  }

  /** Appending an octet that is needed. */
  lemma LongerInteger(high: int, last: Byte)
    requires -128 <= high < 128 ==> CanonicalInteger(IntegerOctets(high) + [last])
    ensures var n := high * 256 + last;
            IntegerOctets(n) == IntegerOctets(high) + [last] && !(-128 <= n < 128)
  {
    var n := high * 256 + last;
    assert n / 256 == high && n % 256 == last;
    if -128 <= high < 128 {
      assert IntegerOctets(high) == [high % 256];
      assert !(high % 256 == 0 && last < 128) && !(high % 256 == 255 && last >= 128);
    }
  }

  lemma IntegerIff(content: seq<Byte>)
    ensures CanonicalContent(INTEGER_TAG, content) <==> exists n :: IntegerOctets(n) == content
  {
    if CanonicalInteger(content) { var n := CanonicalIsInteger(content); }
    forall n | IntegerOctets(n) == content ensures CanonicalInteger(content) { IntegerOctetsCanonical(n); }
  }

  // ---- BIT STRING ----

  lemma {:induction false} NumberZeros(bits: seq<bool>, n: nat)
    ensures Number(bits + Zeros(n)) == Number(bits) * Power2(n)
  {
    if n == 0 {
      assert bits + [] == bits;
    } else {
      NumberZeros(bits, n - 1);
      Doubled(Number(bits), Power2(n - 1));
      var longer := bits + Zeros(n);
      assert longer[..|longer| - 1] == bits + Zeros(n - 1) && longer[|longer| - 1] == false;
    }
  }

  lemma Doubled(a: nat, p: nat)
    ensures 2 * (a * p) == a * (2 * p)
  {
  }

  lemma {:induction false} NumberOnto(q: nat, n: nat) returns (bits: seq<bool>)
    requires q < Power2(n)
    ensures |bits| == n && Number(bits) == q
  {
    if n == 0 {
      bits := [];
    } else {
      var front := NumberOnto(q / 2, n - 1);
      bits := front + [q % 2 == 1];
      assert bits[..n - 1] == front;
    }
  }

  lemma {:induction false} PackFacts(bits: seq<bool>)
    ensures |Pack(bits)| == (|bits| + 7) / 8
    ensures bits != [] ==> Pack(bits)[|Pack(bits)| - 1] % Power2((8 - |bits| % 8) % 8) == 0
  {
    hide Number, Zeros, Power2;
    if |bits| > 8 {
      var rest := bits[8..];
      PackFacts(rest);
      assert (|bits| + 7) / 8 == 1 + (|rest| + 7) / 8 && |bits| % 8 == |rest| % 8;
      PackMore(bits);
    } else if bits != [] {
      PackOne(bits);
    }
  }

  lemma PackMore(bits: seq<bool>)
    requires |bits| > 8
    ensures |Pack(bits)| == 1 + |Pack(bits[8..])|
    ensures Pack(bits[8..]) != [] ==> Pack(bits)[|Pack(bits)| - 1] == Pack(bits[8..])[|Pack(bits[8..])| - 1]
  {
  }

  lemma PackOne(bits: seq<bool>)
    requires 0 < |bits| <= 8
    ensures |Pack(bits)| == 1 && (8 - |bits| % 8) % 8 == 8 - |bits|
    ensures Pack(bits)[0] % Power2(8 - |bits|) == 0
  {
    hide Number, Zeros;
    NumberZeros(bits, 8 - |bits|);
    Multiple(Number(bits), Power2(8 - |bits|));
  }

  lemma Multiple(a: nat, b: nat)
    requires b > 0
    ensures a * b % b == 0
  {
    var q, r := a * b / b, a * b % b;
    assert (a - q) * b == r;
    Apart(a - q, b);
  }

  lemma {:induction false} Unpacked(octets: seq<Byte>, unused: nat) returns (bits: seq<bool>)
    requires unused <= 7 && (octets == [] ==> unused == 0)
    requires octets != [] ==> octets[|octets| - 1] % Power2(unused) == 0
    ensures |bits| == 8 * |octets| - unused && Pack(bits) == octets
  {
    assert Power2(8) == 256;
    if octets == [] {
      bits := [];
    } else if |octets| == 1 {
      bits := LastOctet(octets[0], unused);
      assert octets == [octets[0]];
    } else {
      var first := NumberOnto(octets[0], 8);
      var rest := Unpacked(octets[1..], unused);
      bits := first + rest;
      assert bits[..8] == first && bits[8..] == rest;
      assert octets == [octets[0]] + octets[1..];
    }
  }

  lemma LastOctet(b: Byte, unused: nat) returns (bits: seq<bool>)
    requires unused <= 7 && b % Power2(unused) == 0
    ensures |bits| == 8 - unused && Number(bits + Zeros(unused)) == b
  {
    var p := Power2(unused);
    PowersMeet(8, unused);
    var q := b / p;
    assert q * p == b;
    Below(q, p, Power2(8 - unused));
    bits := NumberOnto(q, 8 - unused);
    NumberZeros(bits, unused);
  }

  lemma {:induction false} PowersMeet(n: nat, k: nat)
    requires k <= n
    ensures Power2(k) * Power2(n - k) == Power2(n)
  {
    if k > 0 {
      PowersMeet(n - 1, k - 1);
      assert Power2(k) * Power2(n - k) == 2 * (Power2(k - 1) * Power2(n - k));
    }
  }

  lemma Below(q: nat, p: nat, r: nat)
    requires q * p < p * r
    ensures q < r
  {
  }

  lemma BitStringIff(content: seq<Byte>)
    ensures CanonicalContent(BIT_STRING_TAG, content) <==> exists bits :: BitStringOctets(bits) == content
  {
    hide Pack;
    if CanonicalBitString(content) { var bits := CanonicalIsBits(content); }
    forall bits | BitStringOctets(bits) == content ensures CanonicalBitString(content) { BitsCanonical(bits); }
  }

  lemma CanonicalIsBits(content: seq<Byte>) returns (bits: seq<bool>)
    requires CanonicalBitString(content)
    ensures BitStringOctets(bits) == content
  {
    hide Pack;
    var unused := content[0];
    var octets := content[1..];
    assert Power2(0) == 1;
    assert content == [unused] + octets;
    bits := Unpacked(octets, unused);
    UnusedIs(|bits|, |octets|, unused);
  }

  lemma UnusedIs(bits: nat, octets: nat, unused: nat)
    requires bits == 8 * octets - unused && unused <= 7
    ensures (8 - bits % 8) % 8 == unused
  {
  }

  lemma BitsCanonical(bits: seq<bool>)
    ensures CanonicalBitString(BitStringOctets(bits))
  {
    hide Pack, Power2;
    var content := BitStringOctets(bits);
    PackFacts(bits);
    assert bits != [] ==> content[|content| - 1] == Pack(bits)[|Pack(bits)| - 1];
  }

  // ---- OBJECT IDENTIFIER ----

  /** Digits that announce another one, the first of them not zero. */
  predicate Marked(s: seq<Byte>) {
    s != [] && s[0] != 0x80 && forall k :: 0 <= k < |s| ==> s[k] >= 128
  }

  lemma {:induction false} LeadingMarked(n: nat)
    requires n > 0
    ensures Marked(Leading(n))
  {
    if n >= 128 { LeadingMarked(n / 128); }
  }

  lemma {:induction false} MarkedIsLeading(s: seq<Byte>) returns (n: nat)
    requires Marked(s)
    ensures n > 0 && Leading(n) == s
    decreases |s|
  {
    var last: int := s[|s| - 1];
    if |s| == 1 {
      n := last - 128;
    } else {
      var high := MarkedIsLeading(s[..|s| - 1]);
      n := high * 128 + (last - 128);
      assert n / 128 == high && n % 128 == last - 128;
      assert s == s[..|s| - 1] + [last];
    }
  }

  /** One subidentifier: marked digits, then one that is not. */
  predicate Subidentifier(s: seq<Byte>) {
    s != [] && s[|s| - 1] < 128 && (|s| > 1 ==> Marked(s[..|s| - 1]))
  }

  lemma SubidentifierIff(s: seq<Byte>)
    ensures Subidentifier(s) <==> exists n: nat :: Base128(n) == s
  {
    if Subidentifier(s) {
      var last: nat := s[|s| - 1];
      if |s| == 1 {
        assert Base128(last) == s;
      } else {
        var high := MarkedIsLeading(s[..|s| - 1]);
        var n := high * 128 + last;
        assert n / 128 == high && n % 128 == last;
        assert Base128(n) == s[..|s| - 1] + [last] == s;
      }
    }
    forall n: nat | Base128(n) == s
      ensures Subidentifier(s)
    {
      if n >= 128 {
        LeadingMarked(n / 128);
        assert s[..|s| - 1] == Leading(n / 128);
      }
    }
  }

  lemma OneMoreArc(first: seq<Byte>, rest: seq<Byte>)
    requires Subidentifier(first) && (rest == [] || CanonicalObjectIdentifier(rest))
    ensures CanonicalObjectIdentifier(first + rest)
  {
    var all := first + rest;
    forall k | 0 <= k < |all| && all[k] == 0x80
      ensures k > 0 && all[k - 1] >= 128
    {
      if k < |first| {
        assert k < |first| - 1 && first[..|first| - 1][k] == 0x80;
        assert first[..|first| - 1][k - 1] >= 128;
      } else {
        assert rest[k - |first|] == 0x80;
      }
    }
  }

  /** The first subidentifier ends at the first unmarked digit. */
  lemma {:induction false} FirstArc(content: seq<Byte>, from: nat) returns (end: nat)
    requires CanonicalObjectIdentifier(content) && from < |content|
    requires forall k :: 0 <= k < from ==> content[k] >= 128
    ensures from < end <= |content| && content[end - 1] < 128
    ensures forall k :: 0 <= k < end - 1 ==> content[k] >= 128
    decreases |content| - from
  {
    if content[from] < 128 { end := from + 1; } else { end := FirstArc(content, from + 1); }
  }

  lemma ArcCut(content: seq<Byte>, end: nat)
    requires CanonicalObjectIdentifier(content) && 0 < end <= |content| && content[end - 1] < 128
    requires forall k :: 0 <= k < end - 1 ==> content[k] >= 128
    ensures Subidentifier(content[..end]) && content == content[..end] + content[end..]
    ensures content[end..] != [] ==> CanonicalObjectIdentifier(content[end..])
  {
    var first, rest := content[..end], content[end..];
    assert forall k :: 0 <= k < end - 1 ==> first[..end - 1][k] == content[k];
    if rest != [] {
      forall k | 0 <= k < |rest| && rest[k] == 0x80
        ensures k > 0 && rest[k - 1] >= 128
      {
        assert content[end + k] == 0x80;
      }
    }
  }

  lemma {:induction false} CanonicalIsArcs(content: seq<Byte>) returns (arcs: seq<nat>)
    requires CanonicalObjectIdentifier(content)
    ensures arcs != [] && ObjectIdentifierOctets(arcs) == content
    decreases |content|
  {
    hide Base128, Subidentifier;
    var end := FirstArc(content, 0);
    var first, rest := content[..end], content[end..];
    ArcCut(content, end);
    SubidentifierIff(first);
    var n :| Base128(n) == first;
    if rest == [] {
      arcs := [n];
      assert arcs[1..] == [] && Base128(n) + [] == content;
    } else {
      var more := CanonicalIsArcs(rest);
      arcs := [n] + more;
      assert arcs[1..] == more;
    }
  }

  lemma {:induction false} ArcsCanonical(arcs: seq<nat>)
    requires arcs != []
    ensures CanonicalObjectIdentifier(ObjectIdentifierOctets(arcs))
  {
    SubidentifierIff(Base128(arcs[0]));
    if |arcs| > 1 { ArcsCanonical(arcs[1..]); }
    OneMoreArc(Base128(arcs[0]), ObjectIdentifierOctets(arcs[1..]));
  }

  lemma ObjectIdentifierIff(content: seq<Byte>)
    ensures CanonicalContent(OBJECT_IDENTIFIER_TAG, content) <==>
            exists arcs :: arcs != [] && ObjectIdentifierOctets(arcs) == content
  {
    if CanonicalObjectIdentifier(content) { var arcs := CanonicalIsArcs(content); }
    forall arcs | arcs != [] && ObjectIdentifierOctets(arcs) == content
      ensures CanonicalObjectIdentifier(content)
    {
      ArcsCanonical(arcs);
    }
  }

  // ---- Tags, lengths and regions ----

  /** A tag: its class, whether it holds other values, and its number. */
  datatype Tag = Tag(cls: nat, constructed: bool, number: nat)
  {
    /** The tags of at most three octets, but for the octet 00. */
    predicate Readable() { cls < 4 && number < 16384 && this != Tag(0, false, 0) }

    /** In DER the form of the small universal tags is prescribed. */
    predicate Allowed() {
      && Readable() && !(cls == 0 && number == 0)
      && (cls == 0 && number in {1, 2, 3, 4, 5, 6} ==> !constructed)
      && (cls == 0 && number in {16, 17} ==> constructed)
    }

    function Octets(): (s: seq<Byte>)
      requires Readable()
      ensures s != []
    {
      var lead := 64 * cls + (if constructed then 32 else 0);
      if number < 31 then [lead + number]
      else if number < 128 then [lead + 31, number]
      else [lead + 31, 128 + number / 128, number % 128]
    }
  }

  function LengthOctets(n: nat): (s: seq<Byte>)
    requires n < 0x10000
    ensures s != []
  {
    if n < 128 then [n] else if n < 256 then [0x81, n] else [0x82, n / 256, n % 256]
  }

  datatype Value =
    | Boolean(b: bool)
    | Integer(n: int)
    | BitString(bits: seq<bool>)
    | Null
    | ObjectIdentifier(arcs: seq<nat>)
    | Octets(tag: Tag, content: seq<Byte>)
  {
    /** Values of the five tags above are not octets. */
    predicate Allowed() {
      match this
      case ObjectIdentifier(arcs) => arcs != []
      case Octets(tag, _) =>
        tag.Allowed() && !tag.constructed && !(tag.cls == 0 && tag.number in {1, 2, 3, 5, 6})
      case _ => true
    }

    function TagOf(): Tag {
      match this
      case Boolean(_) => Tag(0, false, 1)
      case Integer(_) => Tag(0, false, 2)
      case BitString(_) => Tag(0, false, 3)
      case Null => Tag(0, false, 5)
      case ObjectIdentifier(_) => Tag(0, false, 6)
      case Octets(tag, _) => tag
    }

    function Content(): seq<Byte> {
      match this
      case Boolean(b) => BooleanOctets(b)
      case Integer(n) => IntegerOctets(n)
      case BitString(bits) => BitStringOctets(bits)
      case Null => []
      case ObjectIdentifier(arcs) => ObjectIdentifierOctets(arcs)
      case Octets(_, content) => content
    }
  }

  /** Values one after the other, some of them holding others. */
  datatype Items =
    | Nothing
    | Item(value: Value, rest: Items)
    | Group(tag: Tag, inner: Items, rest: Items)

  function Spelled(items: Items): seq<Byte> {
    match items
    case Nothing => []
    case Item(value, rest) => Element(value.TagOf(), value.Content()) + Spelled(rest)
    case Group(tag, inner, rest) => Element(tag, Spelled(inner)) + Spelled(rest)
  }

  function Element(tag: Tag, content: seq<Byte>): seq<Byte> {
    if tag.Allowed() && |content| < 0x10000 then HeadOctets(tag, |content|) + content else []
  }

  /** Tags have the form prescribed, and lengths fit 16 bits. */
  predicate Spellable(items: Items) {
    match items
    case Nothing => true
    case Item(value, rest) => value.Allowed() && |value.Content()| < 0x10000 && Spellable(rest)
    case Group(tag, inner, rest) =>
      tag.Allowed() && tag.constructed && Spellable(inner) && |Spelled(inner)| < 0x10000 && Spellable(rest)
  }

  /** How deep groups that are not empty stand in each other. */
  function Depth(items: Items): nat {
    match items
    case Nothing => 0
    case Item(_, rest) => Depth(rest)
    case Group(_, inner, rest) =>
      var here := if inner == Nothing then 0 else 1 + Depth(inner);
      if here >= Depth(rest) then here else Depth(rest)
  }

  function Joined(s: seq<Byte>): int
    requires s != []
  {
    var last: int := s[|s| - 1];
    if |s| == 1 then last else Joined(s[..|s| - 1]) * 256 + last
  }

  lemma JoinedIs(s: seq<Byte>)
    requires s != []
    ensures var a: int := s[0];
            && (|s| == 1 ==> Joined(s) == a)
            && (|s| == 2 ==> var b: int := s[1]; Joined(s) == a * 256 + b)
            && (|s| == 3 ==> var b: int, c: int := s[1], s[2]; Joined(s) == (a * 256 + b) * 256 + c)
  {
  }

  /** The source's packed form of a tag: its octets as one number. */
  function Packed(tag: Tag): int
    requires tag.Readable()
  {
    Joined(tag.Octets())
  }

  lemma PackedTag(tag: Tag)
    requires tag.Readable()
    ensures EncodedTagLength(Packed(tag)) == |tag.Octets()| && TagBytes(Packed(tag)) == tag.Octets()
    ensures IsConstructed(Packed(tag)) <==> tag.constructed
    ensures CanonicalTagForm(Packed(tag)) <==> tag.Allowed()
    ensures Packed(tag) in {1, 2, 3, 5, 6} ==> tag == Tag(0, false, Packed(tag))
  {
    hide Joined, IsConstructed, CanonicalTagForm;
    var s := tag.Octets();
    var lead: int := s[0];
    JoinedIs(s);
    LeadParts(tag, lead);
    if |s| == 3 { Pack3(s[0], s[1], s[2]); }
    PackedForm(tag, lead);
  }

  lemma LeadParts(tag: Tag, lead: int)
    requires tag.Readable() && lead == tag.Octets()[0]
    ensures lead / 32 % 2 == (if tag.constructed then 1 else 0) && lead / 64 == tag.cls
    ensures lead % 32 == if tag.number < 31 then tag.number else 31
  {
  }

  lemma PackedForm(tag: Tag, lead: int)
    requires tag.Readable() && EncodedTagLength(Packed(tag)) == |tag.Octets()|
    requires lead == tag.Octets()[0] == FirstTagByte(Packed(tag), |tag.Octets()|)
    ensures IsConstructed(Packed(tag)) <==> tag.constructed
    ensures CanonicalTagForm(Packed(tag)) <==> tag.Allowed()
    ensures Packed(tag) in {1, 2, 3, 5, 6} ==> tag == Tag(0, false, Packed(tag))
  {
    hide Packed, EncodedTagLength;
    LeadParts(tag, lead);
    if |tag.Octets()| == 1 { PackedSmall(tag); }
    if |tag.Octets()| > 1 { PackedLarge(tag); }
  }

  lemma PackedSmall(tag: Tag)
    requires tag.Readable() && |tag.Octets()| == 1
    ensures Packed(tag) == tag.Octets()[0]
  {
  }

  lemma PackedLarge(tag: Tag)
    requires tag.Readable() && |tag.Octets()| > 1
    ensures Packed(tag) > 6
  {
    JoinedIs(tag.Octets());
  }

  lemma UnpackedTag(packed: int) returns (tag: Tag)
    requires EncodedTagLength(packed) > 0
    ensures tag.Readable() && Packed(tag) == packed
  {
    var n := EncodedTagLength(packed);
    var lead := FirstTagByte(packed, n);
    var cls, constructed := lead / 64, lead / 32 % 2 == 1;
    LeadSplits(lead);
    if n < 3 {
      tag := Tag(cls, constructed, if n == 1 then packed % 32 else packed % 256);
    } else {
      tag := Tag(cls, constructed, (packed / 256 % 256 - 128) * 128 + packed % 256);
      ThreeOctets(packed);
    }
    JoinedIs(tag.Octets());
  }

  lemma LeadSplits(lead: int)
    ensures lead == 64 * (lead / 64) + (if lead / 32 % 2 == 1 then 32 else 0) + lead % 32
  {
  }

  lemma ThreeOctets(packed: int)
    ensures packed == (packed / 65536 * 256 + packed / 256 % 256) * 256 + packed % 256
    ensures var number := (packed / 256 % 256 - 128) * 128 + packed % 256;
            packed % 256 < 128 ==> number / 128 == packed / 256 % 256 - 128 && number % 128 == packed % 256
  {
    assert packed / 65536 == packed / 256 / 256;
  }

  lemma LengthIs(n: nat)
    requires n < 0x10000
    ensures LengthBytes(n) == LengthOctets(n) && EncodedLengthLength(n) == |LengthOctets(n)|
  {
  }

  /** The octets of a header. */
  function HeadOctets(tag: Tag, length: nat): (s: seq<Byte>)
    requires tag.Readable() && length < 0x10000
    ensures s != []
  {
    tag.Octets() + LengthOctets(length)
  }

  lemma HeadIs(tag: Tag, length: nat)
    requires tag.Readable() && length < 0x10000
    ensures HeaderLength(Packed(tag), length) == |HeadOctets(tag, length)|
    ensures HeaderBytes(Packed(tag), length) == HeadOctets(tag, length)
  {
    hide EncodedTagLength, Packed, TagBytes, LengthBytes, LengthOctets, EncodedLengthLength;
    PackedTag(tag);
    LengthIs(length);
  }

  /** TryRead without the DER checks accepts exactly the headers of tags and lengths that leave
      room for the value, and reports the tag and the length. */
  lemma HeaderIff(input: seq<Byte>, offset: nat, end: nat, tag: Tag, length: nat)
    requires offset <= end <= |input| && tag.Readable() && length < 0x10000
    ensures var value := offset + |HeadOctets(tag, length)|;
            value + length <= end && input[offset..value] == HeadOctets(tag, length) <==>
            HeaderAt(input, offset, end, false) == Some(Header(Packed(tag), value, length))
  {
    hide HeadOctets, HeaderAt, HeaderLength, HeaderBytes, Packed;
    HeadIs(tag, length);
    var value := offset + |HeadOctets(tag, length)|;
    if value + length <= end && input[offset..value] == HeadOctets(tag, length) {
      WrittenHeaderReads(input, offset, end, Packed(tag), length);
    }
    if HeaderAt(input, offset, end, false) == Some(Header(Packed(tag), value, length)) {
      HeaderIsWritten(input, offset, end, false);
    }
  }

  /** ... and every header it accepts is of that kind. */
  lemma HeaderOfTag(input: seq<Byte>, offset: nat, end: nat) returns (tag: Tag)
    requires offset <= end <= |input| && HeaderAt(input, offset, end, false).Some?
    ensures var h := HeaderAt(input, offset, end, false).value;
            && tag.Readable() && h.tag == Packed(tag) && h.valueLength < 0x10000
            && input[offset..h.valueOffset] == HeadOctets(tag, h.valueLength)
  {
    hide HeadOctets, HeaderAt, HeaderBytes, Packed;
    HeaderIsWritten(input, offset, end, false);
    var h := HeaderAt(input, offset, end, false).value;
    tag := UnpackedTag(h.tag);
    HeadIs(tag, h.valueLength);
  }

  lemma ElementIs(tag: Tag, content: seq<Byte>)
    requires tag.Allowed() && |content| < 0x10000
    ensures Der.Element(Packed(tag), content) == Element(tag, content)
  {
    hide HeadOctets, HeaderBytes, Packed;
    HeadIs(tag, |content|);
  }

  lemma ValueContent(value: Value)
    requires value.Allowed()
    ensures value.TagOf().Allowed() && !value.TagOf().constructed
    ensures CanonicalContent(Packed(value.TagOf()), value.Content())
  {
    hide CanonicalInteger, CanonicalBitString, CanonicalObjectIdentifier, Packed;
    if !value.Octets? { PackedSmall(value.TagOf()); }
    match value
    case Boolean(_) => BooleanIff(value.Content());
    case Integer(n) => IntegerOctetsCanonical(n);
    case BitString(bits) => BitsCanonical(bits);
    case Null =>
    case ObjectIdentifier(arcs) => ArcsCanonical(arcs);
    case Octets(tag, _) => PackedTag(tag);
  }

  lemma ContentValue(tag: Tag, content: seq<Byte>) returns (value: Value)
    requires tag.Allowed() && !tag.constructed && CanonicalContent(Packed(tag), content)
    ensures value.Allowed() && value.TagOf() == tag && value.Content() == content
  {
    hide CanonicalInteger, CanonicalBitString, CanonicalObjectIdentifier, Packed;
    if tag.cls == 0 && tag.number < 7 { PackedSmall(tag); }
    if tag == Tag(0, false, 1) {
      BooleanIff(content);
      var b :| BooleanOctets(b) == content;
      value := Boolean(b);
    } else if tag == Tag(0, false, 2) {
      IntegerIff(content);
      var n :| IntegerOctets(n) == content;
      value := Integer(n);
    } else if tag == Tag(0, false, 3) {
      BitStringIff(content);
      var bits :| BitStringOctets(bits) == content;
      value := BitString(bits);
    } else if tag == Tag(0, false, 5) {
      value := Null;
    } else if tag == Tag(0, false, 6) {
      ObjectIdentifierIff(content);
      var arcs :| arcs != [] && ObjectIdentifierOctets(arcs) == content;
      value := ObjectIdentifier(arcs);
    } else {
      value := Octets(tag, content);
    }
  }

  /** The same items with packed tags and contents as octets. */
  function Shape(items: Items): Forest
    requires Spellable(items)
  {
    match items
    case Nothing => End
    case Item(value, rest) =>
      ValueContent(value);
      Primitive(Packed(value.TagOf()), value.Content(), Shape(rest))
    case Group(tag, inner, rest) => Constructed(Packed(tag), Shape(inner), Shape(rest))
  }

  lemma {:induction false} ShapeEncodes(items: Items)
    requires Spellable(items)
    ensures Encodable(Shape(items)) && Encoded(Shape(items)) == Spelled(items)
    ensures Height(Shape(items)) == Depth(items)
  {
    hide CanonicalContent, CanonicalTagForm, EncodedTagLength, IsConstructed, Packed, Value.Content, Tag.Octets,
         Element, Der.Element, Value.TagOf;
    match items
    case Nothing =>
    case Item(value, rest) =>
      ValueContent(value);
      PackedTag(value.TagOf());
      ElementIs(value.TagOf(), value.Content());
      ShapeEncodes(rest);
    case Group(tag, inner, rest) =>
      PackedTag(tag);
      ShapeEncodes(inner);
      ElementIs(tag, Spelled(inner));
      ShapeEncodes(rest);
  }

  lemma {:induction false} ShapeOnto(f: Forest) returns (items: Items)
    requires Encodable(f)
    ensures Spellable(items) && Spelled(items) == Encoded(f) && Depth(items) == Height(f)
    ensures items == Nothing <==> f == End
  {
    hide CanonicalContent, CanonicalTagForm, EncodedTagLength, IsConstructed, Packed, Value.Content, Tag.Octets,
         Element, Der.Element, Value.TagOf, Tag.Allowed, Value.Allowed;
    match f
    case End => items := Nothing;
    case Primitive(packed, content, rest) =>
      var tag := UnpackedTag(packed);
      PackedTag(tag);
      var value := ContentValue(tag, content);
      ElementIs(tag, content);
      var more := ShapeOnto(rest);
      items := Item(value, more);
    case Constructed(packed, inner, rest) =>
      var tag := UnpackedTag(packed);
      PackedTag(tag);
      var within := ShapeOnto(inner);
      ElementIs(tag, Spelled(within));
      var more := ShapeOnto(rest);
      items := Group(tag, within, more);
  }

  /** TryValidate accepts exactly the regions that spell values, no deeper than its stack. */
  lemma ValidRegionSpells(input: seq<Byte>, lo: nat, hi: nat, room: nat)
    requires lo <= hi <= |input|
    ensures ValidRegion(input, lo, hi, room) <==>
            exists items :: Spellable(items) && Depth(items) <= room && Spelled(items) == input[lo..hi]
  {
    hide Encodable, Encoded, Height, Spellable, Spelled, Depth;
    ValidRegionIff(input, lo, hi, room);
    if ValidRegion(input, lo, hi, room) {
      var f :| Encodable(f) && Height(f) <= room && Encoded(f) == input[lo..hi];
      var items := ShapeOnto(f);
    }
    forall items | Spellable(items) && Depth(items) <= room && Spelled(items) == input[lo..hi]
      ensures ValidRegion(input, lo, hi, room)
    {
      ShapeEncodes(items);
    }
  }

  /** One value on its own: a BOOLEAN is 00 or FF, a NULL nothing at all. */
  lemma OneValue(tag: Byte, content: seq<Byte>, room: nat)
    requires tag in {1, 2, 3, 5, 6} && |content| < 128
    ensures var region := [tag, |content|] + content;
            && (tag == 1 ==> (ValidRegion(region, 0, |region|, room) <==> content == [0x00] || content == [0xFF]))
            && (tag == 5 ==> (ValidRegion(region, 0, |region|, room) <==> content == []))
            && (ValidRegion(region, 0, |region|, room) <==> CanonicalContent(tag, content))
  {
    hide CanonicalContent, HeaderAt, HeaderBytes;
    var region := [tag, |content|] + content;
    ShortHeader(tag, |content|);
    assert region[0..2] == [tag, |content|] && region[2..2 + |content|] == content;
    WrittenHeaderReads(region, 0, |region|, tag, |content|);
    EmptyRegion(region, |region|, room);
    BooleanIff(content);
    assert CanonicalContent(NULL_TAG, content) <==> content == [] by { NullIff(content); }
  }

  lemma ShortHeader(tag: Byte, length: nat)
    requires tag in {1, 2, 3, 5, 6} && length < 128
    ensures HeaderLength(tag, length) == 2 && HeaderBytes(tag, length) == [tag, length]
    ensures CanonicalTagForm(tag) && !IsConstructed(tag)
  {
  }

  lemma NullIff(content: seq<Byte>)
    ensures CanonicalContent(NULL_TAG, content) <==> content == []
  {
  }
}
