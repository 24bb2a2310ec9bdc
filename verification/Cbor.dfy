/** The restricted deterministic CBOR of scripts/device_cbor.py (section 4.2.1 of RFC 8949)
    and the second reader and head writer of managed/MicroCard.Build/ManifestCbor.cs. */
module Cbor {
  import opened Wrappers
  import opened Bytes
  import opened Utf8

  const MAXIMUM_DEPTH := 16
  const QUOTA := 16384

  datatype Value =
    | Null
    | Boolean(flag: bool)
    | Integer(number: int)
    | Binary(octets: seq<Byte>)
    | Text(characters: seq<CodePoint>)
    | List(items: seq<Value>)

  // ---- Heads ----

  /** The octets of the argument for additional information 24 to 27. */
  function Width(additional: int): nat {
    if additional == 24 then 1 else if additional == 25 then 2 else if additional == 26 then 4 else 8
  }

  /** The least argument that needs this many octets. */
  function Least(additional: int): nat {
    if additional == 24 then 24 else if additional == 25 then 0x100
    else if additional == 26 then 0x1_0000 else 0x1_0000_0000
  }

  type Major = x: int | 0 <= x < 8

  function Argument(major: Major, value: int): Option<seq<Byte>> {
    if !(0 <= value <= 0xFFFF_FFFF_FFFF_FFFF) then None
    else if value < 24 then Some([major * 32 + value])
    else if value < 0x100 then Some([major * 32 + 24] + BigEndian(value, 1))
    else if value < 0x1_0000 then Some([major * 32 + 25] + BigEndian(value, 2))
    else if value < 0x1_0000_0000 then Some([major * 32 + 26] + BigEndian(value, 4))
    else Some([major * 32 + 27] + BigEndian(value, 8))
  }

  // ---- Encoding ----

  /** `None` where the source raises: an argument past 64 bits, or text with a surrogate. */
  function Encode(value: Value): Option<seq<Byte>> {
    match value
    case Null => Some([0xF6])
    case Boolean(flag) => Some(if flag then [0xF5] else [0xF4])
    case Integer(number) => if number >= 0 then Argument(0, number) else Argument(1, -1 - number)
    case Binary(octets) => Join(Argument(2, |octets|), Some(octets))
    case Text(characters) =>
      if !IsText(characters) then None
      else Join(Argument(3, |Utf8Of(characters)|), Some(Utf8Of(characters)))
    case List(items) => Join(Argument(4, |items|), EncodeAll(items))
  }

  function EncodeAll(items: seq<Value>): Option<seq<Byte>> {
    if items == [] then Some([]) else Join(Encode(items[0]), EncodeAll(items[1..]))
  }

  function Join(a: Option<seq<Byte>>, b: Option<seq<Byte>>): Option<seq<Byte>> {
    if a.None? || b.None? then None else Some(a.value + b.value)
  }

  /** How deep arrays nest around their innermost item. */
  function Depth(value: Value): nat {
    if value.List? then DepthAll(value.items) else 0
  }

  function DepthAll(items: seq<Value>): nat {
    if items == [] then 0
    else if 1 + Depth(items[0]) >= DepthAll(items[1..]) then 1 + Depth(items[0])
    else DepthAll(items[1..])
  }

  // ---- Decoding ----

  datatype Head = Head(major: Major, argument: nat, next: nat)

  function HeadAt(data: seq<Byte>, at: nat, negatives: bool): (r: Option<Head>)
    ensures r.Some? ==> at < r.value.next <= |data| && r.value.major <= 4
  {
    if at >= |data| then None
    else
      var initial: int := data[at];
      var major, additional := initial / 32, initial % 32;
      if major > 4 || (major == 1 && !negatives) || additional > 27 then None
      else if additional < 24 then Some(Head(major, additional, at + 1))
      else if Width(additional) > |data| - (at + 1) then None
      else
        var next := at + 1 + Width(additional);
        var argument := FromBigEndian(data[at + 1..next]);
        if argument < Least(additional) then None else Some(Head(major, argument, next))
  }

  function SimpleAt(data: seq<Byte>, at: nat): Option<Value> {
    if at >= |data| then None
    else if data[at] == 0xF4 then Some(Boolean(false))
    else if data[at] == 0xF5 then Some(Boolean(true))
    else if data[at] == 0xF6 then Some(Null)
    else None
  }

  datatype Item = Item(value: Value, next: nat)
  datatype Items = Items(values: seq<Value>, next: nat)

  /** The item at `at`; `negatives` says whether major type 1 is admitted. */
  function ItemAt(data: seq<Byte>, at: nat, depth: int, negatives: bool): (r: Option<Item>)
    requires at <= |data|
    ensures r.Some? ==> at < r.value.next <= |data|
    decreases |data| - at, 0
  {
    if depth > MAXIMUM_DEPTH then None
    else if SimpleAt(data, at).Some? then Some(Item(SimpleAt(data, at).value, at + 1))
    else
      var head := HeadAt(data, at, negatives);
      if head.None? then None
      else
        var Head(major, argument, next) := head.value;
        if major == 0 then Some(Item(Integer(argument), next))
        else if major == 1 then Some(Item(Integer(-1 - argument), next))
        else if argument > |data| - next then None
        else if major == 2 then Some(Item(Binary(data[next..next + argument]), next + argument))
        else if major == 3 then
          var text := TextOf(data[next..next + argument]);
          if text.None? then None else Some(Item(Text(text.value), next + argument))
        else
          var items := ItemsAt(data, next, depth + 1, negatives, argument);
          if items.None? then None else Some(Item(List(items.value.values), items.value.next))
  }

  function ItemsAt(data: seq<Byte>, at: nat, depth: int, negatives: bool, count: nat): (r: Option<Items>)
    requires at <= |data|
    ensures r.Some? ==> at <= r.value.next <= |data| && |r.value.values| == count
    decreases |data| - at, 1 + count
  {
    if count == 0 then Some(Items([], at))
    else
      var first := ItemAt(data, at, depth, negatives);
      if first.None? then None
      else
        var rest := ItemsAt(data, first.value.next, depth, negatives, count - 1);
        if rest.None? then None else Some(Items([first.value.value] + rest.value.values, rest.value.next))
  }

  function Decode(data: seq<Byte>): Option<Value> {
    if |data| > QUOTA then None
    else
      var item := ItemAt(data, 0, 0, true);
      if item.None? || item.value.next != |data| then None else Some(item.value.value)
  }
}
