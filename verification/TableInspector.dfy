/** The inspector of a table section (scripts/mcinspect.py), whose tables and columns are those of
    format/mc04-schema.json, and what it lists for a program's metadata. Nothing here looks at how
    the section is written. */
module TableInspector {
  import opened Wrappers
  import opened Bytes
  import opened Heaps
  import opened MetadataTables

  // ---- The schema ----

  /** How wide a column is and how it is shown; `RowOf` numbers the rows of a table. */
  datatype Kind = U16 | U32 | StringIndex | BlobIndex | RowOf(table: nat)

  datatype Field = Field(name: string, kind: Kind)

  datatype Table = Table(name: string, fields: seq<Field>)

  /** Coded indexes are two octets wide. */
  function Schema(id: nat): Option<Table> {
    match id
    case 0 => Some(Table("Module", [Field("Name", StringIndex)]))
    case 1 => Some(Table("TypeRef",
      [Field("ResolutionScope", U16), Field("TypeName", StringIndex), Field("TypeNamespace", StringIndex)]))
    case 2 => Some(Table("TypeDef",
      [Field("Flags", U32), Field("TypeName", StringIndex), Field("TypeNamespace", StringIndex),
       Field("Extends", U16), Field("FieldList", RowOf(4)), Field("MethodList", RowOf(6))]))
    case 4 => Some(Table("Field", [Field("Flags", U16), Field("Name", StringIndex), Field("Signature", BlobIndex)]))
    case 6 => Some(Table("MethodDef",
      [Field("CodeOffset", U32), Field("ImplFlags", U16), Field("Flags", U16), Field("Name", StringIndex),
       Field("Signature", BlobIndex)]))
    case 10 => Some(Table("MemberRef",
      [Field("Class", U16), Field("Name", StringIndex), Field("Signature", BlobIndex)]))
    case 12 => Some(Table("CustomAttribute", [Field("Parent", U16), Field("Type", U16), Field("Value", BlobIndex)]))
    case 32 => Some(Table("Assembly",
      [Field("MajorVersion", U16), Field("MinorVersion", U16), Field("BuildNumber", U16),
       Field("RevisionNumber", U16), Field("Flags", U32), Field("Name", StringIndex)]))
    case 35 => Some(Table("AssemblyRef",
      [Field("MajorVersion", U16), Field("MinorVersion", U16), Field("BuildNumber", U16),
       Field("RevisionNumber", U16), Field("Flags", U32), Field("PublicKeyOrToken", BlobIndex),
       Field("Name", StringIndex), Field("Culture", StringIndex), Field("HashValue", BlobIndex)]))
    case _ => None
  }

  // ---- Reading ----

  datatype Value = Number(n: nat) | String(text: Name) | Octets(octets: seq<Byte>)

  /** One column of a row as it is shown. */
  datatype Cell = Cell(name: string, value: Value)

  /** A table as it is listed. */
  datatype Listing = Listing(id: nat, name: string, rows: seq<seq<Cell>>)

  /** The heaps, the widths of their indexes and the number of rows of each table. */
  datatype Frame = Frame(strings: seq<Byte>, blobs: seq<Byte>, stringWidth: Width, blobWidth: Width, counts: seq<nat>)

  /** Python's int.from_bytes in little-endian order. */
  function LittleEndian(raw: seq<Byte>, at: nat, size: nat): nat
    requires at + size <= |raw|
    decreases size
  {
    if size == 0 then 0 else raw[at] + 256 * LittleEndian(raw, at + 1, size - 1)
  }

  function SizeOf(kind: Kind, f: Frame): nat {
    match kind
    case U16 => 2
    case U32 => 4
    case StringIndex => f.stringWidth
    case BlobIndex => f.blobWidth
    case RowOf(table) => if table < |f.counts| && f.counts[table] <= 255 then 1 else 2
  }

  function ValueAt(raw: seq<Byte>, at: nat, kind: Kind, f: Frame): Option<Value>
    requires at + SizeOf(kind, f) <= |raw|
  {
    var n := LittleEndian(raw, at, SizeOf(kind, f));
    match kind
    case StringIndex => var text := StringAt(f.strings, n); if text.None? then None else Some(String(text.value))
    case BlobIndex => var octets := BlobAt(f.blobs, n); if octets.None? then None else Some(Octets(octets.value))
    case _ => Some(Number(n))
  }

  datatype Read<T> = Read(value: T, next: nat)

  /** One row: its columns one after the other. */
  function RowAt(raw: seq<Byte>, at: nat, fields: seq<Field>, f: Frame): (r: Option<Read<seq<Cell>>>)
    requires at <= |raw|
    ensures r.Some? ==> at <= r.value.next <= |raw|
    decreases |fields|
  {
    if fields == [] then Some(Read([], at))
    else if at + SizeOf(fields[0].kind, f) > |raw| then None
    else
      var value := ValueAt(raw, at, fields[0].kind, f);
      var rest := RowAt(raw, at + SizeOf(fields[0].kind, f), fields[1..], f);
      if value.None? || rest.None? then None
      else Some(Read([Cell(fields[0].name, value.value)] + rest.value.value, rest.value.next))
  }

  function RowsAt(raw: seq<Byte>, at: nat, fields: seq<Field>, count: nat, f: Frame):
      (r: Option<Read<seq<seq<Cell>>>>)
    requires at <= |raw|
    ensures r.Some? ==> at <= r.value.next <= |raw|
    decreases count
  {
    if count == 0 then Some(Read([], at))
    else
      var row := RowAt(raw, at, fields, f);
      if row.None? then None
      else
        var rest := RowsAt(raw, row.value.next, fields, count - 1, f);
        if rest.None? then None else Some(Read([row.value.value] + rest.value.value, rest.value.next))
  }

  /** The tables from number `id` on; nothing may be left over. */
  function TablesAt(raw: seq<Byte>, at: nat, id: nat, f: Frame): Option<seq<Listing>>
    requires at <= |raw| && id <= 64 == |f.counts|
    decreases 64 - id
  {
    if id == 64 then (if at == |raw| then Some([]) else None)
    else if f.counts[id] == 0 then TablesAt(raw, at, id + 1, f)
    else if Schema(id).None? then None
    else
      var rows := RowsAt(raw, at, Schema(id).value.fields, f.counts[id], f);
      if rows.None? then None
      else
        var rest := TablesAt(raw, rows.value.next, id + 1, f);
        if rest.None? then None
        else Some([Listing(id, Schema(id).value.name, rows.value.value)] + rest.value)
  }

  /** Whether the mask behind the first four octets has a bit for the table. */
  predicate HasTable(data: seq<Byte>, id: nat)
    requires |data| >= 12 && id < 64
  {
    BitOf(data[4 + id / 8], id % 8)
  }

  /** Bit `k` of an octet. */
  predicate BitOf(b: Byte, k: nat) {
    if k == 0 then b % 2 == 1 else BitOf(b / 2, k - 1)
  }

  /** One 16-bit count for each table of the mask, in order; the others have no rows. */
  function CountsAt(data: seq<Byte>, at: nat, id: nat): (r: Option<Read<seq<nat>>>)
    requires 12 <= at <= |data| && id <= 64
    ensures r.Some? ==> at <= r.value.next <= |data| && |r.value.value| == 64 - id
    decreases 64 - id
  {
    if id == 64 then Some(Read([], at))
    else if !HasTable(data, id) then
      var rest := CountsAt(data, at, id + 1);
      if rest.None? then None else Some(Read([0] + rest.value.value, rest.value.next))
    else if at + 2 > |data| then None
    else
      var rest := CountsAt(data, at + 2, id + 1);
      if rest.None? then None else Some(Read([LittleEndian(data, at, 2)] + rest.value.value, rest.value.next))
  }

  /** A table section read with the two heaps beside it. */
  function Inspect(data: seq<Byte>, strings: seq<Byte>, blobs: seq<Byte>): Option<seq<Listing>> {
    if |data| < 12 || data[0] != 2 || data[1] != 0 || data[3] != 0 then None
    else
      var counts := CountsAt(data, 12, 0);
      if counts.None? then None
      else
        var stringWidth: Width := if BitOf(data[2], 0) then 2 else 1;
        var blobWidth: Width := if BitOf(data[2], 1) then 2 else 1;
        TablesAt(data, counts.value.next, 0, Frame(strings, blobs, stringWidth, blobWidth, counts.value.value))
  }

  // ---- What it lists for a program ----

  function TypeReferenceCells(scope: UInt16, name: Name, space: Name): seq<Cell> {
    [Cell("ResolutionScope", Number(scope)), Cell("TypeName", String(Replaced(name))),
     Cell("TypeNamespace", String(Replaced(space)))]
  }

  /** Lists are numbered from one; each begins behind those of the types before it. */
  function TypeCells(types: seq<TypeDefinition>, k: nat): seq<Cell>
    requires k < |types|
  {
    [Cell("Flags", Number(types[k].flags)), Cell("TypeName", String(Replaced(types[k].name))),
     Cell("TypeNamespace", String(Replaced(types[k].space))), Cell("Extends", Number(types[k].base)),
     Cell("FieldList", Number(1 + Fields(types[..k]))), Cell("MethodList", Number(1 + Methods(types[..k])))]
  }

  function FieldCells(r: FieldRow): seq<Cell> {
    [Cell("Flags", Number(r.flags)), Cell("Name", String([95])), Cell("Signature", Octets(r.signature))]
  }

  function MethodCells(r: MethodRow): seq<Cell> {
    [Cell("CodeOffset", Number(r.codeOffset)), Cell("ImplFlags", Number(r.implFlags)), Cell("Flags", Number(r.flags)),
     Cell("Name", String(Replaced(r.name))), Cell("Signature", Octets(r.signature))]
  }

  function MemberCells(r: MemberRow): seq<Cell> {
    [Cell("Class", Number(r.parent)), Cell("Name", String(Replaced(r.name))), Cell("Signature", Octets(r.signature))]
  }

  function AttributeCells(r: AttributeRow): seq<Cell> {
    [Cell("Parent", Number(r.parent)), Cell("Type", Number(r.kind)), Cell("Value", Octets(r.value))]
  }

  function VersionCells(v: Version): seq<Cell> {
    [Cell("MajorVersion", Number(v.major)), Cell("MinorVersion", Number(v.minor)),
     Cell("BuildNumber", Number(v.build)), Cell("RevisionNumber", Number(v.revision))]
  }

  function AssemblyCells(m: Metadata): seq<Cell> {
    VersionCells(m.version) + [Cell("Flags", Number(m.flags)), Cell("Name", String(Replaced(m.assemblyName)))]
  }

  function ReferenceCells(r: Reference): seq<Cell> {
    VersionCells(r.version) +
    [Cell("Flags", Number(r.flags)), Cell("PublicKeyOrToken", Octets(r.key)), Cell("Name", String(Replaced(r.name))),
     Cell("Culture", String(Replaced(r.culture))), Cell("HashValue", Octets(r.hash))]
  }

  /** The rows of each table: row k shows the k-th record. "System" is the namespace of the
      synthetic types, which come last among the type references. */
  function Records(m: Metadata, id: nat): seq<seq<Cell>> {
    match id
    case 0 => [[Cell("Name", String(Replaced(m.moduleName)))]]
    case 1 =>
      var given := |m.typeReferences|;
      seq(given + |m.syntheticTypes|, k requires 0 <= k < given + |m.syntheticTypes| =>
        if k < given
        then TypeReferenceCells(m.typeReferences[k].scope, m.typeReferences[k].name, m.typeReferences[k].space)
        else TypeReferenceCells(m.syntheticTypes[k - given].scope, m.syntheticTypes[k - given].name,
                                [83, 121, 115, 116, 101, 109]))
    case 2 => seq(|m.typeDefinitions|, k requires 0 <= k < |m.typeDefinitions| => TypeCells(m.typeDefinitions, k))
    case 4 => seq(|m.fields|, k requires 0 <= k < |m.fields| => FieldCells(m.fields[k]))
    case 6 => seq(|m.methods|, k requires 0 <= k < |m.methods| => MethodCells(m.methods[k]))
    case 10 => seq(|m.members|, k requires 0 <= k < |m.members| => MemberCells(m.members[k]))
    case 12 => seq(|m.attributes|, k requires 0 <= k < |m.attributes| => AttributeCells(m.attributes[k]))
    case 32 => [AssemblyCells(m)]
    case 35 => seq(|m.references|, k requires 0 <= k < |m.references| => ReferenceCells(m.references[k]))
    case _ => []
  }

  function TableName(id: nat): string {
    match id
    case 0 => "Module"
    case 1 => "TypeRef"
    case 2 => "TypeDef"
    case 4 => "Field"
    case 6 => "MethodDef"
    case 10 => "MemberRef"
    case 12 => "CustomAttribute"
    case 32 => "Assembly"
    case 35 => "AssemblyRef"
    case _ => ""
  }

  /** Every table with rows, in the order of their numbers. */
  function Listings(m: Metadata, id: nat): seq<Listing>
    requires id <= 64
    decreases 64 - id
  {
    if id == 64 then []
    else
      (if Records(m, id) == [] then [] else [Listing(id, TableName(id), Records(m, id))]) + Listings(m, id + 1)
  }
}
