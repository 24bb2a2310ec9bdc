/** Written table rows read back: the inspector lists for a section exactly the records its
    columns were written from. */
module TableReading {
  import opened Wrappers
  import opened Bytes
  import opened Heaps
  import opened MetadataTables
  import opened TableInspector

  // ---- What a column is written as ----

  /** The octets of a column; an index that is not known or too wide has none. */
  function ColumnOctets(c: Column, names: map<Name, nat>, values: map<seq<Byte>, nat>, stringWidth: Width,
                        blobWidth: Width): seq<Byte> {
    match c
    case Number16(n) => Le16(n)
    case Number32(word) => Le32(word)
    case Text(name) => if name in names then IndexOf(names[name], stringWidth) else []
    case Blob(value) => if value in values then IndexOf(values[value], blobWidth) else []
    case Start(row, width) => IndexOf(row, width)
  }

  function IndexOf(index: nat, width: Width): seq<Byte> {
    if !FitsWidth(index, width) then [] else if width == 1 then [index] else Le16(index)
  }

  function Written(columns: seq<Column>, names: map<Name, nat>, values: map<seq<Byte>, nat>, stringWidth: Width,
                   blobWidth: Width): seq<Byte> {
    if columns == [] then []
    else
      ColumnOctets(columns[0], names, values, stringWidth, blobWidth)
      + Written(columns[1..], names, values, stringWidth, blobWidth)
  }

  predicate Known(names: map<Name, nat>, values: map<seq<Byte>, nat>, c: Column) {
    (c.Text? ==> c.name in names) && (c.Blob? ==> c.value in values)
  }

  predicate AllKnown(names: map<Name, nat>, values: map<seq<Byte>, nat>, columns: seq<Column>) {
    forall k :: 0 <= k < |columns| ==> Known(names, values, columns[k])
  }

  predicate HeapsHold(names: map<Name, nat>, values: map<seq<Byte>, nat>, f: Frame) {
    && (forall s :: s in names ==> names[s] < 0x1_0000 && HoldsName(f.strings, names[s], s))
    && (forall s :: s in values ==> values[s] < 0x1_0000 && HoldsBlob(f.blobs, values[s], s))
    && (f.stringWidth == 1 ==> |f.strings| <= 256)
    && (f.blobWidth == 1 ==> |f.blobs| <= 256)
  }

  lemma HeldName(names: map<Name, nat>, values: map<seq<Byte>, nat>, f: Frame, name: Name)
    requires HeapsHold(names, values, f) && name in names
    ensures HoldsName(f.strings, names[name], name) && FitsWidth(names[name], f.stringWidth) && names[name] < 0x1_0000
  {
  }

  lemma HeldBlob(names: map<Name, nat>, values: map<seq<Byte>, nat>, f: Frame, value: seq<Byte>)
    requires HeapsHold(names, values, f) && value in values
    ensures HoldsBlob(f.blobs, values[value], value) && FitsWidth(values[value], f.blobWidth)
            && values[value] < 0x1_0000
  {
  }

  lemma {:induction false} WrittenAppend(a: seq<Column>, b: seq<Column>, names: map<Name, nat>,
                                         values: map<seq<Byte>, nat>, stringWidth: Width, blobWidth: Width)
    ensures Written(a + b, names, values, stringWidth, blobWidth)
         == Written(a, names, values, stringWidth, blobWidth) + Written(b, names, values, stringWidth, blobWidth)
  {
    hide ColumnOctets;
    if a == [] {
      assert a + b == b;
    } else {
      WrittenAppend(a[1..], b, names, values, stringWidth, blobWidth);
      assert (a + b)[0] == a[0] && (a + b)[1..] == a[1..] + b;
      Regroup(ColumnOctets(a[0], names, values, stringWidth, blobWidth),
              Written(a[1..], names, values, stringWidth, blobWidth),
              Written(b, names, values, stringWidth, blobWidth));
    }
  }

  lemma Regroup<T>(a: seq<T>, b: seq<T>, c: seq<T>)
    ensures a + b + c == a + (b + c)
  {
  }

  // ---- One column ----

  predicate At(raw: seq<Byte>, at: nat, octets: seq<Byte>) {
    at + |octets| <= |raw| && raw[at..at + |octets|] == octets
  }

  lemma AtCut(raw: seq<Byte>, at: nat, a: seq<Byte>, b: seq<Byte>)
    requires At(raw, at, a + b)
    ensures At(raw, at, a) && At(raw, at + |a|, b) && at + |a| + |b| <= |raw|
  {
    var whole := raw[at..at + |a + b|];
    assert raw[at..at + |a|] == whole[..|a|] && raw[at + |a|..at + |a| + |b|] == whole[|a|..];
  }

  lemma LittleEndianSizes(raw: seq<Byte>, at: nat)
    ensures at + 1 <= |raw| ==> LittleEndian(raw, at, 1) == raw[at]
    ensures at + 2 <= |raw| ==>
              var b0: int, b1: int := raw[at], raw[at + 1];
              LittleEndian(raw, at, 2) == b0 + 256 * b1
    ensures at + 4 <= |raw| ==>
              var b0: int, b1: int, b2: int, b3: int := raw[at], raw[at + 1], raw[at + 2], raw[at + 3];
              LittleEndian(raw, at, 4) == b0 + 256 * b1 + 65536 * b2 + 16777216 * b3
  {
    if at + 4 <= |raw| {
      var b2: int, b3: int := raw[at + 2], raw[at + 3];
      assert LittleEndian(raw, at + 4, 0) == 0;
      assert LittleEndian(raw, at + 3, 1) == b3;
      assert LittleEndian(raw, at + 2, 2) == b2 + 256 * b3;
    }
  }

  lemma Number16Reads(raw: seq<Byte>, at: nat, n: UInt16)
    requires At(raw, at, Le16(n))
    ensures LittleEndian(raw, at, 2) == n
  {
    var octets := raw[at..at + 2];
    assert raw[at] == octets[0] && raw[at + 1] == octets[1];
    LittleEndianSizes(raw, at);
  }

  lemma Number32Reads(raw: seq<Byte>, at: nat, n: UInt32)
    requires At(raw, at, Le32(n))
    ensures LittleEndian(raw, at, 4) == n
  {
    hide Le32, LittleEndian;
    var octets := raw[at..at + 4];
    assert raw[at] == octets[0] && raw[at + 1] == octets[1] && raw[at + 2] == octets[2] && raw[at + 3] == octets[3];
    LittleEndianSizes(raw, at);
    Le32Parts(n);
  }

  lemma Le32Parts(n: UInt32)
    ensures var s := Le32(n);
            var b0: int, b1: int, b2: int, b3: int := s[0], s[1], s[2], s[3];
            n == b0 + 256 * b1 + 65536 * b2 + 16777216 * b3
  {
    SplitWord(n);
  }

  lemma IndexReads(raw: seq<Byte>, at: nat, index: nat, width: Width)
    requires FitsWidth(index, width) && At(raw, at, IndexOf(index, width))
    ensures |IndexOf(index, width)| == width && LittleEndian(raw, at, width) == index
  {
    if width == 2 {
      Number16Reads(raw, at, index);
    } else {
      assert raw[at] == raw[at..at + 1][0];
      LittleEndianSizes(raw, at);
    }
  }

  /** What the inspector shows of a column; lone surrogates were replaced. */
  function Shown(c: Column): Value {
    match c
    case Number16(n) => Number(n)
    case Number32(word) => Number(word)
    case Text(name) => String(Replaced(name))
    case Blob(value) => Octets(value)
    case Start(row, _) => Number(row)
  }

  /** The column is of the kind the schema gives. */
  predicate OfKind(c: Column, kind: Kind, f: Frame) {
    match c
    case Number16(_) => kind == U16
    case Number32(_) => kind == U32
    case Text(_) => kind == StringIndex
    case Blob(_) => kind == BlobIndex
    case Start(_, width) => kind.RowOf? && width == SizeOf(kind, f)
  }

  lemma ColumnReads(c: Column, kind: Kind, names: map<Name, nat>, values: map<seq<Byte>, nat>, f: Frame,
                    raw: seq<Byte>, at: nat)
    requires Known(names, values, c) && StartFits(c) && HeapsHold(names, values, f) && OfKind(c, kind, f)
    requires At(raw, at, ColumnOctets(c, names, values, f.stringWidth, f.blobWidth))
    ensures |ColumnOctets(c, names, values, f.stringWidth, f.blobWidth)| == SizeOf(kind, f)
    ensures at + SizeOf(kind, f) <= |raw| && ValueAt(raw, at, kind, f) == Some(Shown(c))
  {
    hide StringAt, BlobAt, IndexOf, LittleEndian, FitsWidth, HeapsHold, HoldsName, HoldsBlob, At, Le16, Le32;
    match c
    case Number16(n) =>
      Number16Reads(raw, at, n);
      AtBound(raw, at, Le16(n));
    case Number32(word) =>
      Number32Reads(raw, at, word);
      AtBound(raw, at, Le32(word));
    case Text(name) =>
      HeldName(names, values, f, name);
      IndexReads(raw, at, names[name], f.stringWidth);
      AtBound(raw, at, IndexOf(names[name], f.stringWidth));
      NameReads(f.strings, names[name], name);
    case Blob(value) =>
      HeldBlob(names, values, f, value);
      IndexReads(raw, at, values[value], f.blobWidth);
      AtBound(raw, at, IndexOf(values[value], f.blobWidth));
      BlobReads(f.blobs, values[value], value);
    case Start(row, width) =>
      IndexReads(raw, at, row, width);
      AtBound(raw, at, IndexOf(row, width));
  }

  lemma AtBound(raw: seq<Byte>, at: nat, octets: seq<Byte>)
    requires At(raw, at, octets)
    ensures at + |octets| <= |raw|
  {
  }

  // ---- Rows ----

  predicate RowOfKind(row: seq<Column>, fields: seq<Field>, f: Frame) {
    |row| == |fields| && forall k :: 0 <= k < |row| ==> OfKind(row[k], fields[k].kind, f)
  }

  function CellsOf(row: seq<Column>, fields: seq<Field>): (cells: seq<Cell>)
    requires |row| == |fields|
    ensures |cells| == |row|
  {
    seq(|row|, k requires 0 <= k < |row| => Cell(fields[k].name, Shown(row[k])))
  }

  lemma {:induction false} RowReads(row: seq<Column>, fields: seq<Field>, names: map<Name, nat>,
                                    values: map<seq<Byte>, nat>, f: Frame, raw: seq<Byte>, at: nat)
    requires AllKnown(names, values, row) && ListsFit(row) && HeapsHold(names, values, f) && RowOfKind(row, fields, f)
    requires At(raw, at, Written(row, names, values, f.stringWidth, f.blobWidth)) && at <= |raw|
    ensures RowAt(raw, at, fields, f) ==
            Some(Read(CellsOf(row, fields), at + |Written(row, names, values, f.stringWidth, f.blobWidth)|))
    decreases |row|
  {
    hide HeapsHold, Known, ColumnOctets, ValueAt, SizeOf, Shown, At, StartFits;
    if row != [] {
      var octets := ColumnOctets(row[0], names, values, f.stringWidth, f.blobWidth);
      var rest := Written(row[1..], names, values, f.stringWidth, f.blobWidth);
      assert Known(names, values, row[0]) && StartFits(row[0]) && OfKind(row[0], fields[0].kind, f);
      AtCut(raw, at, octets, rest);
      ColumnReads(row[0], fields[0].kind, names, values, f, raw, at);
      RowReads(row[1..], fields[1..], names, values, f, raw, at + |octets|);
      assert CellsOf(row, fields) == [Cell(fields[0].name, Shown(row[0]))] + CellsOf(row[1..], fields[1..]);
    } else {
      assert CellsOf(row, fields) == [];
    }
  }

  function Flat(rows: seq<seq<Column>>): seq<Column> {
    if rows == [] then [] else rows[0] + Flat(rows[1..])
  }

  lemma {:induction false} FlatAppend(a: seq<seq<Column>>, b: seq<seq<Column>>)
    ensures Flat(a + b) == Flat(a) + Flat(b)
  {
    if a == [] {
      assert a + b == b;
    } else {
      FlatAppend(a[1..], b);
      assert (a + b)[0] == a[0] && (a + b)[1..] == a[1..] + b;
      Regroup(a[0], Flat(a[1..]), Flat(b));
    }
  }

  predicate RowsOfKind(rows: seq<seq<Column>>, fields: seq<Field>, f: Frame) {
    forall i :: 0 <= i < |rows| ==> RowOfKind(rows[i], fields, f)
  }

  function CellRows(rows: seq<seq<Column>>, fields: seq<Field>, f: Frame): seq<seq<Cell>>
    requires RowsOfKind(rows, fields, f)
  {
    seq(|rows|, i requires 0 <= i < |rows| => CellsOf(rows[i], fields))
  }

  lemma {:induction false} RowsRead(rows: seq<seq<Column>>, fields: seq<Field>, names: map<Name, nat>,
                                    values: map<seq<Byte>, nat>, f: Frame, raw: seq<Byte>, at: nat)
    requires AllKnown(names, values, Flat(rows)) && ListsFit(Flat(rows)) && HeapsHold(names, values, f)
    requires RowsOfKind(rows, fields, f)
    requires At(raw, at, Written(Flat(rows), names, values, f.stringWidth, f.blobWidth)) && at <= |raw|
    ensures RowsAt(raw, at, fields, |rows|, f) ==
            Some(Read(CellRows(rows, fields, f),
                      at + |Written(Flat(rows), names, values, f.stringWidth, f.blobWidth)|))
    decreases |rows|
  {
    hide HeapsHold, Written, RowAt, CellsOf, At, OfKind, AllKnown, ListsFit;
    if rows == [] {
      NothingWritten(names, values, f);
      assert CellRows(rows, fields, f) == [];
    } else {
      var row, rest := rows[0], rows[1..];
      assert RowOfKind(row, fields, f);
      var octets := Written(row, names, values, f.stringWidth, f.blobWidth);
      KnownJoin(names, values, row, Flat(rest));
      ListsFitJoin(row, Flat(rest));
      WrittenAppend(row, Flat(rest), names, values, f.stringWidth, f.blobWidth);
      AtCut(raw, at, octets, Written(Flat(rest), names, values, f.stringWidth, f.blobWidth));
      RowReads(row, fields, names, values, f, raw, at);
      RowsRead(rest, fields, names, values, f, raw, at + |octets|);
      assert CellRows(rows, fields, f) == [CellsOf(row, fields)] + CellRows(rest, fields, f);
    }
  }

  lemma NothingWritten(names: map<Name, nat>, values: map<seq<Byte>, nat>, f: Frame)
    ensures Written([], names, values, f.stringWidth, f.blobWidth) == []
  {
  }

  lemma KnownJoin(names: map<Name, nat>, values: map<seq<Byte>, nat>, a: seq<Column>, b: seq<Column>)
    ensures AllKnown(names, values, a + b) <==> AllKnown(names, values, a) && AllKnown(names, values, b)
  {
    hide Known;
    var both := a + b;
    assert forall k :: 0 <= k < |a| ==> both[k] == a[k];
    assert forall k :: 0 <= k < |b| ==> both[|a| + k] == b[k];
  }

  // ---- Tables ----

  function Rows<T>(rows: seq<T>, columns: T -> seq<Column>): seq<seq<Column>> {
    seq(|rows|, k requires 0 <= k < |rows| => columns(rows[k]))
  }

  function TypeRows(types: seq<TypeDefinition>, fieldStart: nat, methodStart: nat, narrow: Widths): seq<seq<Column>> {
    seq(|types|, k requires 0 <= k < |types| =>
      TypeRow(types[k], fieldStart + Fields(types[..k]), methodStart + Methods(types[..k]), narrow))
  }

  /** The rows of each table in columns. */
  function TableRows(m: Metadata, id: nat): seq<seq<Column>> {
    match id
    case 0 => [[Text(m.moduleName)]]
    case 1 => Rows(m.typeReferences, TypeReferenceRow) + Rows(m.syntheticTypes, SyntheticRow)
    case 2 => TypeRows(m.typeDefinitions, 1, 1, ListWidths(m))
    case 4 => Rows(m.fields, FieldColumns)
    case 6 => Rows(m.methods, MethodColumns)
    case 10 => Rows(m.members, MemberColumns)
    case 12 => Rows(m.attributes, AttributeColumns)
    case 32 => [AssemblyColumns(m)]
    case 35 => Rows(m.references, ReferenceColumns)
    case _ => []
  }

  /** All rows of the tables from number `id` on. */
  function FlatFrom(m: Metadata, id: nat): seq<Column>
    requires id <= 64
    decreases 64 - id
  {
    if id == 64 then [] else Flat(TableRows(m, id)) + FlatFrom(m, id + 1)
  }

  lemma {:induction false} FlatIsConcat<T>(rows: seq<T>, columns: T -> seq<Column>)
    ensures Flat(Rows(rows, columns)) == Concat(rows, columns)
  {
    if rows != [] {
      FlatIsConcat(rows[1..], columns);
      assert Rows(rows, columns)[1..] == Rows(rows[1..], columns);
    }
  }

  lemma {:induction false} FlatTypes(types: seq<TypeDefinition>, fieldStart: nat, methodStart: nat, narrow: Widths)
    ensures Flat(TypeRows(types, fieldStart, methodStart, narrow))
         == TypeDefinitionRows(types, fieldStart, methodStart, narrow)
  {
    hide TypeRow;
    if types != [] {
      var rest := types[1..];
      var f, m := fieldStart + types[0].fields, methodStart + types[0].methods;
      FlatTypes(rest, f, m, narrow);
      var rows := TypeRows(types, fieldStart, methodStart, narrow);
      forall k | 0 <= k < |rest| ensures rows[1..][k] == TypeRows(rest, f, m, narrow)[k] {
        assert types[..k + 1][1..] == rest[..k];
      }
      assert rows[1..] == TypeRows(rest, f, m, narrow);
      assert types[..0] == [];
    }
  }

  predicate InSchema(id: nat) { id in {0, 1, 2, 4, 6, 10, 12, 32, 35} }

  /** Tables without rows between two others. */
  lemma {:induction false} NoRowsBetween(m: Metadata, first: nat, end: nat)
    requires first <= end <= 64 && forall id: nat :: first <= id < end ==> !InSchema(id)
    ensures FlatFrom(m, first) == FlatFrom(m, end)
    decreases end - first
  {
    if first < end {
      NoRowsBetween(m, first + 1, end);
      NoRows(m, first);
    }
  }

  lemma NoRows(m: Metadata, id: nat)
    requires !InSchema(id)
    ensures TableRows(m, id) == [] && Records(m, id) == [] && Schema(id).None?
  {
  }

  /** The columns are written table by table in the order of the tables' numbers. */
  lemma ColumnsInOrder(m: Metadata)
    ensures Columns(m) == FlatFrom(m, 0)
  {
    hide Concat, TypeDefinitionRows, Flat, FlatFrom, TableRows, Rows, AssemblyColumns;
    NoRowsBetween(m, 3, 4);
    NoRowsBetween(m, 5, 6);
    NoRowsBetween(m, 7, 10);
    NoRowsBetween(m, 11, 12);
    NoRowsBetween(m, 13, 32);
    NoRowsBetween(m, 33, 35);
    NoRowsBetween(m, 36, 64);
    TablesInColumns(m);
    FlatSteps(m);
    Reassociate([Text(m.moduleName)], Concat(m.typeReferences, TypeReferenceRow),
                Concat(m.syntheticTypes, SyntheticRow),
                TypeDefinitionRows(m.typeDefinitions, 1, 1, ListWidths(m)), Concat(m.fields, FieldColumns),
                Concat(m.methods, MethodColumns), Concat(m.members, MemberColumns),
                Concat(m.attributes, AttributeColumns), AssemblyColumns(m), Concat(m.references, ReferenceColumns));
  }

  lemma TablesInColumns(m: Metadata)
    ensures Flat(TableRows(m, 0)) == [Text(m.moduleName)]
    ensures Flat(TableRows(m, 1)) == Concat(m.typeReferences, TypeReferenceRow) + Concat(m.syntheticTypes, SyntheticRow)
    ensures Flat(TableRows(m, 2)) == TypeDefinitionRows(m.typeDefinitions, 1, 1, ListWidths(m))
    ensures Flat(TableRows(m, 4)) == Concat(m.fields, FieldColumns)
    ensures Flat(TableRows(m, 6)) == Concat(m.methods, MethodColumns)
    ensures Flat(TableRows(m, 10)) == Concat(m.members, MemberColumns)
    ensures Flat(TableRows(m, 12)) == Concat(m.attributes, AttributeColumns)
    ensures Flat(TableRows(m, 32)) == AssemblyColumns(m)
    ensures Flat(TableRows(m, 35)) == Concat(m.references, ReferenceColumns)
  {
    hide Concat, TypeDefinitionRows, Rows, TypeRows, AssemblyColumns, Flat;
    OneRow([Text(m.moduleName)]);
    OneRow(AssemblyColumns(m));
    FlatIsConcat(m.typeReferences, TypeReferenceRow);
    FlatIsConcat(m.syntheticTypes, SyntheticRow);
    FlatAppend(Rows(m.typeReferences, TypeReferenceRow), Rows(m.syntheticTypes, SyntheticRow));
    FlatTypes(m.typeDefinitions, 1, 1, ListWidths(m));
    FlatIsConcat(m.fields, FieldColumns);
    FlatIsConcat(m.methods, MethodColumns);
    FlatIsConcat(m.members, MemberColumns);
    FlatIsConcat(m.attributes, AttributeColumns);
    FlatIsConcat(m.references, ReferenceColumns);
  }

  lemma OneRow(row: seq<Column>)
    ensures Flat([row]) == row
  {
    assert [row][1..] == [] && row + [] == row;
  }

  lemma FlatSteps(m: Metadata)
    ensures FlatFrom(m, 64) == []
    ensures forall id :: 0 <= id < 64 ==> FlatFrom(m, id) == Flat(TableRows(m, id)) + FlatFrom(m, id + 1)
  {
    hide Flat, TableRows;
  }

  lemma Reassociate(a: seq<Column>, b: seq<Column>, c: seq<Column>, d: seq<Column>, e: seq<Column>, f: seq<Column>,
                    g: seq<Column>, h: seq<Column>, i: seq<Column>, j: seq<Column>)
    ensures a + b + c + d + e + f + g + h + i + j
         == a + ((b + c) + (d + (e + (f + (g + (h + (i + (j + []))))))))
  {
  }

  // ---- The tables of a program read back ----

  function Counts(m: Metadata): (counts: seq<nat>)
    ensures |counts| == 64
  {
    seq(64, id requires 0 <= id < 64 => |Records(m, id)|)
  }

  /** The columns of a table are of the kinds the schema gives, and show its records. */
  lemma RecordsShown(m: Metadata, id: nat, f: Frame)
    requires InSchema(id) && f.counts == Counts(m)
    ensures Schema(id).Some? && Schema(id).value.name == TableName(id)
    ensures RowsOfKind(TableRows(m, id), Schema(id).value.fields, f)
    ensures CellRows(TableRows(m, id), Schema(id).value.fields, f) == Records(m, id)
  {
    hide OfKind, CellsOf;
    var rows, fields := TableRows(m, id), Schema(id).value.fields;
    RecordsCounted(m, id);
    forall k | 0 <= k < |rows|
      ensures RowOfKind(rows[k], fields, f) && CellsOf(rows[k], fields) == Records(m, id)[k]
    {
      RecordShown(m, id, f, k);
    }
  }

  lemma RecordsCounted(m: Metadata, id: nat)
    ensures |TableRows(m, id)| == |Records(m, id)|
  {
  }

  /** The columns of one row, in the order of the schema, show these cells. */
  predicate RowShows(row: seq<Column>, id: nat, f: Frame, cells: seq<Cell>)
    requires InSchema(id)
  {
    var fields := Schema(id).value.fields;
    RowOfKind(row, fields, f) && CellsOf(row, fields) == cells
  }

  lemma RecordShown(m: Metadata, id: nat, f: Frame, k: nat)
    requires InSchema(id) && f.counts == Counts(m) && k < |TableRows(m, id)| == |Records(m, id)|
    ensures RowShows(TableRows(m, id)[k], id, f, Records(m, id)[k])
  {
    hide Counts, RowShows;
    if id == 0 { ModuleShown(m, f); }
    else if id == 1 { TypeReferenceShown(m, f, k); }
    else if id == 2 { TypeShown(m, f, k); }
    else if id == 4 { FieldShown(m.fields[k], f); }
    else if id == 6 { MethodShown(m.methods[k], f); }
    else if id == 10 { MemberShown(m.members[k], f); }
    else if id == 12 { AttributeShown(m.attributes[k], f); }
    else if id == 32 { AssemblyShown(m, f); }
    else { ReferenceShown(m.references[k], f); }
  }

  lemma ModuleShown(m: Metadata, f: Frame)
    ensures RowShows([Text(m.moduleName)], 0, f, Records(m, 0)[0])
  {
  }

  lemma TypeReferenceShown(m: Metadata, f: Frame, k: nat)
    requires k < |TableRows(m, 1)| == |Records(m, 1)|
    ensures RowShows(TableRows(m, 1)[k], 1, f, Records(m, 1)[k])
  {
    hide RowShows, TypeReferenceRow, SyntheticRow, TypeReferenceCells;
    if k < |m.typeReferences| {
      GivenTypeShown(m.typeReferences[k], f);
    } else {
      SyntheticTypeShown(m.syntheticTypes[k - |m.typeReferences|], f);
    }
  }

  lemma GivenTypeShown(r: TypeReference, f: Frame)
    ensures RowShows(TypeReferenceRow(r), 1, f, TypeReferenceCells(r.scope, r.name, r.space))
  {
  }

  lemma SyntheticTypeShown(r: SyntheticType, f: Frame)
    ensures RowShows(SyntheticRow(r), 1, f, TypeReferenceCells(r.scope, r.name, [83, 121, 115, 116, 101, 109]))
  {
    SystemIsText();
  }

  lemma TypeShown(m: Metadata, f: Frame, k: nat)
    requires f.counts == Counts(m) && k < |m.typeDefinitions|
    ensures RowShows(TableRows(m, 2)[k], 2, f, Records(m, 2)[k])
  {
    hide Counts;
    ListCounts(m);
  }

  lemma FieldShown(r: FieldRow, f: Frame)
    ensures RowShows(FieldColumns(r), 4, f, FieldCells(r))
  {
    UnderscoreIsText();
  }

  lemma MethodShown(r: MethodRow, f: Frame)
    ensures RowShows(MethodColumns(r), 6, f, MethodCells(r))
  {
  }

  lemma MemberShown(r: MemberRow, f: Frame)
    ensures RowShows(MemberColumns(r), 10, f, MemberCells(r))
  {
  }

  lemma AttributeShown(r: AttributeRow, f: Frame)
    ensures RowShows(AttributeColumns(r), 12, f, AttributeCells(r))
  {
  }

  lemma AssemblyShown(m: Metadata, f: Frame)
    ensures RowShows(AssemblyColumns(m), 32, f, AssemblyCells(m))
  {
  }

  lemma ReferenceShown(r: Reference, f: Frame)
    ensures RowShows(ReferenceColumns(r), 35, f, ReferenceCells(r))
  {
  }

  lemma ListCounts(m: Metadata)
    ensures Counts(m)[4] == |m.fields| && Counts(m)[6] == |m.methods|
  {
  }

  lemma SystemIsText()
    ensures Replaced(SYSTEM) == SYSTEM == [83, 121, 115, 116, 101, 109]
  {
  }

  lemma UnderscoreIsText()
    ensures Replaced(FIELD_NAME) == FIELD_NAME == [95]
  {
  }

  lemma {:induction false} TablesRead(m: Metadata, id: nat, names: map<Name, nat>, values: map<seq<Byte>, nat>,
                                      f: Frame, raw: seq<Byte>, at: nat)
    requires id <= 64 && at <= |raw| && f.counts == Counts(m)
    requires AllKnown(names, values, FlatFrom(m, id)) && ListsFit(FlatFrom(m, id)) && HeapsHold(names, values, f)
    requires At(raw, at, Written(FlatFrom(m, id), names, values, f.stringWidth, f.blobWidth))
    requires at + |Written(FlatFrom(m, id), names, values, f.stringWidth, f.blobWidth)| == |raw|
    ensures TablesAt(raw, at, id, f) == Some(Listings(m, id))
    decreases 64 - id
  {
    hide HeapsHold, Written, At, AllKnown, ListsFit, Records, TableRows, Flat, Schema, TableName, CellRows, RowsOfKind,
         RowsAt, TablesAt, Listings, Counts;
    if id == 64 {
      NothingWritten(names, values, f);
      NoTables(m, raw, f);
    } else {
      var rows := TableRows(m, id);
      var flat, rest := Flat(rows), FlatFrom(m, id + 1);
      var octets := Written(flat, names, values, f.stringWidth, f.blobWidth);
      KnownJoin(names, values, flat, rest);
      ListsFitJoin(flat, rest);
      WrittenAppend(flat, rest, names, values, f.stringWidth, f.blobWidth);
      AtCut(raw, at, octets, Written(rest, names, values, f.stringWidth, f.blobWidth));
      TablesRead(m, id + 1, names, values, f, raw, at + |octets|);
      RecordsCounted(m, id);
      ListingsStep(m, id);
      if rows == [] {
        NoOctets(names, values, f);
        TablesSkip(raw, at, id, f);
      } else {
        if !InSchema(id) { NoRows(m, id); }
        RecordsShown(m, id, f);
        RowsRead(rows, Schema(id).value.fields, names, values, f, raw, at);
        TablesTake(raw, at, id, f, Records(m, id), at + |octets|);
      }
    }
  }

  lemma NoTables(m: Metadata, raw: seq<Byte>, f: Frame)
    requires |f.counts| == 64
    ensures TablesAt(raw, |raw|, 64, f) == Some([]) && Listings(m, 64) == []
  {
  }

  lemma ListingsStep(m: Metadata, id: nat)
    requires id < 64
    ensures Counts(m)[id] == |Records(m, id)|
    ensures Records(m, id) == [] ==> Listings(m, id) == Listings(m, id + 1)
    ensures Records(m, id) != [] ==>
              Listings(m, id) == [Listing(id, TableName(id), Records(m, id))] + Listings(m, id + 1)
  {
    hide Records, TableName;
  }

  lemma TablesSkip(raw: seq<Byte>, at: nat, id: nat, f: Frame)
    requires at <= |raw| && id < 64 == |f.counts| && f.counts[id] == 0
    ensures TablesAt(raw, at, id, f) == TablesAt(raw, at, id + 1, f)
  {
  }

  lemma TablesTake(raw: seq<Byte>, at: nat, id: nat, f: Frame, rows: seq<seq<Cell>>, next: nat)
    requires at <= |raw| && id < 64 == |f.counts| && f.counts[id] != 0 && Schema(id).Some? && next <= |raw|
    requires RowsAt(raw, at, Schema(id).value.fields, f.counts[id], f) == Some(Read(rows, next))
    ensures TablesAt(raw, next, id + 1, f).Some? ==>
              TablesAt(raw, at, id, f) ==
              Some([Listing(id, Schema(id).value.name, rows)] + TablesAt(raw, next, id + 1, f).value)
  {
    hide Schema, RowsAt;
  }

  lemma NoOctets(names: map<Name, nat>, values: map<seq<Byte>, nat>, f: Frame)
    ensures Written(Flat([]), names, values, f.stringWidth, f.blobWidth) == []
  {
  }

  // ---- The header ----

  /** The tables the header lists: four of them always, the others when they have rows. */
  predicate Listed(m: Metadata, id: nat) { id in {0, 2, 6, 32} || Records(m, id) != [] }

  /** The number whose bit k is bits[k]. */
  function NumberOf(bits: seq<bool>): nat {
    if bits == [] then 0 else (if bits[0] then 1 else 0) + 2 * NumberOf(bits[1..])
  }

  function Power2(n: nat): nat { if n == 0 then 1 else 2 * Power2(n - 1) }

  lemma {:induction false} NumberBound(bits: seq<bool>)
    ensures NumberOf(bits) < Power2(|bits|)
  {
    if bits != [] { NumberBound(bits[1..]); }
  }

  lemma {:induction false} NumberBits(bits: seq<bool>, k: nat)
    requires k < |bits| && NumberOf(bits) < 256
    ensures BitOf(NumberOf(bits), k) == bits[k]
  {
    var low, high := if bits[0] then 1 else 0, NumberOf(bits[1..]);
    assert NumberOf(bits) == low + 2 * high;
    if k > 0 { NumberBits(bits[1..], k - 1); }
  }

  /** The octet of the mask that says which of the tables 8*i to 8*i+7 are there. */
  function MaskOctet(ids: set<nat>, i: nat): Byte {
    var bits := seq(8, j requires 0 <= j < 8 => 8 * i + j in ids);
    NumberBound(bits);
    assert Power2(8) == 256;
    NumberOf(bits)
  }

  function MaskOctets(ids: set<nat>): (s: seq<Byte>)
    ensures |s| == 8
  {
    seq(8, i requires 0 <= i < 8 => MaskOctet(ids, i))
  }

  /** The row counts in the order of the table numbers. */
  function CountOctets(rows: map<nat, UInt16>, id: nat): seq<Byte>
    requires id <= 64
    decreases 64 - id
  {
    if id == 64 then [] else (if id in rows then Le16(rows[id]) else []) + CountOctets(rows, id + 1)
  }

  function WidthFlags(stringWidth: Width, blobWidth: Width): Byte {
    (if stringWidth == 2 then 1 else 0) + (if blobWidth == 2 then 2 else 0)
  }

  lemma WidthsRead(stringWidth: Width, blobWidth: Width)
    ensures BitOf(WidthFlags(stringWidth, blobWidth), 0) <==> stringWidth == 2
    ensures BitOf(WidthFlags(stringWidth, blobWidth), 1) <==> blobWidth == 2
  {
  }

  function HeaderOctets(rows: map<nat, UInt16>, stringWidth: Width, blobWidth: Width): seq<Byte> {
    [2, 0, WidthFlags(stringWidth, blobWidth), 0]
    + MaskOctets(rows.Keys) + CountOctets(rows, 0)
  }

  /** The row counts of the listed tables. */
  predicate IsRowCounts(m: Metadata, rows: map<nat, UInt16>) {
    && (forall id :: id in rows ==> id < 64)
    && (forall id: nat :: id < 64 ==> if Listed(m, id) then id in rows && rows[id] == |Records(m, id)| else id !in rows)
  }

  lemma MaskReads(data: seq<Byte>, ids: set<nat>, id: nat)
    requires |data| >= 12 && At(data, 4, MaskOctets(ids)) && id < 64
    ensures HasTable(data, id) <==> id in ids
  {
    hide BitOf, NumberOf;
    var i := id / 8;
    var bits := seq(8, j requires 0 <= j < 8 => 8 * i + j in ids);
    assert data[4 + i] == data[4..12][i] == MaskOctet(ids, i);
    NumberBound(bits);
    assert Power2(8) == 256;
    NumberBits(bits, id % 8);
    assert bits[id % 8] == (8 * i + id % 8 in ids);
  }

  lemma {:induction false} CountsRead(m: Metadata, rows: map<nat, UInt16>, data: seq<Byte>, at: nat, id: nat)
    requires 12 <= at <= |data| && id <= 64 && IsRowCounts(m, rows) && At(data, at, CountOctets(rows, id))
    requires forall j: nat :: j < 64 ==> (HasTable(data, j) <==> j in rows)
    ensures CountsAt(data, at, id) == Some(Read(Counts(m)[id..], at + |CountOctets(rows, id)|))
    decreases 64 - id
  {
    hide HasTable, Records, Le16, At, LittleEndian, Counts;
    if id == 64 {
      assert Counts(m)[64..] == [];
    } else {
      CountsStep(m, id);
      var octets := if id in rows then Le16(rows[id]) else [];
      assert HasTable(data, id) <==> id in rows;
      AtCut(data, at, octets, CountOctets(rows, id + 1));
      if id in rows { Number16Reads(data, at, rows[id]); }
      CountsRead(m, rows, data, at + |octets|, id + 1);
    }
  }

  lemma CountsStep(m: Metadata, id: nat)
    requires id < 64
    ensures Counts(m)[id..] == [|Records(m, id)|] + Counts(m)[id + 1..]
  {
    hide Records;
  }

  /** The octets a section starts with are read as the widths and row counts they were made of. */
  lemma HeaderReads(m: Metadata, rows: map<nat, UInt16>, stringWidth: Width, blobWidth: Width, data: seq<Byte>)
    requires IsRowCounts(m, rows) && HeaderOctets(rows, stringWidth, blobWidth) <= data
    ensures |data| >= 12 && data[0] == 2 && data[1] == 0 && data[3] == 0
    ensures BitOf(data[2], 0) <==> stringWidth == 2
    ensures BitOf(data[2], 1) <==> blobWidth == 2
    ensures CountsAt(data, 12, 0) == Some(Read(Counts(m), |HeaderOctets(rows, stringWidth, blobWidth)|))
  {
    hide CountOctets, MaskOctets, HasTable, CountsAt, Counts, BitOf, WidthFlags, IsRowCounts;
    WidthsRead(stringWidth, blobWidth);
    var header := HeaderOctets(rows, stringWidth, blobWidth);
    assert data[4..12] == header[4..12] == MaskOctets(rows.Keys);
    assert data[12..|header|] == header[12..] == CountOctets(rows, 0);
    forall j: nat | j < 64 ensures HasTable(data, j) <==> j in rows { MaskReads(data, rows.Keys, j); }
    CountsRead(m, rows, data, 12, 0);
    assert Counts(m)[0..] == Counts(m);
  }

  /** A written section is listed as the records of the program, whatever the heaps hold besides. */
  lemma SectionReads(m: Metadata, rows: map<nat, UInt16>, names: map<Name, nat>, values: map<seq<Byte>, nat>,
                     f: Frame, data: seq<Byte>)
    requires IsRowCounts(m, rows) && AllKnown(names, values, Columns(m)) && ListsFit(Columns(m))
    requires HeapsHold(names, values, f) && f.counts == Counts(m)
    requires data == HeaderOctets(rows, f.stringWidth, f.blobWidth)
                   + Written(Columns(m), names, values, f.stringWidth, f.blobWidth)
    ensures Inspect(data, f.strings, f.blobs) == Some(Listings(m, 0))
  {
    hide HeaderOctets, Written, AllKnown, ListsFit, HeapsHold, Columns, FlatFrom, Counts, CountsAt, TablesAt, Listings,
         BitOf, IsRowCounts;
    var header := HeaderOctets(rows, f.stringWidth, f.blobWidth);
    HeaderReads(m, rows, f.stringWidth, f.blobWidth, data);
    ColumnsInOrder(m);
    TablesRead(m, 0, names, values, f, data, |header|);
  }
}
