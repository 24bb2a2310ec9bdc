/** The metadata a table section is written from, the columns of its rows in the order they are
    written, and what is loaded into the heaps beforehand
    (managed/MicroCard.Tool/Mc04Writer.Metadata.cs). */
module MetadataTables {
  import opened Bytes
  import opened Heaps

  datatype Version = Version(major: UInt16, minor: UInt16, build: UInt16, revision: UInt16)

  datatype TypeReference = TypeReference(scope: UInt16, name: Name, space: Name)
  datatype SyntheticType = SyntheticType(scope: UInt16, name: Name)
  /** `fields` and `methods` count the rows the type owns. */
  datatype TypeDefinition =
    TypeDefinition(flags: UInt32, name: Name, space: Name, base: UInt16, fields: nat, methods: nat)
  datatype FieldRow = FieldRow(flags: UInt16, signature: seq<Byte>)
  datatype MethodRow =
    MethodRow(codeOffset: UInt32, implFlags: UInt16, flags: UInt16, name: Name, signature: seq<Byte>)
  datatype MemberRow = MemberRow(parent: UInt16, name: Name, signature: seq<Byte>)
  datatype AttributeRow = AttributeRow(parent: UInt16, kind: UInt16, value: seq<Byte>)
  datatype Reference =
    Reference(version: Version, flags: UInt32, key: seq<Byte>, name: Name, culture: Name, hash: seq<Byte>)

  datatype Metadata = Metadata(
    moduleName: Name, typeReferences: seq<TypeReference>, syntheticTypes: seq<SyntheticType>,
    typeDefinitions: seq<TypeDefinition>, fields: seq<FieldRow>, methods: seq<MethodRow>, members: seq<MemberRow>,
    attributes: seq<AttributeRow>, version: Version, flags: UInt32, assemblyName: Name, references: seq<Reference>)

  type Width = w: int | 1 <= w <= 2 witness 1

  /** Numbers of fixed width, two kinds of heap index, and the first row of a list. */
  datatype Column =
    | Number16(n: UInt16)
    | Number32(word: UInt32)
    | Text(name: Name)
    | Blob(value: seq<Byte>)
    | Start(row: nat, width: Width)
  {
    predicate InHeap() { Text? || Blob? }
  }

  /** "System" */
  const SYSTEM: Name := [83, 121, 115, 116, 101, 109]
  /** "_" */
  const FIELD_NAME: Name := [95]

  function Concat<T>(rows: seq<T>, columns: T -> seq<Column>): seq<Column> {
    if rows == [] then [] else columns(rows[0]) + Concat(rows[1..], columns)
  }

  // ---- What PopulateHeaps adds, in its order ----

  function TypeReferenceLoad(r: TypeReference): seq<Column> { [Text(r.name), Text(r.space)] }
  function SyntheticLoad(r: SyntheticType): seq<Column> { [Text(r.name), Text(SYSTEM)] }
  function TypeDefinitionLoad(r: TypeDefinition): seq<Column> { [Text(r.name), Text(r.space)] }
  function FieldLoad(r: FieldRow): seq<Column> { [Text(FIELD_NAME), Blob(r.signature)] }
  function MethodLoad(r: MethodRow): seq<Column> { [Text(r.name), Blob(r.signature)] }
  function MemberLoad(r: MemberRow): seq<Column> { [Text(r.name), Blob(r.signature)] }
  function AttributeLoad(r: AttributeRow): seq<Column> { [Blob(r.value)] }
  function ReferenceLoad(r: Reference): seq<Column> { [Text(r.name), Text(r.culture), Blob(r.key), Blob(r.hash)] }

  function Loads(m: Metadata): seq<Column> {
    [Text(m.moduleName)] + Concat(m.typeReferences, TypeReferenceLoad) + Concat(m.syntheticTypes, SyntheticLoad)
    + Concat(m.typeDefinitions, TypeDefinitionLoad) + Concat(m.fields, FieldLoad) + Concat(m.methods, MethodLoad)
    + Concat(m.members, MemberLoad) + Concat(m.attributes, AttributeLoad) + [Text(m.assemblyName)]
    + Concat(m.references, ReferenceLoad)
  }

  // ---- What BuildTables writes, in its order ----

  function TypeReferenceRow(r: TypeReference): seq<Column> { [Number16(r.scope), Text(r.name), Text(r.space)] }
  function SyntheticRow(r: SyntheticType): seq<Column> { [Number16(r.scope), Text(r.name), Text(SYSTEM)] }

  function TypeRow(r: TypeDefinition, fieldStart: nat, methodStart: nat, narrow: Widths): seq<Column> {
    [Number32(r.flags), Text(r.name), Text(r.space), Number16(r.base),
     Start(fieldStart, narrow.fields), Start(methodStart, narrow.methods)]
  }

  /** Each type's lists start where those of the types before it end. */
  function TypeDefinitionRows(types: seq<TypeDefinition>, fieldStart: nat, methodStart: nat,
                              narrow: Widths): seq<Column> {
    if types == [] then []
    else
      TypeRow(types[0], fieldStart, methodStart, narrow)
      + TypeDefinitionRows(types[1..], fieldStart + types[0].fields, methodStart + types[0].methods, narrow)
  }

  datatype Widths = Widths(fields: Width, methods: Width)

  /** Row numbers up to 255 take one octet. */
  function RowWidth(rows: nat): Width { if rows <= 255 then 1 else 2 }

  function ListWidths(m: Metadata): Widths { Widths(RowWidth(|m.fields|), RowWidth(|m.methods|)) }

  function FieldColumns(r: FieldRow): seq<Column> { [Number16(r.flags), Text(FIELD_NAME), Blob(r.signature)] }
  function MethodColumns(r: MethodRow): seq<Column> {
    [Number32(r.codeOffset), Number16(r.implFlags), Number16(r.flags), Text(r.name), Blob(r.signature)]
  }
  function MemberColumns(r: MemberRow): seq<Column> { [Number16(r.parent), Text(r.name), Blob(r.signature)] }
  function AttributeColumns(r: AttributeRow): seq<Column> {
    [Number16(r.parent), Number16(r.kind), Blob(r.value)]
  }
  function VersionColumns(v: Version): seq<Column> {
    [Number16(v.major), Number16(v.minor), Number16(v.build), Number16(v.revision)]
  }
  function ReferenceColumns(r: Reference): seq<Column> {
    VersionColumns(r.version) + [Number32(r.flags), Blob(r.key), Text(r.name), Text(r.culture), Blob(r.hash)]
  }
  function AssemblyColumns(m: Metadata): seq<Column> {
    VersionColumns(m.version) + [Number32(m.flags), Text(m.assemblyName)]
  }

  function Columns(m: Metadata): seq<Column> {
    [Text(m.moduleName)] + Concat(m.typeReferences, TypeReferenceRow)
    + Concat(m.syntheticTypes, SyntheticRow) + TypeDefinitionRows(m.typeDefinitions, 1, 1, ListWidths(m))
    + Concat(m.fields, FieldColumns) + Concat(m.methods, MethodColumns) + Concat(m.members, MemberColumns)
    + Concat(m.attributes, AttributeColumns) + AssemblyColumns(m)
    + Concat(m.references, ReferenceColumns)
  }

  /** Every heap column of `columns` is among `loads`. */
  predicate Covered(columns: seq<Column>, loads: seq<Column>) {
    forall k :: 0 <= k < |columns| ==> columns[k].InHeap() ==> columns[k] in loads
  }

  lemma {:induction false} ConcatCovers<T>(rows: seq<T>, columns: T -> seq<Column>, loads: T -> seq<Column>)
    requires forall r :: Covered(columns(r), loads(r))
    ensures Covered(Concat(rows, columns), Concat(rows, loads))
  {
    if rows != [] {
      ConcatCovers(rows[1..], columns, loads);
      assert Covered(columns(rows[0]), loads(rows[0]));
      CoversJoin(columns(rows[0]), loads(rows[0]), Concat(rows[1..], columns), Concat(rows[1..], loads));
    }
  }

  lemma CoversJoin(a: seq<Column>, b: seq<Column>, c: seq<Column>, d: seq<Column>)
    requires Covered(a, b) && Covered(c, d)
    ensures Covered(a + c, b + d)
  {
    var columns := a + c;
    forall k | 0 <= k < |columns|
      ensures columns[k].InHeap() ==> columns[k] in b + d
    {
      if k >= |a| { assert columns[k] == c[k - |a|]; }
    }
  }

  lemma {:induction false} TypesCovered(types: seq<TypeDefinition>, fieldStart: nat, methodStart: nat, narrow: Widths)
    ensures Covered(TypeDefinitionRows(types, fieldStart, methodStart, narrow), Concat(types, TypeDefinitionLoad))
  {
    if types != [] {
      var r := types[0];
      TypesCovered(types[1..], fieldStart + r.fields, methodStart + r.methods, narrow);
      CoversJoin(TypeRow(r, fieldStart, methodStart, narrow), TypeDefinitionLoad(r),
                 TypeDefinitionRows(types[1..], fieldStart + r.fields, methodStart + r.methods, narrow),
                 Concat(types[1..], TypeDefinitionLoad));
    }
  }

  /** Every name and blob a row uses was loaded before any row was written. */
  lemma RowsAreLoaded(m: Metadata)
    ensures Covered(Columns(m), Loads(m))
  {
    hide Concat, Covered;
    ModuleAndAssembly(m);
    RowsCovered();
    ConcatCovers(m.typeReferences, TypeReferenceRow, TypeReferenceLoad);
    ConcatCovers(m.syntheticTypes, SyntheticRow, SyntheticLoad);
    TypesCovered(m.typeDefinitions, 1, 1, ListWidths(m));
    ConcatCovers(m.fields, FieldColumns, FieldLoad);
    ConcatCovers(m.methods, MethodColumns, MethodLoad);
    ConcatCovers(m.members, MemberColumns, MemberLoad);
    ConcatCovers(m.attributes, AttributeColumns, AttributeLoad);
    ConcatCovers(m.references, ReferenceColumns, ReferenceLoad);
    var c, l := [Text(m.moduleName)], [Text(m.moduleName)];
    c, l := Joined(c, l, Concat(m.typeReferences, TypeReferenceRow), Concat(m.typeReferences, TypeReferenceLoad));
    c, l := Joined(c, l, Concat(m.syntheticTypes, SyntheticRow), Concat(m.syntheticTypes, SyntheticLoad));
    c, l := Joined(c, l, TypeDefinitionRows(m.typeDefinitions, 1, 1, ListWidths(m)),
                   Concat(m.typeDefinitions, TypeDefinitionLoad));
    c, l := Joined(c, l, Concat(m.fields, FieldColumns), Concat(m.fields, FieldLoad));
    c, l := Joined(c, l, Concat(m.methods, MethodColumns), Concat(m.methods, MethodLoad));
    c, l := Joined(c, l, Concat(m.members, MemberColumns), Concat(m.members, MemberLoad));
    c, l := Joined(c, l, Concat(m.attributes, AttributeColumns), Concat(m.attributes, AttributeLoad));
    c, l := Joined(c, l, AssemblyColumns(m), [Text(m.assemblyName)]);
    c, l := Joined(c, l, Concat(m.references, ReferenceColumns), Concat(m.references, ReferenceLoad));
  }

  lemma Joined(a: seq<Column>, b: seq<Column>, c: seq<Column>, d: seq<Column>)
    returns (columns: seq<Column>, loads: seq<Column>)
    requires Covered(a, b) && Covered(c, d)
    ensures columns == a + c && loads == b + d && Covered(columns, loads)
  {
    hide Covered;
    columns, loads := a + c, b + d;
    CoversJoin(a, b, c, d);
  }

  lemma ModuleAndAssembly(m: Metadata)
    ensures Covered([Text(m.moduleName)], [Text(m.moduleName)])
    ensures Covered(AssemblyColumns(m), [Text(m.assemblyName)])
  {
  }

  lemma RowsCovered()
    ensures forall r :: Covered(TypeReferenceRow(r), TypeReferenceLoad(r))
    ensures forall r :: Covered(SyntheticRow(r), SyntheticLoad(r))
    ensures forall r :: Covered(FieldColumns(r), FieldLoad(r))
    ensures forall r :: Covered(MethodColumns(r), MethodLoad(r))
    ensures forall r :: Covered(MemberColumns(r), MemberLoad(r))
    ensures forall r :: Covered(AttributeColumns(r), AttributeLoad(r))
    ensures forall r :: Covered(ReferenceColumns(r), ReferenceLoad(r))
  {
  }

  // ---- Which list starts fit ----

  predicate FitsWidth(value: nat, width: Width) { value < (if width == 1 then 0x100 else 0x1_0000) }

  /** No first row of a list is too large for its column. */
  predicate ListsFit(columns: seq<Column>) {
    forall k :: 0 <= k < |columns| ==> StartFits(columns[k])
  }

  predicate StartFits(c: Column) { c.Start? ==> FitsWidth(c.row, c.width) }

  function Fields(types: seq<TypeDefinition>): nat {
    if types == [] then 0 else types[0].fields + Fields(types[1..])
  }

  function Methods(types: seq<TypeDefinition>): nat {
    if types == [] then 0 else types[0].methods + Methods(types[1..])
  }

  /** No list starts at a row its column cannot hold, and the row behind the last list is still 16 bits. */
  predicate StartsFit(m: Metadata) {
    && ListsFit(Columns(m))
    && Fields(m.typeDefinitions) + 1 < 0x1_0000 && Methods(m.typeDefinitions) + 1 < 0x1_0000
  }

  /** A list of `rows` rows, of which the last type owns `last`. */
  predicate HasRoom(rows: nat, last: nat) { rows < 0xffff && (rows == 255 ==> last > 0) }

  /** When every row has an owner, the tables can be written exactly when no table has 255 rows none
      of which belongs to the last type: that type's list would start at row 256, in one octet. */
  lemma StartsFitIff(m: Metadata)
    requires Fields(m.typeDefinitions) == |m.fields| && Methods(m.typeDefinitions) == |m.methods|
    ensures var types := m.typeDefinitions;
            StartsFit(m) <==> types == [] || (HasRoom(|m.fields|, types[|types| - 1].fields) &&
                                              HasRoom(|m.methods|, types[|types| - 1].methods))
  {
    hide Columns, TypeDefinitionRows, Fields, Methods, ListsFit;
    var types, narrow := m.typeDefinitions, ListWidths(m);
    OnlyTypesStart(m);
    if types == [] {
      NothingStarts(narrow);
    } else {
      LastStartDecides(types, 1, 1, narrow);
    }
  }

  /** Two types, of which the first owns 255 fields and a method, and the second nothing. */
  function LastOwnsNothing(): Metadata {
    var field := FieldRow(0, []);
    Metadata([], [], [], [TypeDefinition(0, [], [], 0, 255, 1), TypeDefinition(0, [], [], 0, 0, 0)],
             seq(255, _ => field), [MethodRow(0, 0, 0, [], [])], [], [], Version(0, 0, 0, 0), 0, [], [])
  }

  /** They cannot be written: the second type's field list would start at row 256. */
  lemma LastListDoesNotStart()
    ensures !StartsFit(LastOwnsNothing())
  {
    var m := LastOwnsNothing();
    hide StartsFit;
    var types := m.typeDefinitions;
    assert types[1..][1..] == [];
    assert Fields(types[1..]) == 0 && Methods(types[1..]) == 0;
    StartsFitIff(m);
  }

  lemma NothingStarts(narrow: Widths)
    ensures ListsFit(TypeDefinitionRows([], 1, 1, narrow)) && Fields([]) == 0 && Methods([]) == 0
  {
  }

  /** The starts ascend, so the last decides. */
  lemma {:induction false} LastStartDecides(types: seq<TypeDefinition>, fieldStart: nat, methodStart: nat,
                                            narrow: Widths)
    requires types != []
    ensures var last := types[|types| - 1];
            && Fields(types) >= last.fields && Methods(types) >= last.methods
            && (ListsFit(TypeDefinitionRows(types, fieldStart, methodStart, narrow)) <==>
                && FitsWidth(fieldStart + Fields(types) - last.fields, narrow.fields)
                && FitsWidth(methodStart + Methods(types) - last.methods, narrow.methods))
  {
    var r, rest := types[0], types[1..];
    var row := TypeRow(r, fieldStart, methodStart, narrow);
    var more := TypeDefinitionRows(rest, fieldStart + r.fields, methodStart + r.methods, narrow);
    ListsFitJoin(row, more);
    assert ListsFit(row) <==> FitsWidth(fieldStart, narrow.fields) && FitsWidth(methodStart, narrow.methods) by {
      assert row[4].Start? && row[5].Start?;
    }
    if rest == [] {
      NothingStarts(narrow);
    } else {
      LastStartDecides(rest, fieldStart + r.fields, methodStart + r.methods, narrow);
      assert rest[|rest| - 1] == types[|types| - 1];
    }
  }

  lemma ListsFitJoin(a: seq<Column>, b: seq<Column>)
    ensures ListsFit(a + b) <==> ListsFit(a) && ListsFit(b)
  {
    hide StartFits;
    var both := a + b;
    assert forall k :: 0 <= k < |a| ==> both[k] == a[k];
    assert forall k :: 0 <= k < |b| ==> both[|a| + k] == b[k];
  }

  lemma {:induction false} ConcatFits<T>(rows: seq<T>, columns: T -> seq<Column>)
    requires forall r :: ListsFit(columns(r))
    ensures ListsFit(Concat(rows, columns))
  {
    hide StartFits;
    if rows != [] {
      ConcatFits(rows[1..], columns);
      assert ListsFit(columns(rows[0]));
      ListsFitJoin(columns(rows[0]), Concat(rows[1..], columns));
    }
  }

  lemma NoListElsewhere()
    ensures forall r :: ListsFit(TypeReferenceRow(r))
    ensures forall r :: ListsFit(SyntheticRow(r))
    ensures forall r :: ListsFit(FieldColumns(r))
    ensures forall r :: ListsFit(MethodColumns(r))
    ensures forall r :: ListsFit(MemberColumns(r))
    ensures forall r :: ListsFit(AttributeColumns(r))
    ensures forall r :: ListsFit(ReferenceColumns(r))
  {
  }

  lemma OnlyTypesStart(m: Metadata)
    ensures ListsFit(Columns(m)) <==> ListsFit(TypeDefinitionRows(m.typeDefinitions, 1, 1, ListWidths(m)))
  {
    hide StartFits, Concat, TypeDefinitionRows, TypeReferenceRow, SyntheticRow, FieldColumns, MethodColumns,
         MemberColumns, AttributeColumns, ReferenceColumns, ListsFit;
    NoListElsewhere();
    var types := TypeDefinitionRows(m.typeDefinitions, 1, 1, ListWidths(m));
    var start, assembly := [Text(m.moduleName)], AssemblyColumns(m);
    HeadersFit(m);
    ConcatFits(m.typeReferences, TypeReferenceRow);
    ConcatFits(m.syntheticTypes, SyntheticRow);
    ConcatFits(m.fields, FieldColumns);
    ConcatFits(m.methods, MethodColumns);
    ConcatFits(m.members, MemberColumns);
    ConcatFits(m.attributes, AttributeColumns);
    ConcatFits(m.references, ReferenceColumns);
    var c := start;
    c := FitsBehind(c, Concat(m.typeReferences, TypeReferenceRow));
    c := FitsBehind(c, Concat(m.syntheticTypes, SyntheticRow));
    c := FitsBehind(c, types);
    c := FitsBehind(c, Concat(m.fields, FieldColumns));
    c := FitsBehind(c, Concat(m.methods, MethodColumns));
    c := FitsBehind(c, Concat(m.members, MemberColumns));
    c := FitsBehind(c, Concat(m.attributes, AttributeColumns));
    c := FitsBehind(c, assembly);
    c := FitsBehind(c, Concat(m.references, ReferenceColumns));
  }

  lemma FitsBehind(a: seq<Column>, b: seq<Column>) returns (columns: seq<Column>)
    ensures columns == a + b && (ListsFit(columns) <==> ListsFit(a) && ListsFit(b))
  {
    hide ListsFit;
    columns := a + b;
    ListsFitJoin(a, b);
  }

  lemma HeadersFit(m: Metadata)
    ensures ListsFit([Text(m.moduleName)])
            && ListsFit(AssemblyColumns(m))
  {
  }
}
