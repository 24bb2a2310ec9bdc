/** Filling the heaps before the index widths are chosen, then writing the table section with those
    widths (managed/MicroCard.Tool/Mc04Writer.Metadata.cs), so that the inspector lists the program
    (scripts/mcinspect.py). */
module HeapTables {
  import opened Wrappers
  import opened Bytes
  import opened Heaps
  import opened MetadataTables
  import opened TableInspector
  import opened TableReading

  /** The zero in a name, the blob quota, or a full heap. */
  predicate Unstorable(c: Column, strings: seq<Byte>, blobs: seq<Byte>) {
    if c.Text? then HasZero(c.name) || |strings| >= 0x1_0000
    else c.Blob? && (|c.value| > BLOB_QUOTA || |blobs| >= 0x1_0000)
  }

  method AddColumn(strings: StringHeap, blobs: BlobHeap, c: Column) returns (offset: Option<nat>)
    requires strings.Valid() && blobs.Valid() && c.InHeap()
    modifies strings, blobs
    ensures strings.Valid() && blobs.Valid() && old(strings.data) <= strings.data && old(blobs.data) <= blobs.data
    ensures forall s :: s in old(strings.offsets) ==> s in strings.offsets
    ensures forall s :: s in old(blobs.offsets) ==> s in blobs.offsets
    ensures offset.Some? ==>
              && Known(strings.offsets, blobs.offsets, c)
              && offset.value == if c.Text? then strings.offsets[c.name] else blobs.offsets[c.value]
    ensures offset.None? ==> Unstorable(c, strings.data, blobs.data)
    ensures Known(old(strings.offsets), old(blobs.offsets), c) ==>
              && offset.Some? && strings.data == old(strings.data) && strings.offsets == old(strings.offsets)
              && blobs.data == old(blobs.data) && blobs.offsets == old(blobs.offsets)
  {
    if c.Text? {
      offset := strings.Add(c.name);
    } else {
      offset := blobs.Add(c.value);
    }
  }

  /** Afterwards both heaps know every column, or a quota stopped it. */
  method PopulateHeaps(m: Metadata, strings: StringHeap, blobs: BlobHeap) returns (ok: bool)
    requires strings.Valid() && blobs.Valid()
    modifies strings, blobs
    ensures strings.Valid() && blobs.Valid() && old(strings.data) <= strings.data && old(blobs.data) <= blobs.data
    ensures ok ==> AllKnown(strings.offsets, blobs.offsets, Columns(m))
    ensures !ok ==> exists c :: c in Loads(m) && Unstorable(c, strings.data, blobs.data)
  {
    hide Loads, Columns, Known, AllKnown, Unstorable, Covered, AllInHeap, HoldsName, HoldsBlob;
    var loads := Loads(m);
    LoadsAreHeapColumns(m);
    NothingKnown(strings.offsets, blobs.offsets, loads[..0]);
    for k := 0 to |loads|
      invariant strings.Valid() && blobs.Valid() && old(strings.data) <= strings.data && old(blobs.data) <= blobs.data
      invariant AllKnown(strings.offsets, blobs.offsets, loads[..k])
    {
      ghost var names, values := strings.offsets, blobs.offsets;
      LoadInHeap(loads, k);
      var offset := AddColumn(strings, blobs, loads[k]);
      if offset.None? { return false; }
      KnownGrows(names, values, strings.offsets, blobs.offsets, loads[..k]);
      KnownExtends(strings.offsets, blobs.offsets, loads, k);
    }
    assert loads[..|loads|] == loads;
    RowsAreLoaded(m);
    CoveredIsKnown(strings.offsets, blobs.offsets, Columns(m), loads);
    return true;
  }

  lemma NothingKnown(names: map<Name, nat>, values: map<seq<Byte>, nat>, none: seq<Column>)
    requires none == []
    ensures AllKnown(names, values, none)
  {
  }

  lemma LoadInHeap(columns: seq<Column>, k: nat)
    requires AllInHeap(columns) && k < |columns|
    ensures columns[k].InHeap()
  {
  }

  lemma KnownExtends(names: map<Name, nat>, values: map<seq<Byte>, nat>, columns: seq<Column>, k: nat)
    requires k < |columns| && AllKnown(names, values, columns[..k]) && Known(names, values, columns[k])
    ensures AllKnown(names, values, columns[..k + 1])
  {
    hide Known;
    assert columns[..k + 1] == columns[..k] + [columns[k]];
  }

  lemma KnownGrows(names: map<Name, nat>, values: map<seq<Byte>, nat>, moreNames: map<Name, nat>,
                   moreValues: map<seq<Byte>, nat>, columns: seq<Column>)
    requires AllKnown(names, values, columns)
    requires (forall s :: s in names ==> s in moreNames) && (forall s :: s in values ==> s in moreValues)
    ensures AllKnown(moreNames, moreValues, columns)
  {
    forall k | 0 <= k < |columns|
      ensures Known(moreNames, moreValues, columns[k])
    {
      assert Known(names, values, columns[k]);
    }
  }

  lemma CoveredIsKnown(names: map<Name, nat>, values: map<seq<Byte>, nat>, columns: seq<Column>, loads: seq<Column>)
    requires Covered(columns, loads) && AllKnown(names, values, loads)
    ensures AllKnown(names, values, columns)
  {
    forall k | 0 <= k < |columns|
      ensures Known(names, values, columns[k])
    {
      if columns[k].InHeap() {
        var i :| 0 <= i < |loads| && loads[i] == columns[k];
        assert Known(names, values, loads[i]);
      }
    }
  }

  lemma {:induction false} ConcatOfLoads<T>(rows: seq<T>, loads: T -> seq<Column>)
    requires forall r :: AllInHeap(loads(r))
    ensures AllInHeap(Concat(rows, loads))
  {
    if rows != [] {
      ConcatOfLoads(rows[1..], loads);
      assert AllInHeap(loads(rows[0]));
    }
  }

  predicate AllInHeap(columns: seq<Column>) { forall k :: 0 <= k < |columns| ==> columns[k].InHeap() }

  lemma LoadsAreHeapColumns(m: Metadata)
    ensures AllInHeap(Loads(m))
  {
    hide Concat;
    ConcatOfLoads(m.typeReferences, TypeReferenceLoad);
    ConcatOfLoads(m.syntheticTypes, SyntheticLoad);
    ConcatOfLoads(m.typeDefinitions, TypeDefinitionLoad);
    ConcatOfLoads(m.fields, FieldLoad);
    ConcatOfLoads(m.methods, MethodLoad);
    ConcatOfLoads(m.members, MemberLoad);
    ConcatOfLoads(m.attributes, AttributeLoad);
    ConcatOfLoads(m.references, ReferenceLoad);
  }

  /** What the inspector's heap_index reads behind the octets already there; a value too large for
      one octet is refused. */
  method WriteIndex(output: seq<Byte>, value: nat, width: Width) returns (longer: Option<seq<Byte>>)
    requires value < 0x1_0000
    ensures longer.Some? <==> FitsWidth(value, width)
    ensures longer.Some? ==>
              && |longer.value| == |output| + width && output <= longer.value
              && LittleEndian(longer.value, |output|, width) == value
  {
    LittleEndianSizes(output + Le16(value), |output|);
    if width == 1 {
      if value >= 256 { return None; }
      LittleEndianSizes(output + [value], |output|);
      return Some(output + [value]);
    }
    return Some(output + Le16(value));
  }

  /** Octets behind `output` that read as the value are the octets of its index. */
  lemma IndexIsRead(output: seq<Byte>, longer: seq<Byte>, value: nat, width: Width)
    requires |longer| == |output| + width && output <= longer && LittleEndian(longer, |output|, width) == value
    requires FitsWidth(value, width)
    ensures longer == output + IndexOf(value, width)
  {
    LittleEndianSizes(longer, |output|);
    assert longer == output + longer[|output|..];
    if width == 2 { assert longer[|output|..] == Le16(value); }
  }

  // ---- Row counts ----

  /** The rows of the tables, with the tables that are always there; more than 65535 rows are refused. */
  method RowCounts(m: Metadata) returns (rows: Option<map<nat, UInt16>>)
    ensures rows.Some? <==> forall id: nat :: id < 64 ==> |Records(m, id)| < 0x1_0000
    ensures rows.Some? ==> IsRowCounts(m, rows.value)
  {
    hide Records, IsRowCounts, InSchema;
    CountsFitIff(m);
    var typeReferences := |m.typeReferences| + |m.syntheticTypes|;
    if |m.typeDefinitions| >= 0x1_0000 || |m.methods| >= 0x1_0000 || typeReferences >= 0x1_0000
       || |m.fields| >= 0x1_0000 || |m.members| >= 0x1_0000 || |m.attributes| >= 0x1_0000
       || |m.references| >= 0x1_0000 {
      return None;
    }
    var counts: map<nat, UInt16> := map[0 := 1, 2 := |m.typeDefinitions|, 6 := |m.methods|, 32 := 1];
    if typeReferences != 0 { counts := counts[1 := typeReferences]; }
    if |m.fields| != 0 { counts := counts[4 := |m.fields|]; }
    if |m.members| != 0 { counts := counts[10 := |m.members|]; }
    if |m.attributes| != 0 { counts := counts[12 := |m.attributes|]; }
    if |m.references| != 0 { counts := counts[35 := |m.references|]; }
    CountsAre(m, counts);
    return Some(counts);
  }

  lemma CountsFitIff(m: Metadata)
    ensures (forall id: nat :: id < 64 ==> |Records(m, id)| < 0x1_0000) <==>
            && |m.typeDefinitions| < 0x1_0000 && |m.methods| < 0x1_0000
            && |m.typeReferences| + |m.syntheticTypes| < 0x1_0000 && |m.fields| < 0x1_0000
            && |m.members| < 0x1_0000 && |m.attributes| < 0x1_0000 && |m.references| < 0x1_0000
  {
    hide Records;
    RecordCounts(m);
    assert |Records(m, 35)| == |m.references|;
  }

  /** A count is there exactly when the table is listed. */
  predicate Counted(counts: map<nat, UInt16>, id: nat, n: nat) {
    (id in counts <==> n != 0 || id in {0, 2, 6, 32}) && (id in counts ==> counts[id] == n)
  }

  lemma CountsAre(m: Metadata, counts: map<nat, UInt16>)
    requires Counted(counts, 0, 1) && Counted(counts, 1, |m.typeReferences| + |m.syntheticTypes|)
    requires Counted(counts, 2, |m.typeDefinitions|) && Counted(counts, 4, |m.fields|)
    requires Counted(counts, 6, |m.methods|) && Counted(counts, 10, |m.members|)
    requires Counted(counts, 12, |m.attributes|) && Counted(counts, 32, 1) && Counted(counts, 35, |m.references|)
    requires forall id :: id in counts ==> id in {0, 1, 2, 4, 6, 10, 12, 32, 35}
    ensures IsRowCounts(m, counts)
  {
    hide Records;
    RecordCounts(m);
    forall id: nat | id < 64
      ensures if Listed(m, id) then id in counts && counts[id] == |Records(m, id)| else id !in counts
    {
      if InSchema(id) { assert Counted(counts, id, |Records(m, id)|); } else { assert Records(m, id) == []; }
    }
  }

  lemma RecordCounts(m: Metadata)
    ensures |Records(m, 0)| == |Records(m, 32)| == 1
    ensures |Records(m, 1)| == |m.typeReferences| + |m.syntheticTypes|
    ensures |Records(m, 2)| == |m.typeDefinitions| && |Records(m, 4)| == |m.fields|
    ensures |Records(m, 6)| == |m.methods| && |Records(m, 10)| == |m.members|
    ensures |Records(m, 12)| == |m.attributes| && |Records(m, 35)| == |m.references|
    ensures forall id: nat :: !InSchema(id) ==> Records(m, id) == []
  {
  }

  /** Every Add finds an entry made before the widths were chosen: the heaps stay as they are, no
      heap index overflows its column, and the inspector lists every record of the program. */
  method BuildTables(m: Metadata, strings: StringHeap, blobs: BlobHeap, rows: map<nat, UInt16>, stringWidth: Width,
                     blobWidth: Width)
    returns (tables: Option<seq<Byte>>)
    requires strings.Valid() && blobs.Valid() && AllKnown(strings.offsets, blobs.offsets, Columns(m))
    requires IsRowCounts(m, rows)
    requires (stringWidth == 1 ==> |strings.data| <= 256) && (blobWidth == 1 ==> |blobs.data| <= 256)
    modifies strings, blobs
    ensures strings.Valid() && strings.data == old(strings.data) && strings.offsets == old(strings.offsets)
    ensures blobs.Valid() && blobs.data == old(blobs.data) && blobs.offsets == old(blobs.offsets)
    ensures tables.Some? <==> StartsFit(m)
    ensures tables.Some? ==> Inspect(tables.value, strings.data, blobs.data) == Some(Listings(m, 0))
    ensures tables.Some? ==> HeaderOctets(rows, stringWidth, blobWidth) <= tables.value
  {
    hide Columns, HoldsName, HoldsBlob, Inspect, Known, AllKnown, ColumnOctets, FitsWidth, IndexOf, LittleEndian,
         IsRowCounts, Counts, Listings, HeaderOctets;
    ghost var names, values := strings.offsets, blobs.offsets;
    ghost var f := Frame(strings.data, blobs.data, stringWidth, blobWidth, Counts(m));
    assert HeapsHold(names, values, f);
    var header := WriteHeader(rows, stringWidth, blobWidth);
    var columns := Columns(m);
    var output := header;
    assert columns[0..] == columns;
    for k := 0 to |columns|
      invariant strings.Valid() && strings.data == f.strings && strings.offsets == names
      invariant blobs.Valid() && blobs.data == f.blobs && blobs.offsets == values
      invariant forall j :: 0 <= j < k ==> StartFits(columns[j])
      invariant output + Written(columns[k..], names, values, stringWidth, blobWidth)
             == header + Written(columns, names, values, stringWidth, blobWidth)
    {
      KnownAt(names, values, columns, k);
      var c := columns[k];
      WrittenStep(output, columns, k, names, values, f);
      KnownColumn(c, names, values, f);
      if c.Number16? {
        output := output + Le16(c.n);
      } else if c.Number32? {
        output := output + Le32(c.word);
      } else {
        var longer := WriteColumn(strings, blobs, c, output, stringWidth, blobWidth);
        if longer.None? { return None; }
        output := longer.value;
      }
    }
    if Fields(m.typeDefinitions) + 1 >= 0x1_0000 || Methods(m.typeDefinitions) + 1 >= 0x1_0000 { return None; }
    assert output == header + Written(columns, names, values, stringWidth, blobWidth);
    SectionReads(m, rows, names, values, f, output);
    return Some(output);
  }

  /** The version of the schema, the widths, the mask and the row counts in order. */
  method WriteHeader(rows: map<nat, UInt16>, stringWidth: Width, blobWidth: Width) returns (header: seq<Byte>)
    ensures header == HeaderOctets(rows, stringWidth, blobWidth)
  {
    hide MaskOctets, Le16;
    header := [2, 0, WidthFlags(stringWidth, blobWidth), 0] + MaskOctets(rows.Keys);
    for id := 0 to 64
      invariant header + CountOctets(rows, id) == HeaderOctets(rows, stringWidth, blobWidth)
    {
      if id in rows {
        Regroup(header, Le16(rows[id]), CountOctets(rows, id + 1));
        header := header + Le16(rows[id]);
      }
    }
  }

  /** One index of a row: a heap index that was loaded, or the first row of a list. */
  method WriteColumn(strings: StringHeap, blobs: BlobHeap, c: Column, output: seq<Byte>, stringWidth: Width,
                     blobWidth: Width)
    returns (longer: Option<seq<Byte>>)
    requires strings.Valid() && blobs.Valid() && Known(strings.offsets, blobs.offsets, c) && !c.Number16?
             && !c.Number32?
    requires HeapsHold(strings.offsets, blobs.offsets, Frame(strings.data, blobs.data, stringWidth, blobWidth, []))
    modifies strings, blobs
    ensures strings.Valid() && strings.data == old(strings.data) && strings.offsets == old(strings.offsets)
    ensures blobs.Valid() && blobs.data == old(blobs.data) && blobs.offsets == old(blobs.offsets)
    ensures longer.Some? <==> StartFits(c)
    ensures longer.Some? ==>
              longer.value == output + ColumnOctets(c, strings.offsets, blobs.offsets, stringWidth, blobWidth)
  {
    hide HeapsHold, IndexOf, LittleEndian, HoldsName, HoldsBlob;
    ghost var f := Frame(strings.data, blobs.data, stringWidth, blobWidth, []);
    KnownColumn(c, strings.offsets, blobs.offsets, f);
    var value, width := 0, if c.Start? then c.width else if c.Text? then stringWidth else blobWidth;
    if c.Start? {
      if c.row >= 0x1_0000 { return None; }
      value := c.row;
    } else {
      var offset := AddColumn(strings, blobs, c);
      value := offset.value;
    }
    longer := WriteIndex(output, value, width);
    if longer.Some? { IndexIsRead(output, longer.value, value, width); }
  }

  lemma KnownAt(names: map<Name, nat>, values: map<seq<Byte>, nat>, columns: seq<Column>, k: nat)
    requires AllKnown(names, values, columns) && k < |columns|
    ensures Known(names, values, columns[k])
  {
  }

  lemma WrittenStep(output: seq<Byte>, columns: seq<Column>, k: nat, names: map<Name, nat>,
                    values: map<seq<Byte>, nat>, f: Frame)
    requires k < |columns|
    ensures output + Written(columns[k..], names, values, f.stringWidth, f.blobWidth)
         == output + ColumnOctets(columns[k], names, values, f.stringWidth, f.blobWidth)
          + Written(columns[k + 1..], names, values, f.stringWidth, f.blobWidth)
  {
    hide ColumnOctets;
    assert columns[k..][1..] == columns[k + 1..];
  }

  /** What WriteIndex appends for a known column. */
  lemma KnownColumn(c: Column, names: map<Name, nat>, values: map<seq<Byte>, nat>, f: Frame)
    requires Known(names, values, c) && HeapsHold(names, values, f)
    ensures c.Number16? ==> ColumnOctets(c, names, values, f.stringWidth, f.blobWidth) == Le16(c.n)
    ensures c.Number32? ==> ColumnOctets(c, names, values, f.stringWidth, f.blobWidth) == Le32(c.word)
    ensures c.Text? ==>
              && names[c.name] < 0x1_0000 && FitsWidth(names[c.name], f.stringWidth)
              && ColumnOctets(c, names, values, f.stringWidth, f.blobWidth) == IndexOf(names[c.name], f.stringWidth)
    ensures c.Blob? ==>
              && values[c.value] < 0x1_0000 && FitsWidth(values[c.value], f.blobWidth)
              && ColumnOctets(c, names, values, f.stringWidth, f.blobWidth) == IndexOf(values[c.value], f.blobWidth)
  {
    hide IndexOf, HeapsHold, FitsWidth;
    if c.Text? { HeldName(names, values, f, c.name); }
    if c.Blob? { HeldBlob(names, values, f, c.value); }
  }

  /** The format's limits on rows. */
  predicate WithinQuotas(m: Metadata) {
    && 1 <= |m.typeDefinitions| <= 253 && 1 <= |m.methods| <= 256 && |m.fields| <= 1022
    && |m.typeReferences| + |m.syntheticTypes| <= 256 && |m.members| <= 256 && |m.references| <= 17
    && |m.attributes| <= 256
  }

  /** The heap and table part of Write: it fails only on a row quota, a heap quota or a list start,
      and otherwise the finished sections list every record, whatever the heaps held before. */
  method WriteSections(m: Metadata, strings: StringHeap, blobs: BlobHeap) returns (tables: Option<seq<Byte>>)
    requires strings.Valid() && blobs.Valid()
    modifies strings, blobs
    ensures strings.Valid() && blobs.Valid()
    ensures tables.Some? ==> WithinQuotas(m) && StartsFit(m)
    ensures tables.None? ==>
              || !WithinQuotas(m) || !StartsFit(m)
              || exists c :: c in Loads(m) && Unstorable(c, strings.data, blobs.data)
    ensures tables.Some? ==> Inspect(tables.value, strings.data, blobs.data) == Some(Listings(m, 0))
    ensures tables.Some? ==>
              [2, 0, (if |strings.data| <= 256 then 0 else 1) + (if |blobs.data| <= 256 then 0 else 2), 0]
              <= tables.value
  {
    hide Columns, Loads, Inspect, AllKnown, Unstorable, StartsFit, Listings, IsRowCounts, HeaderOctets;
    if |m.typeDefinitions| < 1 || |m.typeDefinitions| > 253 || |m.methods| < 1 || |m.methods| > 256
       || |m.fields| > 1022 || |m.typeReferences| + |m.syntheticTypes| > 256 || |m.members| > 256
       || |m.references| > 17 || |m.attributes| > 256 {
      return None;
    }
    var ok := PopulateHeaps(m, strings, blobs);
    if !ok { return None; }
    var stringWidth: Width := if |strings.data| <= 256 then 1 else 2;
    var blobWidth: Width := if |blobs.data| <= 256 then 1 else 2;
    QuotasCount(m);
    var rows := RowCounts(m);
    tables := BuildTables(m, strings, blobs, rows.value, stringWidth, blobWidth);
    if tables.Some? { HeaderStarts(rows.value, stringWidth, blobWidth, tables.value); }
  }

  lemma HeaderStarts(rows: map<nat, UInt16>, stringWidth: Width, blobWidth: Width, data: seq<Byte>)
    requires HeaderOctets(rows, stringWidth, blobWidth) <= data
    ensures [2, 0, (if stringWidth == 1 then 0 else 1) + (if blobWidth == 1 then 0 else 2), 0] <= data
  {
    hide MaskOctets, CountOctets;
    var header := HeaderOctets(rows, stringWidth, blobWidth);
    assert data[0] == header[0] && data[1] == header[1] && data[2] == header[2] && data[3] == header[3];
  }

  /** Within the quotas every row count fits. */
  lemma QuotasCount(m: Metadata)
    requires WithinQuotas(m)
    ensures forall id: nat :: id < 64 ==> |Records(m, id)| < 0x1_0000
  {
    hide Records;
    RecordCounts(m);
    forall id: nat | id < 64 ensures |Records(m, id)| < 0x1_0000 {
      if !InSchema(id) { assert Records(m, id) == []; }
    }
  }
}
