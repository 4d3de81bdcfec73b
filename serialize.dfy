/**
 * Serialization of a record into the nested column map
 * family -> qualifier -> timestamp -> bytes (`convertRecordToMap` and the
 * helpers it calls for static, multi-version and dynamic columns).
 */
module Serialize {
  import opened Base
  import opened Bytes
  import opened Codec
  import opened Column
  import opened Schema

  /** `HConstants.LATEST_TIMESTAMP`, `Long.MAX_VALUE`. */
  const LATEST_TIMESTAMP: int := 0x7FFF_FFFF_FFFF_FFFF

  /** `NavigableMap<Long, byte[]>`: the versions of one column. */
  type Versions = map<int, Bytes>
  /** The columns of one family, by qualifier. */
  type FamilyMap = map<Bytes, Versions>
  /** The whole map, by family. */
  type ColumnMap = map<Bytes, FamilyMap>

  /** The field values of a record instance. */
  type RecordState = map<FieldRef, Value>

  /** What `field.get(record)` returns: a field never assigned holds null. */
  function FieldValue(state: RecordState, ref: FieldRef): Value
  {
    if ref in state then state[ref] else Null
  }

  /** A Java `int` counter after `i` increments from zero, wrapping at 32 bits. */
  function Int32Of(i: nat): (r: int)
    ensures -0x8000_0000 <= r < 0x8000_0000
    ensures i < 0x8000_0000 ==> r == i
  {
    var u := i % 0x1_0000_0000;
    if u < 0x8000_0000 then u else u - 0x1_0000_0000
  }

  // ---------------------------------------------------------------------
  // Dynamic columns

  /** The names an element's runtime class declares. */
  function DeclaredNames(v: Value): set<JString>
  {
    if v.Obj? then v.fields.Keys else {}
  }

  /**
   * The qualifier bytes of one element: each part's value serialized, joined
   * by the qualifier separator. A first part that serializes to null leaves
   * the running value null, so the next part starts it afresh; a null part
   * after the running value has started fails as `Bytes.add` does.
   */
  function PartValues(codec: Codec, spec: DynamicSpec, flags: Flags, fields: map<JString, Value>, parts: seq<JString>)
    : Result<Option<Bytes>>
    requires forall i :: 0 <= i < |parts| ==> parts[i] in fields
  {
    if |parts| == 0 then Ok(None)
    else
      var acc :- PartValues(codec, spec, flags, fields, parts[..|parts| - 1]);
      var b :- ValueToByteArray(codec, fields[parts[|parts| - 1]], flags);
      match acc
      case None => Ok(b)
      case Some(a) => if b.None? then Err(NullPointer) else Ok(Some(a + spec.qualifierSeparator + b.value))
  }

  /** The qualifier of the element at `index`, from its part bytes. */
  function DynamicQualifierBytes(spec: DynamicSpec, index: nat, partValues: Bytes): Bytes
  {
    if spec.preserveOrder then spec.prefix + spec.separator + (Int32BE(Int32Of(index)) + spec.separator + partValues)
    else spec.prefix + spec.separator + partValues
  }

  /** The column one element of a dynamic field writes. */
  datatype ElementCell = ElementCell(qualifier: Bytes, value: Bytes)

  /**
   * One element of a dynamic column: its qualifier and its serialized value,
   * or nothing when it has no part bytes at all.
   */
  function ElementColumn(codec: Codec, spec: DynamicSpec, flags: Flags, index: nat, v: Value): Result<Option<ElementCell>>
  {
    if v.Null? then Err(NullPointer)
    else if !(forall i :: 0 <= i < |spec.parts| ==> spec.parts[i] in DeclaredNames(v)) then Err(IllegalArgument)
    else
      var pv :- PartValues(codec, spec, flags, if v.Obj? then v.fields else map[], spec.parts);
      if pv.None? then Ok(None)
      else
        var cell :- ValueToByteArray(codec, v, flags);
        Ok(Some(ElementCell(DynamicQualifierBytes(spec, index, pv.value), cell.value)))
  }

  /** What each element of a dynamic field yields, by index. */
  function ElementCells(codec: Codec, spec: DynamicSpec, flags: Flags, items: seq<Value>)
    : (r: seq<Result<Option<ElementCell>>>)
    ensures |r| == |items|
    ensures forall k :: 0 <= k < |items| ==> r[k] == ElementColumn(codec, spec, flags, k, items[k])
  {
    seq(|items|, k requires 0 <= k < |items| => ElementColumn(codec, spec, flags, k, items[k]))
  }

  /**
   * The elements' columns put into one map in order: a later element on the
   * same qualifier replaces an earlier one; the first failure ends it.
   */
  function PutCells(cells: seq<Result<Option<ElementCell>>>): Result<FamilyMap>
  {
    if |cells| == 0 then Ok(map[])
    else
      var m :- PutCells(cells[..|cells| - 1]);
      var c :- cells[|cells| - 1];
      match c
      case None => Ok(m)
      case Some(e) => Ok(m[e.qualifier := map[LATEST_TIMESTAMP := e.value]])
  }

  /** The columns of a dynamic field. */
  function DynamicColumns(codec: Codec, spec: DynamicSpec, flags: Flags, items: seq<Value>): Result<FamilyMap>
  {
    PutCells(ElementCells(codec, spec, flags, items))
  }

  /** The cell at `k` writes qualifier `q` and no later cell writes it. */
  predicate LastWriter(cells: seq<Result<Option<ElementCell>>>, k: int, q: Bytes)
  {
    && 0 <= k < |cells|
    && cells[k].Ok? && cells[k].value.Some? && cells[k].value.value.qualifier == q
    && forall j :: k < j < |cells| && cells[j].Ok? && cells[j].value.Some? ==> cells[j].value.value.qualifier != q
  }

  /** Every qualifier an element writes starts with the prefix and the separator. */
  lemma ElementPrefix(codec: Codec, spec: DynamicSpec, flags: Flags, index: nat, v: Value)
    requires ElementColumn(codec, spec, flags, index, v).Ok? && ElementColumn(codec, spec, flags, index, v).value.Some?
    ensures StartsWith(ElementColumn(codec, spec, flags, index, v).value.value.qualifier, spec.prefix + spec.separator)
  {
    var pv := PartValues(codec, spec, flags, if v.Obj? then v.fields else map[], spec.parts).value.value;
    var q := ElementColumn(codec, spec, flags, index, v).value.value.qualifier;
    if spec.preserveOrder {
      assert q == (spec.prefix + spec.separator) + (Int32BE(Int32Of(index)) + spec.separator + pv);
    }
  }

  /**
   * The map is written only when every cell is; then each cell that has a
   * column writes its qualifier, and each qualifier holds one version, at
   * `LATEST_TIMESTAMP`: the value of the last cell that wrote it.
   */
  lemma {:induction false} PutCellsSpec(cells: seq<Result<Option<ElementCell>>>)
    requires PutCells(cells).Ok?
    ensures forall k :: 0 <= k < |cells| ==> cells[k].Ok?
    ensures forall k :: 0 <= k < |cells| && cells[k].value.Some? ==> cells[k].value.value.qualifier in PutCells(cells).value
    ensures var m := PutCells(cells).value;
      forall q :: q in m ==>
        exists k :: LastWriter(cells, k, q) && m[q] == map[LATEST_TIMESTAMP := cells[k].value.value.value]
  {
    if |cells| > 0 {
      var n := |cells| - 1;
      var init := cells[..n];
      assert forall k :: 0 <= k < n ==> init[k] == cells[k];
      PutCellsSpec(init);
      var m := PutCells(init).value;
      var m' := PutCells(cells).value;
      forall q | q in m'
        ensures exists k :: LastWriter(cells, k, q) && m'[q] == map[LATEST_TIMESTAMP := cells[k].value.value.value]
      {
        if cells[n].value.Some? && q == cells[n].value.value.qualifier {
          assert LastWriter(cells, n, q);
        } else {
          var k :| LastWriter(init, k, q) && m[q] == map[LATEST_TIMESTAMP := init[k].value.value.value];
          assert LastWriter(cells, k, q);
        }
      }
    }
  }

  /**
   * What a dynamic field writes: every element that has part bytes writes
   * its qualifier; every qualifier starts with prefix and separator and holds
   * one version, at `LATEST_TIMESTAMP`, the value of the last element that
   * wrote it (without `preserveOrder`, equal part values collide and the
   * last element wins).
   */
  lemma DynamicColumnsSpec(codec: Codec, spec: DynamicSpec, flags: Flags, items: seq<Value>)
    requires DynamicColumns(codec, spec, flags, items).Ok?
    ensures var cells := ElementCells(codec, spec, flags, items);
      var m := DynamicColumns(codec, spec, flags, items).value;
      && (forall k :: 0 <= k < |items| ==> cells[k].Ok?)
      && (forall k :: 0 <= k < |items| && cells[k].value.Some? ==> cells[k].value.value.qualifier in m)
      && (forall q :: q in m ==> StartsWith(q, spec.prefix + spec.separator))
      && (forall q :: q in m ==>
            exists k :: LastWriter(cells, k, q) && m[q] == map[LATEST_TIMESTAMP := cells[k].value.value.value])
  {
    var cells := ElementCells(codec, spec, flags, items);
    PutCellsSpec(cells);
    forall q | q in DynamicColumns(codec, spec, flags, items).value
      ensures StartsWith(q, spec.prefix + spec.separator)
    {
      var k :| LastWriter(cells, k, q);
      ElementPrefix(codec, spec, flags, k, items[k]);
    }
  }

  /** Preserving order, elements at different indexes write different qualifiers. */
  lemma PreservedQualifiersDiffer(spec: DynamicSpec, i: nat, j: nat, a: Bytes, b: Bytes)
    requires spec.preserveOrder && i < j < 0x8000_0000
    ensures DynamicQualifierBytes(spec, i, a) != DynamicQualifierBytes(spec, j, b)
  {
    var p := spec.prefix + spec.separator;
    var qi := DynamicQualifierBytes(spec, i, a);
    var qj := DynamicQualifierBytes(spec, j, b);
    assert qi == p + Int32BE(i) + (spec.separator + a);
    assert qj == p + Int32BE(j) + (spec.separator + b);
    assert qi[|p|..|p| + 4] == Int32BE(i);
    assert qj[|p|..|p| + 4] == Int32BE(j);
    assert Num4(Int32BE(i)) != Num4(Int32BE(j));
  }

  /**
   * With `preserveOrder`, no element is lost to a later one: when every
   * element has part bytes, each keeps its own qualifier and its own value,
   * and there are as many columns as elements.
   */
  lemma PreserveOrderKeepsAll(codec: Codec, spec: DynamicSpec, flags: Flags, items: seq<Value>)
    requires spec.preserveOrder && |items| <= 0x8000_0000
    requires DynamicColumns(codec, spec, flags, items).Ok?
    requires forall k :: 0 <= k < |items| ==> ElementColumn(codec, spec, flags, k, items[k]) != Ok(None)
    ensures var cells := ElementCells(codec, spec, flags, items);
      var m := DynamicColumns(codec, spec, flags, items).value;
      && |m| == |items|
      && forall k :: 0 <= k < |items| ==>
        cells[k].Ok? && cells[k].value.Some? &&
        cells[k].value.value.qualifier in m && m[cells[k].value.value.qualifier] == map[LATEST_TIMESTAMP := cells[k].value.value.value]
  {
    var cells := ElementCells(codec, spec, flags, items);
    PutCellsSpec(cells);
    forall i, j | 0 <= i < j < |cells|
      ensures cells[i].value.value.qualifier != cells[j].value.value.qualifier
    {
      ElementQualifier(codec, spec, flags, i, items[i]);
      ElementQualifier(codec, spec, flags, j, items[j]);
      var pi :| cells[i].value.value.qualifier == DynamicQualifierBytes(spec, i, pi);
      var pj :| cells[j].value.value.qualifier == DynamicQualifierBytes(spec, j, pj);
      PreservedQualifiersDiffer(spec, i, j, pi, pj);
    }
    PutCellsDistinct(cells);
  }

  /**
   * Cells that all write and write pairwise different qualifiers all
   * survive: one column per cell, holding that cell's value.
   */
  lemma PutCellsDistinct(cells: seq<Result<Option<ElementCell>>>)
    requires PutCells(cells).Ok?
    requires forall k :: 0 <= k < |cells| ==> cells[k].Ok? && cells[k].value.Some?
    requires forall i, j :: 0 <= i < j < |cells| ==> cells[i].value.value.qualifier != cells[j].value.value.qualifier
    ensures var m := PutCells(cells).value;
      && |m| == |cells|
      && forall k :: 0 <= k < |cells| ==>
        cells[k].value.value.qualifier in m && m[cells[k].value.value.qualifier] == map[LATEST_TIMESTAMP := cells[k].value.value.value]
  {
    PutCellsSpec(cells);
    var m := PutCells(cells).value;
    forall k | 0 <= k < |cells|
      ensures var c := cells[k].value.value;
        c.qualifier in m && m[c.qualifier] == map[LATEST_TIMESTAMP := c.value]
    {
      var c := cells[k].value.value;
      var w :| LastWriter(cells, w, c.qualifier) && m[c.qualifier] == map[LATEST_TIMESTAMP := cells[w].value.value.value];
      assert w == k;
    }
    var quals := seq(|cells|, k requires 0 <= k < |cells| && cells[k].Ok? && cells[k].value.Some? =>
      cells[k].value.value.qualifier);
    assert m.Keys == set q | q in quals by {
      forall q | q in m
        ensures q in quals
      {
        var w :| LastWriter(cells, w, q);
        assert quals[w] == q;
      }
    }
    DistinctCount(quals);
  }

  /** A sequence without repetitions has as many distinct elements as entries. */
  lemma {:induction false} DistinctCount(s: seq<Bytes>)
    requires forall i, j :: 0 <= i < j < |s| ==> s[i] != s[j]
    ensures |set q | q in s| == |s|
  {
    if |s| > 0 {
      var init := s[..|s| - 1];
      DistinctCount(init);
      assert (set q | q in s) == (set q | q in init) + {s[|s| - 1]};
      assert s[|s| - 1] !in init;
    }
  }

  /** An element's qualifier is formed from its index and some part bytes. */
  lemma ElementQualifier(codec: Codec, spec: DynamicSpec, flags: Flags, index: nat, v: Value)
    requires ElementColumn(codec, spec, flags, index, v).Ok? && ElementColumn(codec, spec, flags, index, v).value.Some?
    ensures exists pv :: ElementColumn(codec, spec, flags, index, v).value.value.qualifier == DynamicQualifierBytes(spec, index, pv)
  {
    var pv := PartValues(codec, spec, flags, if v.Obj? then v.fields else map[], spec.parts).value.value;
    assert ElementColumn(codec, spec, flags, index, v).value.value.qualifier == DynamicQualifierBytes(spec, index, pv);
  }

  /** A failure among the cells is the failure of every longer run of them. */
  lemma {:induction false} PutCellsErrAppend(cells: seq<Result<Option<ElementCell>>>, i: nat)
    requires i <= |cells| && PutCells(cells[..i]).Err?
    ensures PutCells(cells) == PutCells(cells[..i])
    decreases |cells| - i
  {
    if i < |cells| {
      assert cells[..i + 1][..i] == cells[..i];
      PutCellsErrAppend(cells, i + 1);
    } else {
      assert cells[..i] == cells;
    }
  }

  /** The Java `int` after `++` on `Int32Of(i)`. */
  lemma Int32Next(i: nat)
    ensures Int32Of(i + 1) == if Int32Of(i) == 0x7FFF_FFFF then -0x8000_0000 else Int32Of(i) + 1
  {
    var u := i % 0x1_0000_0000;
    if u == 0xFFFF_FFFF {
      assert (i + 1) % 0x1_0000_0000 == 0;
    } else {
      assert (i + 1) % 0x1_0000_0000 == u + 1;
    }
  }

  /**
   * The inner loop of `getDynamicColumns0`: each part's value serialized
   * and appended to the running bytes with the qualifier separator.
   */
  method SerializeParts(codec: Codec, spec: DynamicSpec, flags: Flags, fields: map<JString, Value>)
    returns (r: Result<Option<Bytes>>)
    requires forall i :: 0 <= i < |spec.parts| ==> spec.parts[i] in fields
    ensures r == PartValues(codec, spec, flags, fields, spec.parts)
  {
    var parts := spec.parts;
    var partValues: Option<Bytes> := None;
    var i := 0;
    assert parts[..0] == [];
    while i < |parts|
      invariant 0 <= i <= |parts|
      invariant PartValues(codec, spec, flags, fields, parts[..i]) == Ok(partValues)
    {
      assert parts[..i + 1][..i] == parts[..i];
      var serialized := ValueToByteArray(codec, fields[parts[i]], flags);
      if serialized.Err? {
        PartValuesErrAppend(codec, spec, flags, fields, parts, i + 1);
        return Err(serialized.error);
      }
      if partValues.None? {
        partValues := serialized.value;
      } else if serialized.value.None? {
        PartValuesErrAppend(codec, spec, flags, fields, parts, i + 1);
        return Err(NullPointer);
      } else {
        partValues := Some(partValues.value + spec.qualifierSeparator + serialized.value.value);
      }
      i := i + 1;
    }
    assert parts[..i] == parts;
    r := Ok(partValues);
  }

  /** A failure while joining the first parts is the failure of the whole join. */
  lemma {:induction false} PartValuesErrAppend(codec: Codec, spec: DynamicSpec, flags: Flags, fields: map<JString, Value>,
                                               parts: seq<JString>, i: nat)
    requires forall k :: 0 <= k < |parts| ==> parts[k] in fields
    requires i <= |parts| && PartValues(codec, spec, flags, fields, parts[..i]).Err?
    ensures PartValues(codec, spec, flags, fields, parts) == PartValues(codec, spec, flags, fields, parts[..i])
    decreases |parts| - i
  {
    if i < |parts| {
      assert parts[..i + 1][..i] == parts[..i];
      PartValuesErrAppend(codec, spec, flags, fields, parts, i + 1);
    } else {
      assert parts[..i] == parts;
    }
  }

  /**
   * One element of `getDynamicColumns0`: its class must declare every part;
   * its qualifier is built from the part bytes (and from `valueIndex`, the
   * element's index as a Java `int`, when order is preserved).
   */
  method DynamicElement(codec: Codec, spec: DynamicSpec, flags: Flags, ghost index: nat, valueIndex: int, v: Value)
    returns (r: Result<Option<ElementCell>>)
    requires valueIndex == Int32Of(index)
    ensures r == ElementColumn(codec, spec, flags, index, v)
  {
    if v.Null? {
      return Err(NullPointer);
    }
    if !(forall i :: 0 <= i < |spec.parts| ==> spec.parts[i] in DeclaredNames(v)) {
      return Err(IllegalArgument);
    }
    var partValues := SerializeParts(codec, spec, flags, if v.Obj? then v.fields else map[]);
    if partValues.Err? {
      return Err(partValues.error);
    }
    if partValues.value.None? {
      return Ok(None);
    }
    var pv := partValues.value.value;
    var columnName := if spec.preserveOrder
      then spec.prefix + spec.separator + (Int32BE(valueIndex) + spec.separator + pv)
      else spec.prefix + spec.separator + pv;
    var columnSingleValue := ValueToByteArray(codec, v, flags);
    if columnSingleValue.Err? {
      return Err(columnSingleValue.error);
    }
    r := Ok(Some(ElementCell(columnName, columnSingleValue.value.value)));
  }

  /**
   * `getDynamicColumns0`: for each element in iteration order, check that
   * its class declares every part, build the qualifier from the part bytes
   * (and the element's index, when order is preserved) and put the
   * element's bytes under it at `LATEST_TIMESTAMP`.
   */
  method GetDynamicColumns0(codec: Codec, spec: DynamicSpec, flags: Flags, items: seq<Value>)
    returns (r: Result<FamilyMap>)
    ensures r == DynamicColumns(codec, spec, flags, items)
  {
    ghost var cells := ElementCells(codec, spec, flags, items);
    var columnValues: FamilyMap := map[];
    var valueIndex := 0;
    var n := 0;
    assert cells[..0] == [];
    while n < |items|
      invariant 0 <= n <= |items|
      invariant valueIndex == Int32Of(n)
      invariant PutCells(cells[..n]) == Ok(columnValues)
    {
      PutCellsStep(cells, n, columnValues);
      var cell := DynamicElement(codec, spec, flags, n, valueIndex, items[n]);
      if cell.Err? {
        PutCellsErrAppend(cells, n + 1);
        return Err(cell.error);
      }
      if cell.value.Some? {
        columnValues := columnValues[cell.value.value.qualifier := map[LATEST_TIMESTAMP := cell.value.value.value]];
      }
      Int32Next(n);
      valueIndex := if valueIndex == 0x7FFF_FFFF then -0x8000_0000 else valueIndex + 1;
      n := n + 1;
    }
    assert cells[..n] == cells;
    r := Ok(columnValues);
  }

  /** One more cell: the map grows by that cell's column, or the cell's error ends it. */
  lemma PutCellsStep(cells: seq<Result<Option<ElementCell>>>, n: nat, m: FamilyMap)
    requires n < |cells| && PutCells(cells[..n]) == Ok(m)
    ensures cells[n].Err? ==> PutCells(cells[..n + 1]) == Err(cells[n].error)
    ensures cells[n].Ok? && cells[n].value.None? ==> PutCells(cells[..n + 1]) == Ok(m)
    ensures cells[n].Ok? && cells[n].value.Some? ==>
      PutCells(cells[..n + 1]) == Ok(m[cells[n].value.value.qualifier := map[LATEST_TIMESTAMP := cells[n].value.value.value]])
  {
    assert cells[..n + 1][..n] == cells[..n];
  }

  /** Joining the part bytes fails only as the codec fails or as `Bytes.add` does on a null part. */
  lemma {:induction false} PartValuesErrors(codec: Codec, spec: DynamicSpec, flags: Flags, fields: map<JString, Value>, parts: seq<JString>)
    requires forall i :: 0 <= i < |parts| ==> parts[i] in fields
    ensures PartValues(codec, spec, flags, fields, parts).Err? ==>
      PartValues(codec, spec, flags, fields, parts).error in {CodecError, NullPointer}
  {
    if |parts| > 0 {
      PartValuesErrors(codec, spec, flags, fields, parts[..|parts| - 1]);
    }
  }

  /** An element fails only on a null element, a missing part, or a codec or null-part failure. */
  lemma ElementColumnErrors(codec: Codec, spec: DynamicSpec, flags: Flags, index: nat, v: Value)
    ensures ElementColumn(codec, spec, flags, index, v).Err? ==>
      ElementColumn(codec, spec, flags, index, v).error in {NullPointer, IllegalArgument, CodecError}
  {
    if !v.Null? && forall i :: 0 <= i < |spec.parts| ==> spec.parts[i] in DeclaredNames(v) {
      PartValuesErrors(codec, spec, flags, if v.Obj? then v.fields else map[], spec.parts);
    }
  }

  /** A failed fold fails with the error of one of the cells. */
  lemma {:induction false} PutCellsErrorIsCell(cells: seq<Result<Option<ElementCell>>>)
    ensures PutCells(cells).Err? ==> exists k :: 0 <= k < |cells| && cells[k] == Err(PutCells(cells).error)
  {
    if |cells| > 0 {
      var init := cells[..|cells| - 1];
      PutCellsErrorIsCell(init);
      if PutCells(init).Err? {
        var k :| 0 <= k < |init| && init[k] == Err(PutCells(init).error);
        assert cells[k] == init[k];
      }
    }
  }

  /** A dynamic field's columns fail only as one of its elements does. */
  lemma DynamicColumnsErrors(codec: Codec, spec: DynamicSpec, flags: Flags, items: seq<Value>)
    ensures DynamicColumns(codec, spec, flags, items).Err? ==>
      DynamicColumns(codec, spec, flags, items).error in {NullPointer, IllegalArgument, CodecError}
  {
    var cells := ElementCells(codec, spec, flags, items);
    PutCellsErrorIsCell(cells);
    if PutCells(cells).Err? {
      var k :| 0 <= k < |cells| && cells[k] == Err(PutCells(cells).error);
      ElementColumnErrors(codec, spec, flags, k, items[k]);
    }
  }
}

