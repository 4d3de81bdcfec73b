/**
 * Deserialization of the nested column map back into a record
 * (`convertMapToRecord`, `convertDynamicColumn`, `convertStandardColumn`
 * and the three `objectSetFieldValue` overloads). The record under
 * construction is an object whose fields are set in place.
 */
module Deserialize {
  import opened Base
  import opened Bytes
  import opened Codec
  import opened Column
  import opened Schema
  import opened Serialize
  import opened RowKey
  import opened RecordMap

  // ---------------------------------------------------------------------
  // Setting one field

  /**
   * The `V` of a field declared `NavigableMap<Long, V>`: its second type
   * argument, if the declared type has one.
   */
  function VersionValueType(t: JType): Option<JType>
  {
    if t.Parameterized? && |t.args| >= 2 then Some(t.args[1]) else None
  }

  /** The codec reads every version of a column as `t`. */
  predicate DecodesAll(codec: Codec, t: JType, versions: Versions, flags: Flags)
  {
    forall ts :: ts in versions ==> ByteArrayToValue(codec, versions[ts], t, flags).Ok?
  }

  /**
   * Every version decoded under its own timestamp, empty bytes as null. A
   * version the codec fails on fails the whole field.
   */
  function DecodeVersions(codec: Codec, t: JType, versions: Versions, flags: Flags): (r: Result<map<int, Value>>)
    ensures r.Err? <==> exists ts :: ts in versions && |versions[ts]| > 0 && codec.deserialize(versions[ts], t, flags).None?
    ensures r.Ok? ==> r.value.Keys == versions.Keys
    ensures r.Ok? ==> forall ts :: ts in versions && |versions[ts]| == 0 ==> r.value[ts] == Null
    ensures r.Ok? ==> forall ts :: ts in versions && |versions[ts]| > 0 ==> Some(r.value[ts]) == codec.deserialize(versions[ts], t, flags)
  {
    if !DecodesAll(codec, t, versions, flags) then Err(CodecError)
    else Ok(map ts | ts in versions :: ByteArrayToValue(codec, versions[ts], t, flags).value)
  }

  /**
   * `objectSetFieldValue(obj, field, NavigableMap<Long, byte[]>, flags)`: a
   * missing column leaves the field alone; otherwise the field gets every
   * version decoded as its declared value type. Any failure in doing so,
   * the codec's included, is reported as `ConversionFailed`. The value type
   * is only looked up for a version, so an empty version map sets the field
   * to an empty map whatever its declared type.
   */
  function SetFromVersions(codec: Codec, st: RecordState, e: MappedField, versions: Option<Versions>, flags: Flags)
    : Result<RecordState>
  {
    if versions.None? then Ok(st)
    else if versions.value == map[] then Ok(st[e.Ref() := VersionMap(map[])])
    else if VersionValueType(e.decl.genericType).None? then Err(ConversionFailed)
    else
      match DecodeVersions(codec, VersionValueType(e.decl.genericType).value, versions.value, flags)
      case Err(_) => Err(ConversionFailed)
      case Ok(vs) => Ok(st[e.Ref() := VersionMap(vs)])
  }

  /**
   * `objectSetFieldValue(obj, field, byte[], flags)`: empty bytes leave the
   * field alone; otherwise it gets the bytes decoded as its declared type.
   */
  function SetFromBytes(codec: Codec, st: RecordState, e: MappedField, value: Bytes, flags: Flags): Result<RecordState>
  {
    if |value| == 0 then Ok(st)
    else
      var v :- ByteArrayToValue(codec, value, e.decl.genericType, flags);
      Ok(st[e.Ref() := v])
  }

  // ---------------------------------------------------------------------
  // Standard and dynamic columns

  /**
   * `convertStandardColumn`: a single-version field takes the version with
   * the smallest timestamp (`firstEntry`) of its column, if there is one; a
   * multi-version field takes all versions of its column.
   */
  function StandardRead(codec: Codec, st: RecordState, e: MappedField, familyMap: FamilyMap): Result<RecordState>
    requires e.column.Mapped?
  {
    var column := e.column.column;
    var versions := if column in familyMap then Some(familyMap[column]) else None;
    if e.column.IsSingleVersioned() then
      if versions.None? || versions.value == map[] then Ok(st)
      else SetFromBytes(codec, st, e, versions.value[FirstKey(versions.value)], e.column.codecFlags)
    else SetFromVersions(codec, st, e, versions, e.column.codecFlags)
  }

  /** `prefix + separator`, where a dynamic field's qualifiers start. */
  function DynamicPrefix(spec: DynamicSpec): Bytes
  {
    spec.prefix + spec.separator
  }

  /**
   * The qualifiers `familyMap.subMap(prefix + separator, prefix + separator
   * + [0x7F])` visits, in ascending order.
   */
  function DynamicRange(spec: DynamicSpec, familyMap: FamilyMap): (qs: seq<Bytes>)
    ensures forall q :: q in qs <==> q in familyMap && InRange(q, DynamicPrefix(spec), DynamicPrefix(spec) + [BYTE_TERMINAL_VALUE])
    ensures Ascending(qs)
  {
    var p := DynamicPrefix(spec);
    SortedKeysAscending(set q | q in familyMap && InRange(q, p, p + [BYTE_TERMINAL_VALUE]));
    SortedKeys(set q | q in familyMap && InRange(q, p, p + [BYTE_TERMINAL_VALUE]))
  }

  /**
   * The elements of a dynamic field, one per qualifier, in the given order:
   * the value of each column's first version decoded as the element type.
   * A column with no versions at all fails as `firstEntry().getValue()` does.
   */
  function DecodeElements(codec: Codec, spec: DynamicSpec, flags: Flags, familyMap: FamilyMap, qs: seq<Bytes>)
    : Result<seq<Value>>
    requires forall i :: 0 <= i < |qs| ==> qs[i] in familyMap
  {
    if |qs| == 0 then Ok([])
    else
      var init :- DecodeElements(codec, spec, flags, familyMap, qs[..|qs| - 1]);
      var versions := familyMap[qs[|qs| - 1]];
      if versions == map[] then Err(NullPointer)
      else
        var v :- ByteArrayToValue(codec, versions[FirstKey(versions)], spec.dynamicType, flags);
        Ok(init + [v])
  }

  /**
   * `convertDynamicColumn`: the field is left alone when no qualifier falls
   * in its range, and otherwise gets the list of decoded elements.
   */
  function DynamicRead(codec: Codec, st: RecordState, e: MappedField, familyMap: FamilyMap): Result<RecordState>
    requires e.column.Mapped? && e.column.kind.Dynamic?
  {
    SetElements(codec, st, e, familyMap, DynamicRange(e.column.kind.spec, familyMap))
  }

  /**
   * The field gets the elements decoded from the columns `qs`, unless there
   * are none. The elements are an `ArrayList`: a field whose declared type
   * cannot hold one (a `Set`, a `LinkedList`) makes `field.set` throw
   * `IllegalArgumentException`, which the setter does not catch.
   */
  function SetElements(codec: Codec, st: RecordState, e: MappedField, familyMap: FamilyMap, qs: seq<Bytes>): Result<RecordState>
    requires e.column.Mapped? && e.column.kind.Dynamic?
    requires forall i :: 0 <= i < |qs| ==> qs[i] in familyMap
  {
    if |qs| == 0 then Ok(st)
    else
      var values :- DecodeElements(codec, e.column.kind.spec, e.column.codecFlags, familyMap, qs);
      if !Erasure(e.decl.genericType).holdsArrayList then Err(IllegalArgument)
      else Ok(st[e.Ref() := Items(values)])
  }

  /** One field of `convertMapToRecord`: a missing or empty family leaves the field alone. */
  function ReadField(codec: Codec, st: RecordState, e: MappedField, m: ColumnMap): Result<RecordState>
  {
    if e.column.Unmapped? || e.column.family !in m || m[e.column.family] == map[] then Ok(st)
    else if e.column.IsDynamic() then DynamicRead(codec, st, e, m[e.column.family])
    else StandardRead(codec, st, e, m[e.column.family])
  }

  /** The fields read in iteration order; the first failure ends it. */
  function ReadFields(codec: Codec, fields: seq<MappedField>, m: ColumnMap, st: RecordState): Result<RecordState>
  {
    if |fields| == 0 then Ok(st)
    else
      var st' :- ReadFields(codec, fields[..|fields| - 1], m, st);
      ReadField(codec, st', fields[|fields| - 1], m)
  }

  /**
   * `convertMapToRecord`: discover the fields, read the row key, construct
   * the record, let it parse its key, then read each field.
   */
  function MapToRecord(codec: Codec, cls: RecordClass, code: RowKeyCode, rowKeyBytes: Bytes, m: ColumnMap)
    : Result<RecordState>
  {
    var found :- HBColumnFields(cls);
    CollectValid(Wrap, Walk(cls.hierarchy, VisitedLevels(cls.hierarchy)));
    var rowKey :- BytesToRowKey(codec, cls.table, code, rowKeyBytes);
    if !cls.noArgConstructor.Public? then Err(ObjectNotInstantiatable)
    else
      match code.parse(rowKey)
      case None => Err(RowKeyCouldNotBeParsed)
      case Some(st) => ReadFields(codec, found.Values(), m, st)
  }

  // ---------------------------------------------------------------------
  // The record being built

  /** An instance of the record class: the values of its fields, set in place. */
  class Record {
    var state: RecordState

    /** A fresh instance after `parseRowKey` left its fields as `initial`. */
    constructor (initial: RecordState)
      ensures state == initial
    {
      state := initial;
    }

    /** `objectSetFieldValue(obj, field, value)`: the field gets `value`, nothing else changes. */
    method SetFieldValue(ref: FieldRef, value: Value)
      modifies this
      ensures state == old(state)[ref := value]
    {
      state := state[ref := value];
    }
  }

  /** A method's outcome on a record, as the result its specification function gives. */
  function AsResult(o: Outcome, st: RecordState): Result<RecordState>
  {
    if o.Pass? then Ok(st) else Err(o.error)
  }

  /** `objectSetFieldValue(obj, field, byte[], flags)` on the record. */
  method SetFieldValueFromBytes(codec: Codec, record: Record, e: MappedField, value: Bytes, flags: Flags)
    returns (o: Outcome)
    modifies record
    ensures AsResult(o, record.state) == SetFromBytes(codec, old(record.state), e, value, flags)
  {
    if |value| == 0 {
      return Pass;
    }
    var v := ByteArrayToValue(codec, value, e.decl.genericType, flags);
    if v.Err? {
      return Fail(v.error);
    }
    record.SetFieldValue(e.Ref(), v.value);
    o := Pass;
  }

  /**
   * `objectSetFieldValue(obj, field, NavigableMap<Long, byte[]>, flags)` on
   * the record: the versions decoded in ascending timestamp order.
   */
  method SetFieldValueFromVersions(codec: Codec, record: Record, e: MappedField, versions: Option<Versions>, flags: Flags)
    returns (o: Outcome)
    modifies record
    ensures AsResult(o, record.state) == SetFromVersions(codec, old(record.state), e, versions, flags)
  {
    if versions.None? {
      return Pass;
    }
    if versions.value == map[] {
      record.SetFieldValue(e.Ref(), VersionMap(map[]));
      return Pass;
    }
    var t := VersionValueType(e.decl.genericType);
    if t.None? {
      return Fail(ConversionFailed);
    }
    var boxed := DecodeVersionsInOrder(codec, t.value, versions.value, flags);
    if boxed.Err? {
      return Fail(ConversionFailed);
    }
    record.SetFieldValue(e.Ref(), VersionMap(boxed.value));
    o := Pass;
  }

  /** The loop of the multi-version overload: each version decoded, smallest timestamp first. */
  method DecodeVersionsInOrder(codec: Codec, t: JType, versions: Versions, flags: Flags) returns (r: Result<map<int, Value>>)
    ensures r == DecodeVersions(codec, t, versions, flags)
  {
    var boxed: map<int, Value> := map[];
    var remaining := versions.Keys;
    while remaining != {}
      invariant remaining <= versions.Keys
      invariant boxed.Keys == versions.Keys - remaining
      invariant forall ts :: ts in boxed ==> ByteArrayToValue(codec, versions[ts], t, flags) == Ok(boxed[ts])
      invariant forall ts, u :: ts in boxed && u in remaining ==> ts < u
      decreases |remaining|
    {
      var timestamp := Least(remaining);
      var v := ByteArrayToValue(codec, versions[timestamp], t, flags);
      if v.Err? {
        assert !DecodesAll(codec, t, versions, flags);
        assert DecodeVersions(codec, t, versions, flags) == Err(CodecError);
        return Err(v.error);
      }
      boxed := boxed[timestamp := v.value];
      remaining := remaining - {timestamp};
    }
    var expected := DecodeVersions(codec, t, versions, flags);
    assert DecodesAll(codec, t, versions, flags);
    assert expected.Ok?;
    assert boxed.Keys == expected.value.Keys;
    assert forall ts :: ts in boxed ==> boxed[ts] == expected.value[ts];
    assert boxed == expected.value;
    r := Ok(boxed);
  }

  /** `convertStandardColumn` on the record. */
  method ConvertStandardColumn(codec: Codec, record: Record, e: MappedField, familyMap: FamilyMap) returns (o: Outcome)
    requires e.column.Mapped?
    modifies record
    ensures AsResult(o, record.state) == StandardRead(codec, old(record.state), e, familyMap)
  {
    var column := e.column.column;
    var versions := if column in familyMap then Some(familyMap[column]) else None;
    if e.column.IsSingleVersioned() {
      if versions.None? || versions.value == map[] {
        return Pass;
      }
      var firstEntry := FirstKey(versions.value);
      o := SetFieldValueFromBytes(codec, record, e, versions.value[firstEntry], e.column.codecFlags);
    } else {
      o := SetFieldValueFromVersions(codec, record, e, versions, e.column.codecFlags);
    }
  }

  /**
   * `convertDynamicColumn` on the record: the columns of the range visited
   * in ascending order, each element appended as it is decoded, and the
   * list set on the field at the end.
   */
  method ConvertDynamicColumn(codec: Codec, record: Record, e: MappedField, familyMap: FamilyMap) returns (o: Outcome)
    requires e.column.Mapped? && e.column.kind.Dynamic?
    modifies record
    ensures AsResult(o, record.state) == DynamicRead(codec, old(record.state), e, familyMap)
  {
    var spec := e.column.kind.spec;
    var subMap := DynamicRange(spec, familyMap);
    if |subMap| == 0 {
      return Pass;
    }
    var values := DecodeEntries(codec, spec, e.column.codecFlags, familyMap, subMap);
    if values.Err? {
      return Fail(values.error);
    }
    if !Erasure(e.decl.genericType).holdsArrayList {
      return Fail(IllegalArgument);
    }
    record.SetFieldValue(e.Ref(), Items(values.value));
    o := Pass;
  }

  /** The loop of `convertDynamicColumn`: each column's first version decoded, in the order given. */
  method DecodeEntries(codec: Codec, spec: DynamicSpec, flags: Flags, familyMap: FamilyMap, subMap: seq<Bytes>)
    returns (r: Result<seq<Value>>)
    requires forall k :: 0 <= k < |subMap| ==> subMap[k] in familyMap
    ensures r == DecodeElements(codec, spec, flags, familyMap, subMap)
  {
    var values: seq<Value> := [];
    var i := 0;
    while i < |subMap|
      invariant 0 <= i <= |subMap|
      invariant DecodeElements(codec, spec, flags, familyMap, subMap[..i]) == Ok(values)
    {
      assert subMap[..i + 1][..i] == subMap[..i];
      var versions := familyMap[subMap[i]];
      if versions == map[] {
        DecodeElementsErrAppend(codec, spec, flags, familyMap, subMap, i + 1);
        return Err(NullPointer);
      }
      var value := ByteArrayToValue(codec, versions[FirstKey(versions)], spec.dynamicType, flags);
      if value.Err? {
        DecodeElementsErrAppend(codec, spec, flags, familyMap, subMap, i + 1);
        return Err(value.error);
      }
      values := values + [value.value];
      i := i + 1;
    }
    assert subMap[..i] == subMap;
    r := Ok(values);
  }

  /** A failure among the first `i` columns is the failure of the whole range. */
  lemma {:induction false} DecodeElementsErrAppend(codec: Codec, spec: DynamicSpec, flags: Flags, familyMap: FamilyMap,
                                                   qs: seq<Bytes>, i: nat)
    requires forall k :: 0 <= k < |qs| ==> qs[k] in familyMap
    requires i <= |qs| && DecodeElements(codec, spec, flags, familyMap, qs[..i]).Err?
    ensures DecodeElements(codec, spec, flags, familyMap, qs) == DecodeElements(codec, spec, flags, familyMap, qs[..i])
    decreases |qs| - i
  {
    if i < |qs| {
      assert qs[..i + 1][..i] == qs[..i];
      DecodeElementsErrAppend(codec, spec, flags, familyMap, qs, i + 1);
    } else {
      assert qs[..i] == qs;
    }
  }

  /** One pass of the loop of `convertMapToRecord`, on the record. */
  method ConvertField(codec: Codec, record: Record, e: MappedField, m: ColumnMap) returns (o: Outcome)
    modifies record
    ensures AsResult(o, record.state) == ReadField(codec, old(record.state), e, m)
  {
    if e.column.Unmapped? || e.column.family !in m {
      return Pass;
    }
    var familyMap := m[e.column.family];
    if familyMap == map[] {
      return Pass;
    }
    if e.column.IsDynamic() {
      o := ConvertDynamicColumn(codec, record, e, familyMap);
    } else {
      o := ConvertStandardColumn(codec, record, e, familyMap);
    }
  }

  /**
   * `convertMapToRecord`: a new record whose fields are set in place, one
   * mapped field after another; it is returned only when every field was read.
   */
  method ConvertMapToRecord(codec: Codec, cls: RecordClass, code: RowKeyCode, rowKeyBytes: Bytes, m: ColumnMap)
    returns (r: Result<Record>)
    ensures r.Ok? ==> fresh(r.value) && MapToRecord(codec, cls, code, rowKeyBytes, m) == Ok(r.value.state)
    ensures r.Err? ==> MapToRecord(codec, cls, code, rowKeyBytes, m) == Err(r.error)
  {
    var found := GetHBColumnFields0(cls);
    if found.Err? {
      return Err(found.error);
    }
    CollectValid(Wrap, Walk(cls.hierarchy, VisitedLevels(cls.hierarchy)));
    var fields := found.value.Values();
    var rowKey := BytesToRowKey(codec, cls.table, code, rowKeyBytes);
    if rowKey.Err? {
      return Err(rowKey.error);
    }
    if !cls.noArgConstructor.Public? {
      return Err(ObjectNotInstantiatable);
    }
    var parsed := code.parse(rowKey.value);
    if parsed.None? {
      return Err(RowKeyCouldNotBeParsed);
    }
    var record := new Record(parsed.value);
    var i := 0;
    while i < |fields|
      invariant 0 <= i <= |fields|
      invariant ReadFields(codec, fields[..i], m, parsed.value) == Ok(record.state)
    {
      assert fields[..i + 1][..i] == fields[..i];
      var o := ConvertField(codec, record, fields[i], m);
      if o.Fail? {
        ReadFieldsErrAppend(codec, fields, m, parsed.value, i + 1);
        return Err(o.error);
      }
      i := i + 1;
    }
    assert fields[..i] == fields;
    r := Ok(record);
  }

  /** A failure among the first `i` fields is the failure of the whole read. */
  lemma {:induction false} ReadFieldsErrAppend(codec: Codec, fields: seq<MappedField>, m: ColumnMap, st: RecordState, i: nat)
    requires i <= |fields| && ReadFields(codec, fields[..i], m, st).Err?
    ensures ReadFields(codec, fields, m, st) == ReadFields(codec, fields[..i], m, st)
    decreases |fields| - i
  {
    if i < |fields| {
      assert fields[..i + 1][..i] == fields[..i];
      ReadFieldsErrAppend(codec, fields, m, st, i + 1);
    } else {
      assert fields[..i] == fields;
    }
  }

  // ---------------------------------------------------------------------
  // What reading a field does

  /** Reading a field changes no other field. */
  lemma ReadFieldFrame(codec: Codec, st: RecordState, e: MappedField, m: ColumnMap, r: FieldRef)
    requires ReadField(codec, st, e, m).Ok? && r != e.Ref()
    ensures r in ReadField(codec, st, e, m).value <==> r in st
    ensures r in st ==> ReadField(codec, st, e, m).value[r] == st[r]
  {
  }

  /**
   * Reading the mapped fields leaves every other field as it was, among
   * them the fields `parseRowKey` set.
   */
  lemma {:induction false} ReadFieldsFrame(codec: Codec, fields: seq<MappedField>, m: ColumnMap, st: RecordState, r: FieldRef)
    requires ReadFields(codec, fields, m, st).Ok?
    requires forall k :: 0 <= k < |fields| ==> fields[k].Ref() != r
    ensures r in ReadFields(codec, fields, m, st).value <==> r in st
    ensures r in st ==> ReadFields(codec, fields, m, st).value[r] == st[r]
  {
    if |fields| > 0 {
      var init := fields[..|fields| - 1];
      ReadFieldsFrame(codec, init, m, st, r);
      ReadFieldFrame(codec, ReadFields(codec, init, m, st).value, fields[|fields| - 1], m, r);
    }
  }

  /** The record `convertMapToRecord` returns keeps what `parseRowKey` set in every field that is not mapped. */
  lemma MapToRecordKeepsParsedFields(codec: Codec, cls: RecordClass, code: RowKeyCode, rowKeyBytes: Bytes, m: ColumnMap, r: FieldRef)
    requires MapToRecord(codec, cls, code, rowKeyBytes, m).Ok?
    requires HBColumnFields(cls).Ok? ==> forall n :: n in HBColumnFields(cls).value.byName ==> HBColumnFields(cls).value.byName[n].Ref() != r
    ensures var key := BytesToRowKey(codec, cls.table, code, rowKeyBytes);
      && key.Ok? && code.parse(key.value).Some?
      && (r in MapToRecord(codec, cls, code, rowKeyBytes, m).value <==> r in code.parse(key.value).value)
      && (r in code.parse(key.value).value ==> MapToRecord(codec, cls, code, rowKeyBytes, m).value[r] == code.parse(key.value).value[r])
  {
    var found := HBColumnFields(cls).value;
    CollectValid(Wrap, Walk(cls.hierarchy, VisitedLevels(cls.hierarchy)));
    var fields := found.Values();
    forall k | 0 <= k < |fields|
      ensures fields[k].Ref() != r
    {
      assert fields[k] == found.byName[found.order[k]];
    }
    var key := BytesToRowKey(codec, cls.table, code, rowKeyBytes);
    ReadFieldsFrame(codec, fields, m, code.parse(key.value).value, r);
  }

  /** The map holds nothing for the field: its family, or its column or range within the family, is missing or empty. */
  predicate NothingToRead(e: MappedField, m: ColumnMap)
    requires e.column.Mapped?
  {
    var f := e.column.family;
    || f !in m
    || m[f] == map[]
    || (if e.column.IsDynamic()
        then forall q :: q in m[f] ==> !InRange(q, DynamicPrefix(e.column.kind.spec), DynamicPrefix(e.column.kind.spec) + [BYTE_TERMINAL_VALUE])
        else e.column.column !in m[f])
  }

  /** A field the map holds nothing for keeps its value. */
  lemma AbsentLeavesField(codec: Codec, st: RecordState, e: MappedField, m: ColumnMap)
    requires e.column.Mapped? && NothingToRead(e, m)
    ensures ReadField(codec, st, e, m) == Ok(st)
  {
  }

  /**
   * A single-version field reads the version with the smallest timestamp of
   * its column: empty bytes leave the field alone, other bytes are decoded as
   * the field's type, and a codec failure fails the read with `CodecError`.
   */
  lemma SingleVersionRead(codec: Codec, st: RecordState, e: MappedField, m: ColumnMap, t: int)
    requires e.column.Mapped? && e.column.kind.SingleVersion?
    requires e.column.family in m && e.column.column in m[e.column.family]
    requires var versions := m[e.column.family][e.column.column];
      t in versions && forall u :: u in versions ==> t <= u
    ensures var b := m[e.column.family][e.column.column][t];
      var decoded := codec.deserialize(b, e.decl.genericType, e.column.codecFlags);
      var r := ReadField(codec, st, e, m);
      && (|b| == 0 ==> r == Ok(st))
      && (|b| > 0 && decoded.None? ==> r == Err(CodecError))
      && (|b| > 0 && decoded.Some? ==> r == Ok(st[e.Ref() := decoded.value]))
  {
    var versions := m[e.column.family][e.column.column];
    assert FirstKey(versions) == t;
  }

  /**
   * A multi-version field reads every version of its column under its own
   * timestamp, empty bytes as null, each decoded as the field's value type;
   * it fails with `ConversionFailed` when there is a version and the
   * field's type has no value type argument, or a version cannot be decoded.
   */
  lemma MultiVersionRead(codec: Codec, st: RecordState, e: MappedField, m: ColumnMap)
    requires e.column.Mapped? && e.column.kind.MultiVersion?
    requires e.column.family in m && e.column.column in m[e.column.family]
    ensures var versions := m[e.column.family][e.column.column];
      var t := VersionValueType(e.decl.genericType);
      var r := ReadField(codec, st, e, m);
      && (r.Ok? <==> versions == map[] || (t.Some? && forall ts :: ts in versions && |versions[ts]| > 0 ==> codec.deserialize(versions[ts], t.value, e.column.codecFlags).Some?))
      && (r.Err? ==> r.error == ConversionFailed)
      && (r.Ok? ==>
            && e.Ref() in r.value && r.value[e.Ref()].VersionMap?
            && r.value[e.Ref()].versions.Keys == versions.Keys
            && (forall ts :: ts in versions && |versions[ts]| == 0 ==> r.value[e.Ref()].versions[ts] == Null)
            && (versions != map[] ==> t.Some? && forall ts :: ts in versions && |versions[ts]| > 0 ==>
                  Some(r.value[e.Ref()].versions[ts]) == codec.deserialize(versions[ts], t.value, e.column.codecFlags)))
  {
  }

  // ---------------------------------------------------------------------
  // Reading back what was written

  /**
   * What a single-version field writes, reading its column gives back: a
   * non-null value the codec round-trips is set on the field again.
   */
  lemma SingleVersionRoundTrip(codec: Codec, e: MappedField, state: RecordState, st: RecordState, m: ColumnMap)
    requires e.column.Mapped? && e.column.kind.SingleVersion?
    requires !FieldValue(state, e.Ref()).Null?
    requires ReadsBack(codec, e.decl.genericType, e.column.codecFlags, FieldValue(state, e.Ref()))
    requires e.column.family in m && e.column.column in m[e.column.family]
    requires FieldContribution(codec, e, state)
      == Ok(Some(Contribution(e.column.family, map[e.column.column := m[e.column.family][e.column.column]])))
    ensures ReadField(codec, st, e, m) == Ok(st[e.Ref() := FieldValue(state, e.Ref())])
  {
    var v := FieldValue(state, e.Ref());
    var b := codec.serialize(v, e.column.codecFlags).value;
    SingleVersionWrite(codec, e, state);
    assert m[e.column.family][e.column.column] == map[LATEST_TIMESTAMP := b] by {
      var cols := map[e.column.column := m[e.column.family][e.column.column]];
      assert cols == map[e.column.column := map[LATEST_TIMESTAMP := b]];
      assert cols[e.column.column] == map[LATEST_TIMESTAMP := b];
    }
    SingleVersionRead(codec, st, e, m, LATEST_TIMESTAMP);
  }

  /** The versions of a multi-version field that hold a value. */
  function NonNullVersions(vs: map<int, Value>): (r: map<int, Value>)
    ensures forall ts :: ts in r <==> ts in vs && !vs[ts].Null?
    ensures forall ts :: ts in r ==> r[ts] == vs[ts]
  {
    map ts | ts in vs && !vs[ts].Null? :: vs[ts]
  }

  /**
   * What a multi-version field writes, reading its column gives back, less
   * the versions that held null: those were never written.
   */
  lemma MultiVersionRoundTrip(codec: Codec, e: MappedField, state: RecordState, st: RecordState, m: ColumnMap)
    requires e.column.Mapped? && e.column.kind.MultiVersion?
    requires FieldValue(state, e.Ref()).VersionMap?
    requires VersionValueType(e.decl.genericType).Some?
    requires var vs := FieldValue(state, e.Ref()).versions;
      forall ts :: ts in vs && !vs[ts].Null? ==>
        ReadsBack(codec, VersionValueType(e.decl.genericType).value, e.column.codecFlags, vs[ts])
    requires e.column.family in m && e.column.column in m[e.column.family]
    requires FieldContribution(codec, e, state)
      == Ok(Some(Contribution(e.column.family, map[e.column.column := m[e.column.family][e.column.column]])))
    ensures ReadField(codec, st, e, m) == Ok(st[e.Ref() := VersionMap(NonNullVersions(FieldValue(state, e.Ref()).versions))])
  {
    var vs := FieldValue(state, e.Ref()).versions;
    var t := VersionValueType(e.decl.genericType).value;
    var flags := e.column.codecFlags;
    var versions := m[e.column.family][e.column.column];
    var written := VersionBytes(codec, vs, flags);
    assert written.Ok? && versions == written.value by {
      var cols := map[e.column.column := versions];
      assert cols[e.column.column] == versions;
    }
    var decoded := DecodeVersions(codec, t, versions, flags);
    assert decoded.Ok?;
    assert decoded.value == NonNullVersions(vs) by {
      forall ts | ts in versions
        ensures decoded.value[ts] == vs[ts]
      {
        assert Some(versions[ts]) == codec.serialize(vs[ts], flags);
      }
    }
  }

  /** What an element writes as its cell is what the codec makes of it. */
  lemma ElementValue(codec: Codec, spec: DynamicSpec, flags: Flags, index: nat, v: Value)
    requires ElementColumn(codec, spec, flags, index, v).Ok? && ElementColumn(codec, spec, flags, index, v).value.Some?
    ensures Some(ElementColumn(codec, spec, flags, index, v).value.value.value) == codec.serialize(v, flags)
  {
  }

  /** Preserving order, the element at an index below 0x7F000000 writes a qualifier the read range covers. */
  lemma PreservedInRange(spec: DynamicSpec, index: nat, pv: Bytes)
    requires spec.preserveOrder && index < 0x7F00_0000
    ensures InRange(DynamicQualifierBytes(spec, index, pv), DynamicPrefix(spec), DynamicPrefix(spec) + [BYTE_TERMINAL_VALUE])
  {
    var p := DynamicPrefix(spec);
    var q := DynamicQualifierBytes(spec, index, pv);
    var b := Int32BE(index);
    assert q == p + (b + spec.separator + pv);
    assert q[..|p|] == p;
    assert q[|p|] == b[0];
    assert Num4(b) == index;
    ScanRange(p, q);
  }

  /** Preserving order, qualifiers ascend with the index. */
  lemma PreservedOrder(spec: DynamicSpec, i: nat, j: nat, pi: Bytes, pj: Bytes)
    requires spec.preserveOrder && i < j < 0x8000_0000
    ensures Less(DynamicQualifierBytes(spec, i, pi), DynamicQualifierBytes(spec, j, pj))
  {
    var p := DynamicPrefix(spec);
    var x := spec.separator + pi;
    var y := spec.separator + pj;
    Int32BEOrder(i, j);
    LessEqualLength(Int32BE(i), Int32BE(j), x, y);
    LessCommonPrefix(p, Int32BE(i) + x, Int32BE(j) + y);
    assert DynamicQualifierBytes(spec, i, pi) == p + (Int32BE(i) + x);
    assert DynamicQualifierBytes(spec, j, pj) == p + (Int32BE(j) + y);
  }

  /** The qualifiers the elements write, by index. */
  function WrittenQualifiers(cells: seq<Result<Option<ElementCell>>>): (qs: seq<Bytes>)
    requires forall k :: 0 <= k < |cells| ==> cells[k].Ok? && cells[k].value.Some?
    ensures |qs| == |cells|
    ensures forall k :: 0 <= k < |cells| ==> qs[k] == cells[k].value.value.qualifier
  {
    seq(|cells|, k requires 0 <= k < |cells| => cells[k].value.value.qualifier)
  }

  /**
   * Preserving order, when the in-range columns of the family are those the
   * field wrote, the read visits them in the order of the elements.
   */
  lemma PreservedRange(codec: Codec, spec: DynamicSpec, flags: Flags, items: seq<Value>, familyMap: FamilyMap)
    requires spec.preserveOrder && |items| <= 0x7F00_0000
    requires DynamicColumns(codec, spec, flags, items).Ok?
    requires forall k :: 0 <= k < |items| ==> ElementColumn(codec, spec, flags, k, items[k]) != Ok(None)
    requires var cols := DynamicColumns(codec, spec, flags, items).value;
      && (forall q :: q in cols ==> q in familyMap)
      && (forall q :: q in familyMap && InRange(q, DynamicPrefix(spec), DynamicPrefix(spec) + [BYTE_TERMINAL_VALUE]) ==> q in cols)
    ensures var cells := ElementCells(codec, spec, flags, items);
      && (forall k :: 0 <= k < |cells| ==> cells[k].Ok? && cells[k].value.Some?)
      && DynamicRange(spec, familyMap) == WrittenQualifiers(cells)
  {
    var cells := ElementCells(codec, spec, flags, items);
    var cols := DynamicColumns(codec, spec, flags, items).value;
    PreserveOrderKeepsAll(codec, spec, flags, items);
    DynamicColumnsSpec(codec, spec, flags, items);
    var qs := WrittenQualifiers(cells);
    forall i, j | 0 <= i < j < |qs|
      ensures Less(qs[i], qs[j])
    {
      ElementQualifier(codec, spec, flags, i, items[i]);
      ElementQualifier(codec, spec, flags, j, items[j]);
      var pi :| qs[i] == DynamicQualifierBytes(spec, i, pi);
      var pj :| qs[j] == DynamicQualifierBytes(spec, j, pj);
      PreservedOrder(spec, i, j, pi, pj);
    }
    forall q
      ensures q in DynamicRange(spec, familyMap) <==> q in qs
    {
      if q in qs {
        var k :| 0 <= k < |qs| && qs[k] == q;
        ElementQualifier(codec, spec, flags, k, items[k]);
        var pv :| q == DynamicQualifierBytes(spec, k, pv);
        PreservedInRange(spec, k, pv);
      }
      if q in DynamicRange(spec, familyMap) {
        var k :| LastWriter(cells, k, q) && cols[q] == map[LATEST_TIMESTAMP := cells[k].value.value.value];
        assert qs[k] == q;
      }
    }
    SortedSame(DynamicRange(spec, familyMap), qs);
  }

  /** The columns written for `items`, decoded in the order given, are the items again. */
  lemma {:induction false} DecodeWrittenElements(codec: Codec, spec: DynamicSpec, flags: Flags, familyMap: FamilyMap,
                                                 qs: seq<Bytes>, items: seq<Value>)
    requires |qs| == |items|
    requires forall k :: 0 <= k < |qs| ==> qs[k] in familyMap
    requires forall k :: 0 <= k < |qs| ==>
      && ReadsBack(codec, spec.dynamicType, flags, items[k])
      && familyMap[qs[k]] == map[LATEST_TIMESTAMP := codec.serialize(items[k], flags).value]
    ensures DecodeElements(codec, spec, flags, familyMap, qs) == Ok(items)
  {
    if |qs| > 0 {
      var n := |qs| - 1;
      DecodeWrittenElements(codec, spec, flags, familyMap, qs[..n], items[..n]);
      assert LATEST_TIMESTAMP in familyMap[qs[n]];
      assert FirstKey(familyMap[qs[n]]) == LATEST_TIMESTAMP;
      assert items == items[..n] + [items[n]];
    }
  }

  /**
   * A dynamic field whose declared type cannot hold an `ArrayList` is never
   * read: with a column in its range whose elements decode, the read fails
   * with `IllegalArgument`; otherwise the record is left as it was.
   */
  lemma NonListFieldNotRead(codec: Codec, st: RecordState, e: MappedField, m: ColumnMap)
    requires e.column.Mapped? && e.column.kind.Dynamic? && !Erasure(e.decl.genericType).holdsArrayList
    requires e.column.family in m
    ensures var familyMap := m[e.column.family];
      var qs := DynamicRange(e.column.kind.spec, familyMap);
      |qs| > 0 && DecodeElements(codec, e.column.kind.spec, e.column.codecFlags, familyMap, qs).Ok? ==>
        ReadField(codec, st, e, m) == Err(IllegalArgument)
    ensures ReadField(codec, st, e, m).Ok? ==> ReadField(codec, st, e, m).value == st
  {
    var familyMap := m[e.column.family];
    var qs := DynamicRange(e.column.kind.spec, familyMap);
    if |qs| > 0 {
      assert qs[0] in familyMap;
    }
  }

  /**
   * With `preserveOrder`, what a dynamic field writes, reading its family
   * gives back, element for element and in order, provided the list is not
   * empty (an empty list writes nothing and leaves the field unset), every
   * element has part bytes, the codec round-trips every element, the list
   * has fewer than 0x7F000000 elements (beyond that the index's first byte
   * leaves the range read), and no other column of the family falls in the
   * field's range.
   */
  lemma DynamicRoundTrip(codec: Codec, e: MappedField, state: RecordState, st: RecordState, m: ColumnMap)
    requires e.column.Mapped? && e.column.kind.Dynamic? && e.column.kind.spec.preserveOrder
    requires Erasure(e.decl.genericType).holdsArrayList
    requires FieldValue(state, e.Ref()).Items?
    requires var items := FieldValue(state, e.Ref()).items;
      var spec := e.column.kind.spec;
      && 0 < |items| <= 0x7F00_0000
      && (forall k :: 0 <= k < |items| ==> ElementColumn(codec, spec, e.column.codecFlags, k, items[k]) != Ok(None))
      && (forall k :: 0 <= k < |items| ==> ReadsBack(codec, spec.dynamicType, e.column.codecFlags, items[k]))
    requires FieldContribution(codec, e, state).Ok? && FieldContribution(codec, e, state).value.Some?
    requires e.column.family in m
    requires var cols := FieldContribution(codec, e, state).value.value.columns;
      var spec := e.column.kind.spec;
      && (forall q :: q in cols ==> q in m[e.column.family] && m[e.column.family][q] == cols[q])
      && (forall q :: q in m[e.column.family] && InRange(q, DynamicPrefix(spec), DynamicPrefix(spec) + [BYTE_TERMINAL_VALUE]) ==> q in cols)
    ensures ReadField(codec, st, e, m) == Ok(st[e.Ref() := FieldValue(state, e.Ref())])
  {
    var items := FieldValue(state, e.Ref()).items;
    var spec := e.column.kind.spec;
    var flags := e.column.codecFlags;
    var familyMap := m[e.column.family];
    DynamicWrite(codec, e, state);
    var cols := DynamicColumns(codec, spec, flags, items).value;
    var cells := ElementCells(codec, spec, flags, items);
    PreservedRange(codec, spec, flags, items, familyMap);
    PreserveOrderKeepsAll(codec, spec, flags, items);
    var qs := WrittenQualifiers(cells);
    forall k | 0 <= k < |qs|
      ensures familyMap[qs[k]] == map[LATEST_TIMESTAMP := codec.serialize(items[k], flags).value]
    {
      ElementValue(codec, spec, flags, k, items[k]);
    }
    DecodeWrittenElements(codec, spec, flags, familyMap, qs, items);
    assert qs[0] in familyMap;
  }

  // ---------------------------------------------------------------------
  // The upper bound of the dynamic range

  /**
   * A qualifier that continues past `prefix + separator` with a byte of
   * 0x7F or more is never read, whatever else the family holds.
   */
  lemma HighByteNotRead(spec: DynamicSpec, familyMap: FamilyMap, q: Bytes)
    requires StartsWith(q, DynamicPrefix(spec))
    requires |q| > |DynamicPrefix(spec)| && q[|DynamicPrefix(spec)|] >= BYTE_TERMINAL_VALUE
    ensures q !in DynamicRange(spec, familyMap)
  {
    ScanRange(DynamicPrefix(spec), q);
  }

  /**
   * Two dynamic fields of one family whose `prefix + separator` differ but
   * have one length never read the same column.
   */
  lemma RangesDisjoint(a: DynamicSpec, b: DynamicSpec, familyMap: FamilyMap)
    requires |DynamicPrefix(a)| == |DynamicPrefix(b)| && DynamicPrefix(a) != DynamicPrefix(b)
    ensures forall q :: q in DynamicRange(a, familyMap) ==> q !in DynamicRange(b, familyMap)
  {
    forall q | q in DynamicRange(a, familyMap) && q in DynamicRange(b, familyMap)
      ensures false
    {
      ScanRange(DynamicPrefix(a), q);
      ScanRange(DynamicPrefix(b), q);
    }
  }

  /**
   * The columns of the family that start with `prefix + separator`, in
   * ascending order: the range the read is evidently meant to cover.
   */
  function PrefixRange(spec: DynamicSpec, familyMap: FamilyMap): (qs: seq<Bytes>)
    ensures forall q :: q in qs <==> q in familyMap && StartsWith(q, DynamicPrefix(spec))
    ensures Ascending(qs)
  {
    SortedKeysAscending(set q | q in familyMap && StartsWith(q, DynamicPrefix(spec)));
    SortedKeys(set q | q in familyMap && StartsWith(q, DynamicPrefix(spec)))
  }

  /** `convertDynamicColumn` with the range closed by the prefix alone. */
  function DynamicReadCorrected(codec: Codec, st: RecordState, e: MappedField, familyMap: FamilyMap): Result<RecordState>
    requires e.column.Mapped? && e.column.kind.Dynamic?
  {
    SetElements(codec, st, e, familyMap, PrefixRange(e.column.kind.spec, familyMap))
  }

  /** With the corrected range, every column a dynamic field writes is among those read for it. */
  lemma PrefixRangeReadsWritten(codec: Codec, spec: DynamicSpec, flags: Flags, items: seq<Value>, familyMap: FamilyMap)
    requires DynamicColumns(codec, spec, flags, items).Ok?
    requires forall q :: q in DynamicColumns(codec, spec, flags, items).value ==> q in familyMap
    ensures forall q :: q in DynamicColumns(codec, spec, flags, items).value ==> q in PrefixRange(spec, familyMap)
  {
    DynamicColumnsSpec(codec, spec, flags, items);
  }

  /** A codec that writes a scalar as its content and anything else as `[1]`, and reads `[1]` as `back`. */
  function ExampleCodec(back: Value): Codec
  {
    Codec(
      (v: Value, f: Flags) => if v.Scalar? then Some(v.content) else Some([1]),
      (b: Bytes, t: JType, f: Flags) => if b == [1] then Some(back) else None,
      (t: JType) => true)
  }

  // A dynamic field with prefix "def" and separator "#" whose one element
  // has as its only part the string "\u00e9", UTF-8 `C3 A9`.
  const EXAMPLE_PART: JString := [0x6E, 0x61, 0x6D, 0x65]
  const EXAMPLE_ITEM := Obj("Element", map[EXAMPLE_PART := Scalar(STRING_CLASS, [0xC3, 0xA9])])
  const EXAMPLE_SPEC := DynamicSpec([EXAMPLE_PART], [0x23], [0x23], [0x64, 0x65, 0x66], false,
                                    ClassType(JClass("Element", false, false, false, map[EXAMPLE_PART := STRING_CLASS])))
  const EXAMPLE_FAMILY: JString := [0x66]
  const EXAMPLE_FIELD := MappedField(
    "Entity",
    FieldDecl([0x65], ClassType(JClass("java.util.List", false, true, true, map[])), false, false, None, None, None),
    Mapped(EXAMPLE_FAMILY, EXAMPLE_PART, Dynamic(EXAMPLE_SPEC), map[]))
  /** `def#` followed by `C3 A9`. */
  const EXAMPLE_QUALIFIER: Bytes := [0x64, 0x65, 0x66, 0x23, 0xC3, 0xA9]
  const EXAMPLE_WRITTEN: FamilyMap := map[EXAMPLE_QUALIFIER := map[LATEST_TIMESTAMP := [1]]]

  /** The example element is written under `def#` followed by `C3 A9`. */
  lemma HighByteElementWritten()
    ensures FieldContribution(ExampleCodec(EXAMPLE_ITEM), EXAMPLE_FIELD, map[EXAMPLE_FIELD.Ref() := Items([EXAMPLE_ITEM])])
      == Ok(Some(Contribution(EXAMPLE_FAMILY, EXAMPLE_WRITTEN)))
  {
    var codec := ExampleCodec(EXAMPLE_ITEM);
    var spec := EXAMPLE_SPEC;
    var q := EXAMPLE_QUALIFIER;
    assert PartValues(codec, spec, map[], EXAMPLE_ITEM.fields, [EXAMPLE_PART]) == Ok(Some([0xC3, 0xA9])) by {
      assert [EXAMPLE_PART][..0] == [];
    }
    assert spec.parts[0] in DeclaredNames(EXAMPLE_ITEM);
    assert ValueToByteArray(codec, EXAMPLE_ITEM, map[]) == Ok(Some([1]));
    assert DynamicQualifierBytes(spec, 0, [0xC3, 0xA9]) == q;
    assert ElementColumn(codec, spec, map[], 0, EXAMPLE_ITEM) == Ok(Some(ElementCell(q, [1])));
    var cells := ElementCells(codec, spec, map[], [EXAMPLE_ITEM]);
    assert cells == [Ok(Some(ElementCell(q, [1])))];
    assert cells[..0] == [];
    assert PutCells(cells[..0]) == Ok(map[]);
    assert PutCells(cells) == Ok(map[][q := map[LATEST_TIMESTAMP := [1]]]);
  }

  /** As written, reading the family the example field wrote leaves the field unset. */
  lemma HighByteElementLost()
    ensures ReadField(ExampleCodec(EXAMPLE_ITEM), map[], EXAMPLE_FIELD, map[EXAMPLE_FAMILY := EXAMPLE_WRITTEN]) == Ok(map[])
  {
    HighByteNotRead(EXAMPLE_SPEC, EXAMPLE_WRITTEN, EXAMPLE_QUALIFIER);
    assert DynamicRange(EXAMPLE_SPEC, EXAMPLE_WRITTEN) == [];
  }

  /** With the corrected range, the same read gives the field its element back. */
  lemma HighByteElementReadCorrected()
    ensures DynamicReadCorrected(ExampleCodec(EXAMPLE_ITEM), map[], EXAMPLE_FIELD, EXAMPLE_WRITTEN)
      == Ok(map[EXAMPLE_FIELD.Ref() := Items([EXAMPLE_ITEM])])
  {
    var codec := ExampleCodec(EXAMPLE_ITEM);
    var q := EXAMPLE_QUALIFIER;
    var written := EXAMPLE_WRITTEN;
    var qs := PrefixRange(EXAMPLE_SPEC, written);
    assert q in qs;
    assert qs == [q];
    assert LATEST_TIMESTAMP in written[q];
    assert FirstKey(written[q]) == LATEST_TIMESTAMP;
    assert qs[..0] == [];
    assert ByteArrayToValue(codec, written[q][LATEST_TIMESTAMP], EXAMPLE_SPEC.dynamicType, map[]) == Ok(EXAMPLE_ITEM);
    assert DecodeElements(codec, EXAMPLE_SPEC, map[], written, qs[..0]) == Ok([]);
    assert DecodeElements(codec, EXAMPLE_SPEC, map[], written, qs) == Ok([] + [EXAMPLE_ITEM]);
    assert EXAMPLE_FIELD.column.kind.spec == EXAMPLE_SPEC && EXAMPLE_FIELD.column.codecFlags == map[];
    assert [] + [EXAMPLE_ITEM] == [EXAMPLE_ITEM];
    assert DecodeElements(codec, EXAMPLE_FIELD.column.kind.spec, EXAMPLE_FIELD.column.codecFlags, written, qs) == Ok([EXAMPLE_ITEM]);
    assert SetElements(codec, map[], EXAMPLE_FIELD, written, qs) == Ok(map[EXAMPLE_FIELD.Ref() := Items([EXAMPLE_ITEM])]);
  }
}
