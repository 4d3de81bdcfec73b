/**
 * `convertRecordToMap`: a record instance turned into the nested map
 * family -> qualifier -> timestamp -> bytes, field by field, with the
 * multi-version helper `getFieldValuesAsNavigableMapOfBytes`.
 */
module RecordMap {
  import opened Base
  import opened Bytes
  import opened Codec
  import opened Column
  import opened Schema
  import opened Serialize

  /**
   * The versions of a multi-version field as bytes: a null version is
   * skipped, every other one is serialized under its own timestamp, and a
   * version the codec fails on fails the field.
   */
  function VersionBytes(codec: Codec, versions: map<int, Value>, flags: Flags): (r: Result<Versions>)
    ensures r.Err? <==> exists t :: t in versions && !versions[t].Null? && codec.serialize(versions[t], flags).None?
    ensures r.Err? ==> r.error == CodecError
    ensures r.Ok? ==> forall t :: t in r.value <==> t in versions && !versions[t].Null?
    ensures r.Ok? ==> forall t :: t in r.value ==> Some(r.value[t]) == codec.serialize(versions[t], flags)
  {
    if exists t :: t in versions && ValueToByteArray(codec, versions[t], flags).Err? then Err(CodecError)
    else Ok(map t | t in versions && !versions[t].Null? :: ValueToByteArray(codec, versions[t], flags).value.value)
  }

  /**
   * What a multi-version field writes: nothing when it is null, an error
   * when it is not a map or is an empty map, otherwise its versions' bytes.
   */
  function MultiVersionBytes(codec: Codec, v: Value, flags: Flags): Result<Option<Versions>>
  {
    if v.Null? then Ok(None)
    else if !v.VersionMap? then Err(ClassCast)
    else if v.versions == map[] then Err(FieldAnnotatedWithHBColumnMultiVersionCantBeEmpty)
    else
      var vs :- VersionBytes(codec, v.versions, flags);
      Ok(Some(vs))
  }

  /**
   * `getFieldValuesAsNavigableMapOfBytes`: the versions visited in
   * ascending timestamp order, null ones skipped.
   */
  method GetFieldValuesAsNavigableMapOfBytes(codec: Codec, v: Value, flags: Flags) returns (r: Result<Option<Versions>>)
    ensures r == MultiVersionBytes(codec, v, flags)
  {
    if v.Null? {
      return Ok(None);
    }
    if !v.VersionMap? {
      return Err(ClassCast);
    }
    var versions := v.versions;
    if versions == map[] {
      return Err(FieldAnnotatedWithHBColumnMultiVersionCantBeEmpty);
    }
    var output: Versions := map[];
    var remaining := versions.Keys;
    while remaining != {}
      invariant remaining <= versions.Keys
      invariant forall t :: t in versions && t !in remaining ==> ValueToByteArray(codec, versions[t], flags).Ok?
      invariant forall t :: t in output <==> t in versions && t !in remaining && !versions[t].Null?
      invariant forall t :: t in output ==> Some(output[t]) == codec.serialize(versions[t], flags)
      invariant forall t, u :: t in versions && t !in remaining && u in remaining ==> t < u
      decreases |remaining|
    {
      var timestamp := Least(remaining);
      var fieldValue := versions[timestamp];
      if !fieldValue.Null? {
        var fieldValueBytes := ValueToByteArray(codec, fieldValue, flags);
        if fieldValueBytes.Err? {
          return Err(CodecError);
        }
        output := output[timestamp := fieldValueBytes.value.value];
      }
      remaining := remaining - {timestamp};
    }
    assert !exists t :: t in versions && !versions[t].Null? && codec.serialize(versions[t], flags).None?;
    var expected := VersionBytes(codec, versions, flags);
    assert expected.Ok?;
    assert forall t :: t in output <==> t in expected.value;
    assert forall t :: t in output ==> output[t] == expected.value[t];
    assert output == expected.value;
    r := Ok(Some(output));
  }

  // ---------------------------------------------------------------------
  // Whole records

  /** A single-version field's column: written only when its bytes are non-empty, at `LATEST_TIMESTAMP`. */
  function SingleColumn(codec: Codec, column: JString, flags: Flags, v: Value): Result<FamilyMap>
  {
    var b :- ValueToByteArray(codec, v, flags);
    if b.Some? && |b.value| > 0 then Ok(map[column := map[LATEST_TIMESTAMP := b.value]]) else Ok(map[])
  }

  /** A dynamic field's columns: none when it is null; it must be a collection. */
  function DynamicFieldColumns(codec: Codec, spec: DynamicSpec, flags: Flags, v: Value): Result<FamilyMap>
  {
    if v.Null? then Ok(map[])
    else if !v.Items? then Err(ClassCast)
    else DynamicColumns(codec, spec, flags, v.items)
  }

  /**
   * What one field adds to the map: the columns it puts into its family.
   * A single-version or dynamic field always creates its family (possibly
   * with no columns); a multi-version field does so only when it is not null.
   */
  datatype Contribution = Contribution(family: JString, columns: FamilyMap)

  function FieldContribution(codec: Codec, e: MappedField, state: RecordState): Result<Option<Contribution>>
  {
    var v := FieldValue(state, e.Ref());
    match e.column
    case Unmapped => Ok(None)
    case Mapped(family, column, kind, flags) =>
      match kind
      case SingleVersion =>
        var cols :- SingleColumn(codec, column, flags, v);
        Ok(Some(Contribution(family, cols)))
      case Dynamic(spec) =>
        var cols :- DynamicFieldColumns(codec, spec, flags, v);
        Ok(Some(Contribution(family, cols)))
      case MultiVersion =>
        var vs :- MultiVersionBytes(codec, v, flags);
        if vs.None? then Ok(None) else Ok(Some(Contribution(family, map[column := vs.value])))
  }

  /** The contribution of each discovered field, in iteration order. */
  function Contributions(codec: Codec, fields: seq<MappedField>, state: RecordState)
    : (r: seq<Result<Option<Contribution>>>)
    ensures |r| == |fields|
    ensures forall k :: 0 <= k < |fields| ==> r[k] == FieldContribution(codec, fields[k], state)
  {
    seq(|fields|, k requires 0 <= k < |fields| => FieldContribution(codec, fields[k], state))
  }

  /** The map being built and the number of columns written so far (`numOfFieldsToWrite`). */
  datatype Written = Written(columns: ColumnMap, count: nat)

  /** `computeIfAbsent` the family, then `putAll` the columns into it. */
  function Merge(m: ColumnMap, family: JString, cols: FamilyMap): ColumnMap
  {
    m[family := (if family in m then m[family] else map[]) + cols]
  }

  /** One field's contribution applied to the map being built. */
  function Apply(w: Written, c: Option<Contribution>): Written
  {
    match c
    case None => w
    case Some(ct) => Written(Merge(w.columns, ct.family, ct.columns), w.count + |ct.columns|)
  }

  /** The contributions applied in order; the first failure ends it. */
  function Gather(cs: seq<Result<Option<Contribution>>>): Result<Written>
  {
    if |cs| == 0 then Ok(Written(map[], 0))
    else
      var w :- Gather(cs[..|cs| - 1]);
      var c :- cs[|cs| - 1];
      Ok(Apply(w, c))
  }

  /** Contributions that are all successes, applied in order. */
  function Fold(os: seq<Option<Contribution>>): Written
  {
    if |os| == 0 then Written(map[], 0) else Apply(Fold(os[..|os| - 1]), os[|os| - 1])
  }

  /** The contributions of a run without failures. */
  function Successes(cs: seq<Result<Option<Contribution>>>): (os: seq<Option<Contribution>>)
    requires forall k :: 0 <= k < |cs| ==> cs[k].Ok?
    ensures |os| == |cs| && forall k :: 0 <= k < |cs| ==> os[k] == cs[k].value
  {
    seq(|cs|, k requires 0 <= k < |cs| && cs[k].Ok? => cs[k].value)
  }

  /**
   * `convertRecordToMap`: every discovered field's columns, family by
   * family; a record that writes no column at all is rejected.
   */
  function RecordToMap(codec: Codec, cls: RecordClass, state: RecordState): Result<ColumnMap>
  {
    var found :- HBColumnFields(cls);
    CollectValid(Wrap, Walk(cls.hierarchy, VisitedLevels(cls.hierarchy)));
    var w :- Gather(Contributions(codec, found.Values(), state));
    if w.count == 0 then Err(AllHBColumnFieldsNull) else Ok(w.columns)
  }

  /** Gathering succeeds exactly when no field fails, and then it is the fold of the contributions. */
  lemma {:induction false} GatherFold(cs: seq<Result<Option<Contribution>>>)
    ensures Gather(cs).Ok? <==> forall k :: 0 <= k < |cs| ==> cs[k].Ok?
    ensures Gather(cs).Ok? ==> Gather(cs).value == Fold(Successes(cs))
  {
    if |cs| > 0 {
      var n := |cs| - 1;
      var init := cs[..n];
      GatherFold(init);
      if Gather(cs).Ok? {
        assert Gather(init).Ok? && cs[n].Ok?;
        assert forall k :: 0 <= k < n ==> cs[k] == init[k];
        assert Successes(cs)[..n] == Successes(init);
      } else if Gather(init).Ok? {
        assert cs[n].Err?;
      } else {
        var k :| 0 <= k < n && init[k].Err?;
        assert cs[k].Err?;
      }
    }
  }

  /** The contribution at `k` writes column `q` of family `f`, and no later one does. */
  predicate LastContributor(os: seq<Option<Contribution>>, k: int, f: JString, q: Bytes)
  {
    && 0 <= k < |os|
    && os[k].Some? && os[k].value.family == f && q in os[k].value.columns
    && forall j :: k < j < |os| && os[j].Some? && os[j].value.family == f ==> q !in os[j].value.columns
  }

  /** Every column of `m` holds what the last contribution writing it wrote. */
  ghost predicate LastWins(os: seq<Option<Contribution>>, m: ColumnMap)
  {
    forall f, q :: f in m && q in m[f] ==>
      exists k :: LastContributor(os, k, f, q) && m[f][q] == os[k].value.columns[q]
  }

  /** The map holds a family exactly for the fields that contribute, even with no columns. */
  lemma {:induction false} FoldFamilies(os: seq<Option<Contribution>>)
    ensures forall f :: f in Fold(os).columns <==> exists k :: 0 <= k < |os| && os[k].Some? && os[k].value.family == f
  {
    if |os| > 0 {
      var n := |os| - 1;
      var init := os[..n];
      FoldFamilies(init);
      assert forall k :: 0 <= k < n ==> init[k] == os[k];
    }
  }

  /** The count is zero exactly when no field wrote a column. */
  lemma {:induction false} FoldCount(os: seq<Option<Contribution>>)
    ensures Fold(os).count == 0 <==> forall k :: 0 <= k < |os| && os[k].Some? ==> os[k].value.columns == map[]
  {
    if |os| > 0 {
      var n := |os| - 1;
      var init := os[..n];
      FoldCount(init);
      assert forall k :: 0 <= k < n ==> init[k] == os[k];
    }
  }

  /** Each column holds the value of the last field that wrote it. */
  lemma {:induction false} FoldLastWins(os: seq<Option<Contribution>>)
    ensures LastWins(os, Fold(os).columns)
  {
    if |os| > 0 {
      var n := |os| - 1;
      FoldLastWins(os[..n]);
      ApplyLastWins(os[..n], Fold(os[..n]), os[n]);
      assert os[..n] + [os[n]] == os;
    }
  }

  /** Applying one more contribution keeps every column with its last writer. */
  lemma ApplyLastWins(os: seq<Option<Contribution>>, w: Written, c: Option<Contribution>)
    requires LastWins(os, w.columns)
    ensures LastWins(os + [c], Apply(w, c).columns)
  {
    var m' := Apply(w, c).columns;
    forall f, q | f in m' && q in m'[f]
      ensures exists k :: LastContributor(os + [c], k, f, q) && m'[f][q] == (os + [c])[k].value.columns[q]
    {
      ApplyLastWinsAt(os, w, c, f, q);
    }
  }

  /** The same, for one column of the map. */
  lemma ApplyLastWinsAt(os: seq<Option<Contribution>>, w: Written, c: Option<Contribution>, f: JString, q: Bytes)
    requires LastWins(os, w.columns)
    requires f in Apply(w, c).columns && q in Apply(w, c).columns[f]
    ensures exists k :: LastContributor(os + [c], k, f, q) && Apply(w, c).columns[f][q] == (os + [c])[k].value.columns[q]
  {
    var os' := os + [c];
    var m := w.columns;
    var m' := Apply(w, c).columns;
    if c.Some? && c.value.family == f && q in c.value.columns {
      assert os'[|os|] == c;
      assert LastContributor(os', |os|, f, q);
    } else {
      assert f in m && q in m[f] && m'[f][q] == m[f][q];
      var k :| LastContributor(os, k, f, q) && m[f][q] == os[k].value.columns[q];
      assert forall j :: 0 <= j < |os| ==> os'[j] == os[j];
      assert os'[|os|] == c;
      assert LastContributor(os', k, f, q);
    }
  }

  /** The last field to write a column leaves it in the map. */
  lemma {:induction false} FoldKeepsLast(os: seq<Option<Contribution>>, k: nat, f: JString, q: Bytes)
    requires LastContributor(os, k, f, q)
    ensures f in Fold(os).columns && q in Fold(os).columns[f]
    decreases |os|
  {
    var n := |os| - 1;
    var init := os[..n];
    if k < n {
      assert LastContributor(init, k, f, q);
      FoldKeepsLast(init, k, f, q);
    }
  }

  /** The index of the last contribution writing column `q` of family `f`, at or after `k`. */
  function LastIndex(os: seq<Option<Contribution>>, k: nat, f: JString, q: Bytes): (r: nat)
    requires k < |os| && os[k].Some? && os[k].value.family == f && q in os[k].value.columns
    ensures k <= r && LastContributor(os, r, f, q)
    decreases |os| - k
  {
    if exists j :: k < j < |os| && os[j].Some? && os[j].value.family == f && q in os[j].value.columns
    then
      var j :| k < j < |os| && os[j].Some? && os[j].value.family == f && q in os[j].value.columns;
      LastIndex(os, j, f, q)
    else k
  }

  /**
   * The fields gather to a count of zero exactly when none fails and none
   * writes a column; a non-zero count means some column is in the map.
   */
  lemma GatherNothingWritten(cs: seq<Result<Option<Contribution>>>)
    ensures Gather(cs).Ok? && Gather(cs).value.count == 0 <==>
      && (forall k :: 0 <= k < |cs| ==> cs[k].Ok?)
      && (forall k :: 0 <= k < |cs| && cs[k].value.Some? ==> cs[k].value.value.columns == map[])
    ensures Gather(cs).Ok? && Gather(cs).value.count != 0 ==>
      exists f, q :: f in Gather(cs).value.columns && q in Gather(cs).value.columns[f]
  {
    GatherFold(cs);
    if Gather(cs).Ok? {
      var os := Successes(cs);
      FoldCount(os);
      if Fold(os).count != 0 {
        var k :| 0 <= k < |os| && os[k].Some? && os[k].value.columns != map[];
        var q :| q in os[k].value.columns;
        var last := LastIndex(os, k, os[k].value.family, q);
        FoldKeepsLast(os, last, os[k].value.family, q);
      }
    }
  }

  /**
   * A record is rejected as having no column to write exactly when its
   * fields all convert and none of them writes a column; a record that is
   * accepted writes at least one column.
   */
  lemma AllFieldsNullIffNothingWritten(codec: Codec, cls: RecordClass, state: RecordState)
    requires HBColumnFields(cls).Ok?
    ensures HBColumnFields(cls).value.Valid()
    ensures var cs := Contributions(codec, HBColumnFields(cls).value.Values(), state);
      RecordToMap(codec, cls, state) == Err(AllHBColumnFieldsNull) <==>
        && (forall k :: 0 <= k < |cs| ==> cs[k].Ok?)
        && (forall k :: 0 <= k < |cs| && cs[k].value.Some? ==> cs[k].value.value.columns == map[])
    ensures RecordToMap(codec, cls, state).Ok? ==>
      exists f, q :: f in RecordToMap(codec, cls, state).value && q in RecordToMap(codec, cls, state).value[f]
  {
    CollectValid(Wrap, Walk(cls.hierarchy, VisitedLevels(cls.hierarchy)));
    var cs := Contributions(codec, HBColumnFields(cls).value.Values(), state);
    GatherNothingWritten(cs);
    GatherErrorIsField(cs);
    if Gather(cs).Err? {
      var k :| 0 <= k < |cs| && cs[k] == Err(Gather(cs).error);
      FieldContributionErrors(codec, HBColumnFields(cls).value.Values()[k], state);
    }
  }

  /**
   * The errors converting one field can raise: a codec failure, a value of
   * the wrong shape, a null element or part, a missing part, or an empty
   * multi-version map.
   */
  lemma FieldContributionErrors(codec: Codec, e: MappedField, state: RecordState)
    ensures FieldContribution(codec, e, state).Err? ==>
      FieldContribution(codec, e, state).error in
        {CodecError, ClassCast, NullPointer, IllegalArgument, FieldAnnotatedWithHBColumnMultiVersionCantBeEmpty}
  {
    if e.column.Mapped? && e.column.kind.Dynamic? {
      var v := FieldValue(state, e.Ref());
      if v.Items? {
        DynamicColumnsErrors(codec, e.column.kind.spec, e.column.codecFlags, v.items);
      }
    }
  }

  /** A failed gathering fails with the error of one of the fields, never with `AllHBColumnFieldsNull`. */
  lemma {:induction false} GatherErrorIsField(cs: seq<Result<Option<Contribution>>>)
    ensures Gather(cs).Err? ==> exists k :: 0 <= k < |cs| && cs[k] == Err(Gather(cs).error)
  {
    if |cs| > 0 {
      var init := cs[..|cs| - 1];
      GatherErrorIsField(init);
      if Gather(init).Err? {
        var k :| 0 <= k < |init| && init[k] == Err(Gather(init).error);
        assert cs[k] == init[k];
      }
    }
  }

  /** A failure among the contributions is the failure of every longer run of them. */
  lemma {:induction false} GatherErrAppend(cs: seq<Result<Option<Contribution>>>, i: nat)
    requires i <= |cs| && Gather(cs[..i]).Err?
    ensures Gather(cs) == Gather(cs[..i])
    decreases |cs| - i
  {
    if i < |cs| {
      assert cs[..i + 1][..i] == cs[..i];
      GatherErrAppend(cs, i + 1);
    } else {
      assert cs[..i] == cs;
    }
  }

  /**
   * A single-version field creates its family and writes its column, at
   * `LATEST_TIMESTAMP` only, exactly when its value serializes to
   * non-empty bytes; a codec failure fails it.
   */
  lemma SingleVersionWrite(codec: Codec, e: MappedField, state: RecordState)
    requires e.column.Mapped? && e.column.kind.SingleVersion?
    ensures var v := FieldValue(state, e.Ref());
      var flags := e.column.codecFlags;
      var r := FieldContribution(codec, e, state);
      && (r.Err? <==> !v.Null? && codec.serialize(v, flags).None?)
      && (r.Ok? ==> r.value.Some? && r.value.value.family == e.column.family)
      && (r.Ok? ==> (r.value.value.columns != map[] <==> !v.Null? && |codec.serialize(v, flags).value| > 0))
      && (r.Ok? && r.value.value.columns != map[] ==>
            r.value.value.columns == map[e.column.column := map[LATEST_TIMESTAMP := codec.serialize(v, flags).value]])
  {
    var v := FieldValue(state, e.Ref());
    var r := FieldContribution(codec, e, state);
    if r.Ok? && !v.Null? && |codec.serialize(v, e.column.codecFlags).value| > 0 {
      assert e.column.column in r.value.value.columns;
    }
  }

  /**
   * A multi-version field writes nothing when null, fails when it is not a
   * map or is an empty one, and otherwise writes exactly its own column
   * holding its non-null versions; a map whose versions are all null still
   * writes (and counts) the column, with no versions.
   */
  lemma MultiVersionWrite(codec: Codec, e: MappedField, state: RecordState)
    requires e.column.Mapped? && e.column.kind.MultiVersion?
    ensures var v := FieldValue(state, e.Ref());
      var r := FieldContribution(codec, e, state);
      && (v.Null? ==> r == Ok(None))
      && (!v.Null? && !v.VersionMap? ==> r == Err(ClassCast))
      && (v.VersionMap? && v.versions == map[] ==> r == Err(FieldAnnotatedWithHBColumnMultiVersionCantBeEmpty))
      && (r.Ok? && r.value.Some? ==>
            && r.value.value.family == e.column.family
            && r.value.value.columns.Keys == {e.column.column}
            && (forall t :: t in r.value.value.columns[e.column.column] <==> t in v.versions && !v.versions[t].Null?)
            && forall t :: t in r.value.value.columns[e.column.column] ==>
                 Some(r.value.value.columns[e.column.column][t]) == codec.serialize(v.versions[t], e.column.codecFlags))
      && (v.VersionMap? && v.versions != map[] && (forall t :: t in v.versions ==> v.versions[t].Null?) ==>
            r == Ok(Some(Contribution(e.column.family, map[e.column.column := map[]]))))
  {
    var v := FieldValue(state, e.Ref());
    if v.VersionMap? && v.versions != map[] && (forall t :: t in v.versions ==> v.versions[t].Null?) {
      var vb := VersionBytes(codec, v.versions, e.column.codecFlags);
      assert vb.Ok? && vb.value.Keys == {};
    }
  }

  /**
   * A dynamic field always creates its family; a null one writes no
   * column, one that is not a collection fails, a collection writes its
   * elements' columns.
   */
  lemma DynamicWrite(codec: Codec, e: MappedField, state: RecordState)
    requires e.column.Mapped? && e.column.kind.Dynamic?
    ensures var v := FieldValue(state, e.Ref());
      var r := FieldContribution(codec, e, state);
      && (v.Null? ==> r == Ok(Some(Contribution(e.column.family, map[]))))
      && (!v.Null? && !v.Items? ==> r == Err(ClassCast))
      && (v.Items? ==>
            var cols := DynamicColumns(codec, e.column.kind.spec, e.column.codecFlags, v.items);
            (r.Err? <==> cols.Err?) && (r.Ok? ==> r == Ok(Some(Contribution(e.column.family, cols.value)))))
  {
  }

  /** An unmapped field contributes nothing. */
  lemma UnmappedWritesNothing(codec: Codec, e: MappedField, state: RecordState)
    requires e.column.Unmapped?
    ensures FieldContribution(codec, e, state) == Ok(None)
  {
  }

  /** `convertRecordToMap`: the discovered fields written, then the check that some column was. */
  method ConvertRecordToMap(codec: Codec, cls: RecordClass, state: RecordState) returns (r: Result<ColumnMap>)
    ensures r == RecordToMap(codec, cls, state)
  {
    var found := GetHBColumnFields0(cls);
    if found.Err? {
      return Err(found.error);
    }
    CollectValid(Wrap, Walk(cls.hierarchy, VisitedLevels(cls.hierarchy)));
    var written := WriteFields(codec, found.value.Values(), state);
    if written.Err? {
      return Err(written.error);
    }
    if written.value.count == 0 {
      return Err(AllHBColumnFieldsNull);
    }
    r := Ok(written.value.columns);
  }

  /**
   * The loop of `convertRecordToMap`: each field's columns merged into its
   * family (created if absent), counting the columns written.
   */
  method WriteFields(codec: Codec, fields: seq<MappedField>, state: RecordState) returns (r: Result<Written>)
    ensures r == Gather(Contributions(codec, fields, state))
  {
    ghost var cs := Contributions(codec, fields, state);
    var m: ColumnMap := map[];
    var numOfFieldsToWrite: nat := 0;
    var i := 0;
    assert cs[..0] == [];
    while i < |fields|
      invariant 0 <= i <= |fields|
      invariant Gather(cs[..i]) == Ok(Written(m, numOfFieldsToWrite))
    {
      var c := ConvertField(codec, fields[i], state);
      if c.Err? {
        assert cs[..i + 1][..i] == cs[..i];
        GatherErrAppend(cs, i + 1);
        return Err(c.error);
      }
      ghost var next := Apply(Written(m, numOfFieldsToWrite), c.value);
      GatherStep(cs, i);
      if c.value.Some? {
        var ct := c.value.value;
        m := Merge(m, ct.family, ct.columns);
        numOfFieldsToWrite := numOfFieldsToWrite + |ct.columns|;
      }
      assert Written(m, numOfFieldsToWrite) == next;
      i := i + 1;
    }
    assert cs[..i] == cs;
    r := Ok(Written(m, numOfFieldsToWrite));
  }

  /** One more successful field applies its contribution. */
  lemma GatherStep(cs: seq<Result<Option<Contribution>>>, i: nat)
    requires i < |cs| && Gather(cs[..i]).Ok? && cs[i].Ok?
    ensures Gather(cs[..i + 1]) == Ok(Apply(Gather(cs[..i]).value, cs[i].value))
  {
    assert cs[..i + 1][..i] == cs[..i];
  }

  /** The body of the loop for one field: what it writes, by kind of column. */
  method ConvertField(codec: Codec, e: MappedField, state: RecordState) returns (r: Result<Option<Contribution>>)
    ensures r == FieldContribution(codec, e, state)
  {
    var v := FieldValue(state, e.Ref());
    match e.column
    case Unmapped =>
      r := Ok(None);
    case Mapped(family, column, kind, flags) =>
      match kind {
        case SingleVersion =>
          var fieldValueBytes := ValueToByteArray(codec, v, flags);
          if fieldValueBytes.Err? {
            return Err(fieldValueBytes.error);
          }
          if fieldValueBytes.value.Some? && |fieldValueBytes.value.value| != 0 {
            r := Ok(Some(Contribution(family, map[column := map[LATEST_TIMESTAMP := fieldValueBytes.value.value]])));
          } else {
            r := Ok(Some(Contribution(family, map[])));
          }
        case Dynamic(spec) =>
          if v.Null? {
            return Ok(Some(Contribution(family, map[])));
          }
          if !v.Items? {
            return Err(ClassCast);
          }
          var dynamicColumns := GetDynamicColumns0(codec, spec, flags, v.items);
          if dynamicColumns.Err? {
            return Err(dynamicColumns.error);
          }
          r := Ok(Some(Contribution(family, dynamicColumns.value)));
        case MultiVersion =>
          var fieldValueVersions := GetFieldValuesAsNavigableMapOfBytes(codec, v, flags);
          if fieldValueVersions.Err? {
            return Err(fieldValueVersions.error);
          }
          if fieldValueVersions.value.None? {
            return Ok(None);
          }
          r := Ok(Some(Contribution(family, map[column := fieldValueVersions.value.value])));
      }
  }
}

