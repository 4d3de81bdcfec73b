/**
 * HBase `Put` objects: writing a record as a `Put` (`writeValueAsPut0`)
 * and reading a record back from one (`readValueFromRowAndPut`,
 * `readValueFromPut`), with the public entry points that validate the
 * record class first.
 */
module PutConversion {
  import opened Base
  import opened Bytes
  import opened Codec
  import opened Schema
  import opened Serialize
  import opened RowKey
  import opened RecordMap
  import opened Deserialize

  /** A cell of one family's list in a `Put`; its row and family are the `Put`'s and the list's. */
  datatype Cell = Cell(qualifier: Bytes, timestamp: int, value: Bytes)

  /** An HBase `Put`: its row and `getFamilyCellMap()`, each family's cells in the order they were added. */
  datatype Put = Put(row: Bytes, familyCellMap: map<Bytes, seq<Cell>>)

  // ---------------------------------------------------------------------
  // Writing

  /** The cells of one column: a cell per version, in ascending timestamp order. */
  function VersionCells(qualifier: Bytes, versions: Versions): (cs: seq<Cell>)
    ensures |cs| == |versions|
  {
    var ts := SortedTimestamps(versions.Keys);
    seq(|ts|, i requires 0 <= i < |ts| => Cell(qualifier, ts[i], versions[ts[i]]))
  }

  /** The cells of the columns `qs`, column after column. */
  function ColumnCells(familyMap: FamilyMap, qs: seq<Bytes>): seq<Cell>
    requires forall i :: 0 <= i < |qs| ==> qs[i] in familyMap
  {
    if |qs| == 0 then []
    else ColumnCells(familyMap, qs[..|qs| - 1]) + VersionCells(qs[|qs| - 1], familyMap[qs[|qs| - 1]])
  }

  /** The cells one family adds: its columns in ascending qualifier order. */
  function FamilyCells(familyMap: FamilyMap): seq<Cell>
  {
    ColumnCells(familyMap, SortedKeys(familyMap.Keys))
  }

  /** The family lists of the `Put` a column map is written as: only families that add a cell get a list. */
  function FamilyCellMap(m: ColumnMap): map<Bytes, seq<Cell>>
  {
    map f | f in m && FamilyCells(m[f]) != [] :: FamilyCells(m[f])
  }

  /** `writeValueAsPut0`: the row key first, then the record's columns as cells. */
  function WriteAsPut(codec: Codec, cls: RecordClass, code: RowKeyCode, state: RecordState): (r: Result<Put>)
    ensures ComposeRowKey(codec, cls.table, code, state).Err? ==> r == Err(ComposeRowKey(codec, cls.table, code, state).error)
    ensures ComposeRowKey(codec, cls.table, code, state).Ok? && RecordToMap(codec, cls, state).Err? ==>
      r == Err(RecordToMap(codec, cls, state).error)
    ensures r.Ok? ==>
      && ComposeRowKey(codec, cls.table, code, state) == Ok(r.value.row)
      && RecordToMap(codec, cls, state).Ok?
      && r.value.familyCellMap == FamilyCellMap(RecordToMap(codec, cls, state).value)
  {
    var row :- ComposeRowKey(codec, cls.table, code, state);
    var m :- RecordToMap(codec, cls, state);
    Ok(Put(row, FamilyCellMap(m)))
  }

  /** `writeValueAsPut`: the record class is validated first. */
  function WriteValueAsPut(codec: Codec, cls: RecordClass, code: RowKeyCode, state: RecordState): (r: Result<Put>)
    ensures ValidationOf(codec, cls).Err? ==> r == Err(ValidationOf(codec, cls).error)
    ensures ValidationOf(codec, cls).Ok? ==> r == WriteAsPut(codec, cls, code, state)
  {
    var table :- ValidationOf(codec, cls);
    WriteAsPut(codec, cls, code, state)
  }

  /** `writeValueAsPut0`, its loops over families, columns and versions in their maps' order. */
  method WriteValueAsPut0(codec: Codec, cls: RecordClass, code: RowKeyCode, state: RecordState) returns (r: Result<Put>)
    ensures r == WriteAsPut(codec, cls, code, state)
  {
    var row := ComposeRowKey(codec, cls.table, code, state);
    if row.Err? {
      return Err(row.error);
    }
    var m := ConvertRecordToMap(codec, cls, state);
    if m.Err? {
      return Err(m.error);
    }
    var familyCellMap := AddFamilies(m.value, SortedKeys(m.value.Keys));
    r := Ok(Put(row.value, familyCellMap));
  }

  /** The loop over the families `fs` of a column map: each family with a cell gets its list. */
  method AddFamilies(m: ColumnMap, fs: seq<Bytes>) returns (familyCellMap: map<Bytes, seq<Cell>>)
    requires forall f :: f in m <==> f in fs
    ensures familyCellMap == FamilyCellMap(m)
  {
    familyCellMap := map[];
    var i := 0;
    while i < |fs|
      invariant 0 <= i <= |fs|
      invariant forall f :: f in familyCellMap ==> f in fs[..i] && familyCellMap[f] == FamilyCells(m[f]) != []
      invariant forall k :: 0 <= k < i && FamilyCells(m[fs[k]]) != [] ==> fs[k] in familyCellMap
    {
      var cells := AddFamily(m[fs[i]]);
      ghost var before := familyCellMap;
      if cells != [] {
        familyCellMap := familyCellMap[fs[i] := cells];
      }
      forall k | 0 <= k <= i && FamilyCells(m[fs[k]]) != []
        ensures fs[k] in familyCellMap
      {
        if k < i {
          assert fs[k] in before;
        }
      }
      i := i + 1;
    }
    forall f | f in m && FamilyCells(m[f]) != []
      ensures f in familyCellMap
    {
      var k :| 0 <= k < |fs| && fs[k] == f;
    }
    assert fs[..i] == fs;
  }

  /** The cells `put.addColumn` adds for one family, column after column in ascending qualifier order. */
  method AddFamily(familyMap: FamilyMap) returns (cells: seq<Cell>)
    ensures cells == FamilyCells(familyMap)
  {
    cells := AddColumns(familyMap, SortedKeys(familyMap.Keys));
  }

  /** The loop over a family's columns: each column's cells appended in turn. */
  method AddColumns(familyMap: FamilyMap, qs: seq<Bytes>) returns (cells: seq<Cell>)
    requires forall i :: 0 <= i < |qs| ==> qs[i] in familyMap
    ensures cells == ColumnCells(familyMap, qs)
  {
    cells := [];
    var j := 0;
    while j < |qs|
      invariant 0 <= j <= |qs|
      invariant cells == ColumnCells(familyMap, qs[..j])
    {
      assert qs[..j + 1][..j] == qs[..j];
      var added := AddVersions(qs[j], familyMap[qs[j]]);
      cells := cells + added;
      j := j + 1;
    }
    assert qs[..j] == qs;
  }

  /** The cells `put.addColumn` adds for one column, version after version. */
  method AddVersions(qualifier: Bytes, versions: Versions) returns (cells: seq<Cell>)
    ensures cells == VersionCells(qualifier, versions)
  {
    var ts := SortedTimestamps(versions.Keys);
    cells := [];
    var k := 0;
    while k < |ts|
      invariant 0 <= k <= |ts|
      invariant |cells| == k
      invariant forall n :: 0 <= n < k ==> cells[n] == Cell(qualifier, ts[n], versions[ts[n]])
    {
      cells := cells + [Cell(qualifier, ts[k], versions[ts[k]])];
      k := k + 1;
    }
  }

  /** A column's cells are exactly its versions. */
  lemma VersionCellsSpec(qualifier: Bytes, versions: Versions, c: Cell)
    ensures c in VersionCells(qualifier, versions)
      <==> c.qualifier == qualifier && c.timestamp in versions && c.value == versions[c.timestamp]
  {
    var ts := SortedTimestamps(versions.Keys);
    if c.qualifier == qualifier && c.timestamp in versions && c.value == versions[c.timestamp] {
      var i :| 0 <= i < |ts| && ts[i] == c.timestamp;
      assert VersionCells(qualifier, versions)[i] == c;
    }
  }

  /** The cells of the columns `qs` are exactly the versions of those columns. */
  lemma {:induction false} ColumnCellsSpec(familyMap: FamilyMap, qs: seq<Bytes>, c: Cell)
    requires forall i :: 0 <= i < |qs| ==> qs[i] in familyMap
    ensures c in ColumnCells(familyMap, qs)
      <==> c.qualifier in qs && c.timestamp in familyMap[c.qualifier] && c.value == familyMap[c.qualifier][c.timestamp]
  {
    if |qs| > 0 {
      var n := |qs| - 1;
      ColumnCellsSpec(familyMap, qs[..n], c);
      VersionCellsSpec(qs[n], familyMap[qs[n]], c);
      assert c.qualifier in qs <==> c.qualifier in qs[..n] || c.qualifier == qs[n] by {
        assert qs == qs[..n] + [qs[n]];
      }
    }
  }

  /** A family's cells are exactly the versions of its columns. */
  lemma FamilyCellsSpec(familyMap: FamilyMap, c: Cell)
    ensures c in FamilyCells(familyMap)
      <==> c.qualifier in familyMap && c.timestamp in familyMap[c.qualifier] && c.value == familyMap[c.qualifier][c.timestamp]
  {
    ColumnCellsSpec(familyMap, SortedKeys(familyMap.Keys), c);
  }

  /** A family adds no cell exactly when every one of its columns has no version. */
  lemma FamilyCellsEmpty(familyMap: FamilyMap)
    ensures FamilyCells(familyMap) == [] <==> forall q :: q in familyMap ==> familyMap[q] == map[]
  {
    var cells := FamilyCells(familyMap);
    if cells != [] {
      FamilyCellsSpec(familyMap, cells[0]);
    }
    if q :| q in familyMap && familyMap[q] != map[] {
      var ts := Least(familyMap[q].Keys);
      FamilyCellsSpec(familyMap, Cell(q, ts, familyMap[q][ts]));
    }
  }

  // ---------------------------------------------------------------------
  // Reading

  /**
   * One family's list put into a map qualifier -> timestamp -> value, cell
   * after cell; a later cell at the same coordinates replaces an earlier one.
   */
  function RebuildFamily(cells: seq<Cell>): FamilyMap
  {
    if |cells| == 0 then map[]
    else
      var familyMap := RebuildFamily(cells[..|cells| - 1]);
      var c := cells[|cells| - 1];
      var versions := if c.qualifier in familyMap then familyMap[c.qualifier] else map[];
      familyMap[c.qualifier := versions[c.timestamp := c.value]]
  }

  /** The map `readValueFromRowAndPut` builds from a `Put`: every family of the `Put`, even one with no cells. */
  function CellMap(p: Put): ColumnMap
  {
    map f | f in p.familyCellMap :: RebuildFamily(p.familyCellMap[f])
  }

  /** `readValueFromRowAndPut`. */
  function ReadFromRowAndPut(codec: Codec, cls: RecordClass, code: RowKeyCode, rowKeyBytes: Bytes, p: Put): Result<RecordState>
  {
    MapToRecord(codec, cls, code, rowKeyBytes, CellMap(p))
  }

  /** `readValueFromPut`: an empty `Put`, or one with an empty row, reads as no record. */
  function ReadFromPut(codec: Codec, cls: RecordClass, code: RowKeyCode, p: Put): (r: Result<Option<RecordState>>)
    ensures p.familyCellMap == map[] || p.row == [] ==> r == Ok(None)
    ensures p.familyCellMap != map[] && p.row != [] && r.Ok? ==> r.value.Some?
    ensures r.Ok? && r.value.Some? ==> ReadFromRowAndPut(codec, cls, code, p.row, p) == Ok(r.value.value)
    ensures r.Err? ==> ReadFromRowAndPut(codec, cls, code, p.row, p) == Err(r.error)
  {
    if p.familyCellMap == map[] || p.row == [] then Ok(None)
    else
      var st :- ReadFromRowAndPut(codec, cls, code, p.row, p);
      Ok(Some(st))
  }

  /**
   * `readValue(rowKey, put, clazz)`: the record class is validated first;
   * without a row key the `Put`'s own row is used.
   */
  function ReadValue(codec: Codec, cls: RecordClass, code: RowKeyCode, rowKey: Option<Bytes>, p: Put): (r: Result<Option<RecordState>>)
    ensures ValidationOf(codec, cls).Err? ==> r == Err(ValidationOf(codec, cls).error)
    ensures ValidationOf(codec, cls).Ok? && rowKey.None? ==> r == ReadFromPut(codec, cls, code, p)
    ensures ValidationOf(codec, cls).Ok? && rowKey.Some? ==>
      (r.Ok? <==> ReadFromRowAndPut(codec, cls, code, rowKey.value, p).Ok?)
      && (r.Ok? ==> r.value == Some(ReadFromRowAndPut(codec, cls, code, rowKey.value, p).value))
      && (r.Err? ==> ReadFromRowAndPut(codec, cls, code, rowKey.value, p) == Err(r.error))
  {
    var table :- ValidationOf(codec, cls);
    if rowKey.None? then ReadFromPut(codec, cls, code, p)
    else
      var st :- ReadFromRowAndPut(codec, cls, code, rowKey.value, p);
      Ok(Some(st))
  }

  /** `readValueFromRowAndPut`. */
  method ReadValueFromRowAndPut(codec: Codec, cls: RecordClass, code: RowKeyCode, rowKeyBytes: Bytes, p: Put)
    returns (r: Result<Record>)
    ensures r.Ok? ==> fresh(r.value) && ReadFromRowAndPut(codec, cls, code, rowKeyBytes, p) == Ok(r.value.state)
    ensures r.Err? ==> ReadFromRowAndPut(codec, cls, code, rowKeyBytes, p) == Err(r.error)
  {
    var m := FamilyCellMapToMap(p);
    r := ConvertMapToRecord(codec, cls, code, rowKeyBytes, m);
  }

  /** The loops of `readValueFromRowAndPut`: over the families, and over each family's cells. */
  method FamilyCellMapToMap(p: Put) returns (m: ColumnMap)
    ensures m == CellMap(p)
  {
    var families := SortedKeys(p.familyCellMap.Keys);
    m := PutFamilies(p, families);
  }

  /** The loop over the families `fs` of a `Put`: each family's cells put into its map. */
  method PutFamilies(p: Put, fs: seq<Bytes>) returns (m: ColumnMap)
    requires forall f :: f in p.familyCellMap <==> f in fs
    ensures m == CellMap(p)
  {
    m := map[];
    var i := 0;
    while i < |fs|
      invariant 0 <= i <= |fs|
      invariant forall f :: f in m <==> f in fs[..i]
      invariant forall f :: f in m ==> m[f] == RebuildFamily(p.familyCellMap[f])
    {
      var familyMap := PutCellsOf(p.familyCellMap[fs[i]]);
      m := m[fs[i] := familyMap];
      i := i + 1;
    }
    assert fs[..i] == fs;
  }

  /** The inner loop of `readValueFromRowAndPut`: one family's cells put into its map. */
  method PutCellsOf(cells: seq<Cell>) returns (familyMap: FamilyMap)
    ensures familyMap == RebuildFamily(cells)
  {
    familyMap := map[];
    var k := 0;
    while k < |cells|
      invariant 0 <= k <= |cells|
      invariant familyMap == RebuildFamily(cells[..k])
    {
      assert cells[..k + 1][..k] == cells[..k];
      var c := cells[k];
      if c.qualifier !in familyMap {
        familyMap := familyMap[c.qualifier := map[]];
      }
      familyMap := familyMap[c.qualifier := familyMap[c.qualifier][c.timestamp := c.value]];
      k := k + 1;
    }
    assert cells[..k] == cells;
  }

  /** The value of the last cell of the list at qualifier `q` and timestamp `t`, if there is one. */
  function Lookup(cells: seq<Cell>, q: Bytes, t: int): Option<Bytes>
  {
    if |cells| == 0 then None
    else if cells[|cells| - 1].qualifier == q && cells[|cells| - 1].timestamp == t then Some(cells[|cells| - 1].value)
    else Lookup(cells[..|cells| - 1], q, t)
  }

  /**
   * The rebuilt family holds a version at `q` and `t` exactly when some
   * cell is there, and then the value of the last such cell; it holds no
   * column without a version.
   */
  lemma {:induction false} RebuildFamilyLookup(cells: seq<Cell>, q: Bytes, t: int)
    ensures var fm := RebuildFamily(cells);
      && (q in fm ==> fm[q] != map[])
      && (q in fm && t in fm[q] <==> Lookup(cells, q, t).Some?)
      && (q in fm && t in fm[q] ==> fm[q][t] == Lookup(cells, q, t).value)
  {
    if |cells| > 0 {
      var c := cells[|cells| - 1];
      RebuildFamilyLookup(cells[..|cells| - 1], q, t);
      assert c.timestamp in RebuildFamily(cells)[c.qualifier];
    }
  }

  /** When every cell at `q` and `t` holds `v`, the last one there, if any, holds `v`. */
  lemma {:induction false} LookupAgreeing(cells: seq<Cell>, q: Bytes, t: int, v: Bytes)
    requires forall c :: c in cells && c.qualifier == q && c.timestamp == t ==> c.value == v
    ensures Lookup(cells, q, t).Some? <==> Cell(q, t, v) in cells
    ensures Lookup(cells, q, t).Some? ==> Lookup(cells, q, t).value == v
  {
    if |cells| > 0 {
      var n := |cells| - 1;
      assert cells == cells[..n] + [cells[n]];
      LookupAgreeing(cells[..n], q, t, v);
    }
  }

  // ---------------------------------------------------------------------
  // Round trip

  /** The columns of a family that hold at least one version. */
  function PruneFamily(familyMap: FamilyMap): FamilyMap
  {
    map q | q in familyMap && familyMap[q] != map[] :: familyMap[q]
  }

  /** A column map without its version-less columns, and without the families left with no column. */
  function Prune(m: ColumnMap): ColumnMap
  {
    map f | f in m && PruneFamily(m[f]) != map[] :: PruneFamily(m[f])
  }

  /** Pruning leaves nothing of a family exactly when none of its columns has a version. */
  lemma PruneFamilyEmpty(familyMap: FamilyMap)
    ensures PruneFamily(familyMap) == map[] <==> forall q :: q in familyMap ==> familyMap[q] == map[]
  {
    if q :| q in familyMap && familyMap[q] != map[] {
      assert q in PruneFamily(familyMap);
    }
    if PruneFamily(familyMap) != map[] {
      var q :| q in PruneFamily(familyMap);
    }
  }

  /** Where a family's cells are, the last cell at a qualifier and timestamp holds the family's version there. */
  lemma FamilyLookup(familyMap: FamilyMap, q: Bytes, t: int)
    ensures var found := Lookup(FamilyCells(familyMap), q, t);
      && (found.Some? <==> q in familyMap && t in familyMap[q])
      && (found.Some? ==> found.value == familyMap[q][t])
  {
    var cells := FamilyCells(familyMap);
    var v := if q in familyMap && t in familyMap[q] then familyMap[q][t] else [];
    forall c | c in cells && c.qualifier == q && c.timestamp == t
      ensures c.value == v
    {
      FamilyCellsSpec(familyMap, c);
    }
    LookupAgreeing(cells, q, t, v);
    FamilyCellsSpec(familyMap, Cell(q, t, v));
  }

  /** A column with a version has a timestamp. */
  lemma HasVersion(versions: Versions)
    ensures versions == map[] || versions.Keys != {}
  {
    if versions.Keys == {} {
      assert versions == map[];
    }
  }

  /** Cells whose last value at every qualifier and timestamp is the family's version there. */
  ghost predicate LooksUpAs(cells: seq<Cell>, familyMap: FamilyMap)
  {
    forall q, t :: Lookup(cells, q, t).Some? <==> q in familyMap && t in familyMap[q]
  }

  /** Such cells rebuild one column with a version exactly as the family holds it. */
  lemma RebuildColumn(cells: seq<Cell>, familyMap: FamilyMap, q: Bytes)
    requires LooksUpAs(cells, familyMap)
    requires forall t :: Lookup(cells, q, t).Some? ==> Lookup(cells, q, t).value == familyMap[q][t]
    requires q in RebuildFamily(cells)
    ensures q in familyMap && RebuildFamily(cells)[q] == familyMap[q]
  {
    var versions := RebuildFamily(cells)[q];
    RebuildFamilyLookup(cells, q, 0);
    HasVersion(versions);
    RebuildFamilyLookup(cells, q, Least(versions.Keys));
    forall t
      ensures t in versions <==> t in familyMap[q]
      ensures t in versions ==> versions[t] == familyMap[q][t]
    {
      RebuildFamilyLookup(cells, q, t);
    }
  }

  /** Such cells rebuild the family less its version-less columns. */
  lemma RebuildExact(cells: seq<Cell>, familyMap: FamilyMap)
    requires LooksUpAs(cells, familyMap)
    requires forall q, t :: Lookup(cells, q, t).Some? ==> Lookup(cells, q, t).value == familyMap[q][t]
    ensures RebuildFamily(cells) == PruneFamily(familyMap)
  {
    var fm := RebuildFamily(cells);
    var pruned := PruneFamily(familyMap);
    forall q
      ensures q in fm <==> q in pruned
    {
      if q in fm {
        RebuildFamilyLookup(cells, q, 0);
        RebuildColumn(cells, familyMap, q);
      }
      if q in pruned {
        HasVersion(familyMap[q]);
        RebuildFamilyLookup(cells, q, Least(familyMap[q].Keys));
      }
    }
    forall q | q in fm
      ensures fm[q] == pruned[q]
    {
      RebuildColumn(cells, familyMap, q);
    }
  }

  /** Reading a family's cells back gives the family, less its columns that have no version. */
  lemma FamilyRoundTrip(familyMap: FamilyMap)
    ensures RebuildFamily(FamilyCells(familyMap)) == PruneFamily(familyMap)
  {
    var cells := FamilyCells(familyMap);
    forall q, t
      ensures Lookup(cells, q, t).Some? <==> q in familyMap && t in familyMap[q]
      ensures Lookup(cells, q, t).Some? ==> Lookup(cells, q, t).value == familyMap[q][t]
    {
      FamilyLookup(familyMap, q, t);
    }
    RebuildExact(cells, familyMap);
  }

  /**
   * What a column map is written into a `Put` as, reading the `Put` gives
   * back, less the version-less columns and the families left empty: a
   * `Put` cannot hold a column without a cell.
   */
  lemma PutRoundTrip(row: Bytes, m: ColumnMap)
    ensures CellMap(Put(row, FamilyCellMap(m))) == Prune(m)
  {
    var written := CellMap(Put(row, FamilyCellMap(m)));
    forall f
      ensures f in written <==> f in Prune(m)
    {
      if f in m {
        FamilyCellsEmpty(m[f]);
        PruneFamilyEmpty(m[f]);
      }
    }
    forall f | f in written
      ensures written[f] == Prune(m)[f]
    {
      FamilyRoundTrip(m[f]);
    }
  }

  /**
   * Writing a record as a `Put` and reading the `Put` back reads the
   * record's column map less its version-less columns.
   */
  lemma WriteThenRead(codec: Codec, cls: RecordClass, code: RowKeyCode, state: RecordState)
    requires WriteAsPut(codec, cls, code, state).Ok?
    ensures var p := WriteAsPut(codec, cls, code, state).value;
      && RecordToMap(codec, cls, state).Ok?
      && ComposeRowKey(codec, cls.table, code, state) == Ok(p.row)
      && ReadFromRowAndPut(codec, cls, code, p.row, p)
         == MapToRecord(codec, cls, code, p.row, Prune(RecordToMap(codec, cls, state).value))
    ensures var p := WriteAsPut(codec, cls, code, state).value;
      p.row == [] ==> ReadFromPut(codec, cls, code, p) == Ok(None)
    ensures var p := WriteAsPut(codec, cls, code, state).value;
      p.row != [] && p.familyCellMap != map[] ==>
        ReadFromPut(codec, cls, code, p) ==
          match MapToRecord(codec, cls, code, p.row, Prune(RecordToMap(codec, cls, state).value))
          case Ok(st) => Ok(Some(st))
          case Err(err) => Err(err)
  {
    var p := WriteAsPut(codec, cls, code, state).value;
    PutRoundTrip(p.row, RecordToMap(codec, cls, state).value);
  }
}
