/**
 * Two entity classes of the repository's test suite, written as values of
 * the model, and what the model says about them: a class with two fields on
 * one column is rejected, and the two dynamic fields of `QuirkyEntity`,
 * prefixes "1" and "2" in one family, never read each other's columns.
 */
module Fixtures {
  import opened Base
  import opened Bytes
  import opened Codec
  import opened Column
  import opened Schema
  import opened Serialize
  import opened Deserialize

  // ---------------------------------------------------------------------
  // ClassWithFieldNotMappedToHBColumn: `f1` and `f2` both on f1:c1

  const FAMILY_F1: JString := [0x66, 0x31]   // "f1"
  const COLUMN_C1: JString := [0x63, 0x31]   // "c1"

  const FLOAT_TYPE := ClassType(JClass("java.lang.Float", false, false, false, map[]))
  const DOUBLE_TYPE := ClassType(JClass("java.lang.Double", false, false, false, map[]))
  const STRING_TYPE := ClassType(JClass(STRING_CLASS, false, false, false, map[]))

  const KEY_FIELD := FieldDecl([0x6B, 0x65, 0x79], STRING_TYPE, false, false, None, None, None)   // key
  const F1_FIELD := FieldDecl([0x66, 0x31], FLOAT_TYPE, false, false, Some(ColumnAnnotation(FAMILY_F1, COLUMN_C1, [])), None, None)
  const F2_FIELD := FieldDecl([0x66, 0x32], DOUBLE_TYPE, false, false, Some(ColumnAnnotation(FAMILY_F1, COLUMN_C1, [])), None, None)

  const DUPLICATE_DECL := ClassDecl("ClassWithFieldNotMappedToHBColumn", [KEY_FIELD, F1_FIELD, F2_FIELD], false)

  /** The class with the families its table declares (its table wrapper is not part of this model). */
  function DuplicateColumnClass(families: map<JString, int>): (cls: RecordClass)
    ensures cls.noArgConstructor.Public? && |cls.hierarchy| == 1
  {
    RecordClass([DUPLICATE_DECL], Public, HBTable([0x62, 0x6C, 0x61, 0x68], families, map[]))   // "blah"
  }

  const F1_COLUMN := Mapped(FAMILY_F1, COLUMN_C1, SingleVersion, map[])
  const F1_MAPPED := MappedField(DUPLICATE_DECL.name, F1_FIELD, F1_COLUMN)
  const F2_MAPPED := MappedField(DUPLICATE_DECL.name, F2_FIELD, F1_COLUMN)

  /** How each declared field of the class wraps: `key` unmapped, `f1` and `f2` on f1:c1. */
  lemma DuplicateColumnWraps()
    ensures Wrap(KEY_FIELD) == Ok(Unmapped)
    ensures Wrap(F1_FIELD) == Ok(F1_COLUMN) && Wrap(F2_FIELD) == Ok(F1_COLUMN)
  {
    assert FlagMap([]) == Ok(map[]);
  }

  /** The walk visits the one level of the class and lists its three fields in order. */
  lemma DuplicateColumnWalk(families: map<JString, int>)
    ensures var cls := DuplicateColumnClass(families);
      Walk(cls.hierarchy, VisitedLevels(cls.hierarchy)) ==
        [Declared(DUPLICATE_DECL.name, KEY_FIELD), Declared(DUPLICATE_DECL.name, F1_FIELD), Declared(DUPLICATE_DECL.name, F2_FIELD)]
  {
    var cls := DuplicateColumnClass(families);
    assert VisitedLevels(cls.hierarchy) == 1;
    assert Walk(cls.hierarchy, 1) == LevelFields(DUPLICATE_DECL) by {
      assert Walk(cls.hierarchy, 0) == [];
    }
  }

  /** Discovery skips `key`, which carries no annotation, and keeps `f1` then `f2`. */
  lemma DuplicateColumnDiscovery(families: map<JString, int>)
    ensures HBColumnFields(DuplicateColumnClass(families)).Ok?
    ensures var m := HBColumnFields(DuplicateColumnClass(families)).value;
      m.Valid() && m.Values() == [F1_MAPPED, F2_MAPPED]
  {
    var cls := DuplicateColumnClass(families);
    DuplicateColumnWalk(families);
    DuplicateColumnWraps();
    var dk := Declared(DUPLICATE_DECL.name, KEY_FIELD);
    var d1 := Declared(DUPLICATE_DECL.name, F1_FIELD);
    var d2 := Declared(DUPLICATE_DECL.name, F2_FIELD);
    var walk := [dk, d1, d2];
    assert Collect(Wrap, []) == Ok(EmptyFieldMap);
    CollectSnoc(Wrap, [], dk);
    assert [] + [dk] == [dk];
    assert Collect(Wrap, [dk]) == Ok(EmptyFieldMap);
    CollectSnoc(Wrap, [dk], d1);
    assert [dk] + [d1] == [dk, d1];
    assert F1_COLUMN.IsPresent();
    var m1 := FieldMap([F1_FIELD.name], map[F1_FIELD.name := F1_MAPPED]);
    assert EmptyFieldMap.Put(F1_MAPPED) == m1 by {
      assert [] + [F1_FIELD.name] == [F1_FIELD.name];
    }
    assert Collect(Wrap, [dk, d1]) == Ok(m1);
    CollectSnoc(Wrap, [dk, d1], d2);
    assert [dk, d1] + [d2] == walk;
    assert F2_FIELD.name != F1_FIELD.name by {
      assert F2_FIELD.name[1] != F1_FIELD.name[1];
    }
    assert F2_FIELD.name !in m1.byName;
    var m2 := FieldMap([F1_FIELD.name, F2_FIELD.name], map[F1_FIELD.name := F1_MAPPED, F2_FIELD.name := F2_MAPPED]);
    assert m1.Put(F2_MAPPED) == m2 by {
      assert [F1_FIELD.name] + [F2_FIELD.name] == [F1_FIELD.name, F2_FIELD.name];
    }
    assert Collect(Wrap, walk) == Ok(m2);
    CollectValid(Wrap, walk);
  }

  /**
   * The class is rejected: when its table declares the family `f1`, because
   * `f2` repeats `f1`'s column; otherwise already at `f1`, for its family.
   */
  lemma DuplicateColumnFixture(codec: Codec, families: map<JString, int>)
    requires codec.canDeserialize(FLOAT_TYPE) && codec.canDeserialize(DOUBLE_TYPE)
    ensures FAMILY_F1 in families ==> ValidationOf(codec, DuplicateColumnClass(families)) == Err(FieldsMappedToSameColumn)
    ensures FAMILY_F1 !in families ==> ValidationOf(codec, DuplicateColumnClass(families)) == Err(ColumnFamilyNotInHBTable)
  {
    var cls := DuplicateColumnClass(families);
    DuplicateColumnDiscovery(families);
    var fields := [F1_MAPPED, F2_MAPPED];
    var table := cls.table;
    assert FieldTypeCheck(codec, F1_FIELD, F1_COLUMN) == Pass;
    assert FieldTypeCheck(codec, F2_FIELD, F1_COLUMN) == Pass;
    assert ColumnsOf([F1_MAPPED]) == {FamilyAndColumn(FAMILY_F1, COLUMN_C1)} by {
      assert [F1_MAPPED][0] == F1_MAPPED;
    }
    assert CheckColumns(codec, table, [F1_MAPPED]) == EntryCheck(codec, table, {}, F1_MAPPED) by {
      assert [F1_MAPPED][..0] == [];
      assert CheckColumns(codec, table, []) == Pass;
      assert ColumnsOf([]) == {};
    }
    assert CheckColumns(codec, table, fields) ==
      match CheckColumns(codec, table, [F1_MAPPED])
      case Fail(e) => Fail(e)
      case Pass => EntryCheck(codec, table, ColumnsOf([F1_MAPPED]), F2_MAPPED)
    by {
      assert fields[..1] == [F1_MAPPED];
    }
    if FAMILY_F1 in families {
      assert CheckColumns(codec, table, fields) == Fail(FieldsMappedToSameColumn);
    } else {
      assert CheckColumns(codec, table, fields) == Fail(ColumnFamilyNotInHBTable);
    }
  }

  // ---------------------------------------------------------------------
  // QuirkyEntity: two dynamic fields of family "d", prefixes "1" and "2"

  const FAMILY_D: JString := [0x64]    // "d"
  const PART_KEY: JString := [0x6B, 0x65, 0x79]   // "key"

  /** `KV` and `KV2`: two `String` fields, `key` and `value`. */
  function ElementClass(name: string): JClass
  {
    JClass(name, false, false, false, map[PART_KEY := STRING_CLASS, [0x76, 0x61, 0x6C, 0x75, 0x65] := STRING_CLASS])
  }

  function ListOf(element: string): JType
  {
    Parameterized(JClass("java.util.List", false, true, true, map[]), [ClassType(ElementClass(element))])
  }

  /** `@HBDynamicColumn(family = "d", prefix = p, qualifier = @DynamicQualifier(parts = {"key"}))`. */
  function QuirkyAnnotation(prefix: JString): DynamicColumnAnnotation
  {
    DynamicColumnWithDefaults(FAMILY_D, QualifierWithDefaults([PART_KEY])).(prefix := prefix)
  }

  const KVS_TYPE := ListOf("QuirkyEntity$KV")
  const KV2S_TYPE := ListOf("QuirkyEntity$KV2")

  /** What a dynamic field with prefix `p` keeps: the defaults "#" and ":" and the element type. */
  function QuirkySpec(prefix: JString, t: JType): DynamicSpec
  {
    DynamicSpec([PART_KEY], DEFAULT_QUALIFIER_SEPARATOR, DEFAULT_SEPARATOR, prefix, false, t)
  }

  /** Both fields build: family "d", column "key", prefix "1" or "2", separator "#", no flags. */
  lemma QuirkyColumns()
    ensures WrapDynamic(KVS_TYPE, QuirkyAnnotation([0x31])) == Ok(Mapped(FAMILY_D, PART_KEY, Dynamic(QuirkySpec([0x31], ClassType(ElementClass("QuirkyEntity$KV")))), map[]))
    ensures WrapDynamic(KV2S_TYPE, QuirkyAnnotation([0x32])) == Ok(Mapped(FAMILY_D, PART_KEY, Dynamic(QuirkySpec([0x32], ClassType(ElementClass("QuirkyEntity$KV2")))), map[]))
  {
    assert FlagMap([]) == Ok(map[]);
    assert Join(DEFAULT_SEPARATOR, [PART_KEY]) == PART_KEY;
    assert IsStringField(ElementClass("QuirkyEntity$KV"), PART_KEY);
    assert IsStringField(ElementClass("QuirkyEntity$KV2"), PART_KEY);
  }

  /**
   * Whatever the family holds, the columns `kvs` reads (from "1#") and the
   * columns `kv2s` reads (from "2#") are disjoint.
   */
  lemma QuirkyReadsDoNotCross(familyMap: FamilyMap, t1: JType, t2: JType)
    ensures forall q :: q in DynamicRange(QuirkySpec([0x31], t1), familyMap) ==> q !in DynamicRange(QuirkySpec([0x32], t2), familyMap)
    ensures forall q :: q in DynamicRange(QuirkySpec([0x32], t2), familyMap) ==> q !in DynamicRange(QuirkySpec([0x31], t1), familyMap)
  {
    var a := QuirkySpec([0x31], t1);
    var b := QuirkySpec([0x32], t2);
    assert DynamicPrefix(a) == [0x31, 0x23] && DynamicPrefix(b) == [0x32, 0x23];
    RangesDisjoint(a, b, familyMap);
    RangesDisjoint(b, a, familyMap);
  }
}
