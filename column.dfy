/**
 * The column descriptor built from one field's annotations
 * (`WrappedHBColumn`): which of `@HBColumn`, `@HBColumnMultiVersion` and
 * `@HBDynamicColumn` the field carries, the family and column it maps to,
 * its codec flags and, for a dynamic column, how qualifiers are formed.
 */
module Column {
  import opened Base
  import opened Bytes
  import opened Codec

  /** One `@Flag(name, value)` of an annotation's `codecFlags`. */
  datatype Flag = Flag(name: JString, value: JString)

  /** `@HBColumn` and `@HBColumnMultiVersion` carry the same three elements. */
  datatype ColumnAnnotation = ColumnAnnotation(family: JString, column: JString, codecFlags: seq<Flag>)

  /** `@DynamicQualifier`: the element fields whose values form a qualifier, and what joins them. */
  datatype DynamicQualifier = DynamicQualifier(parts: seq<JString>, separator: JString)

  /** `@HBDynamicColumn` */
  datatype DynamicColumnAnnotation = DynamicColumnAnnotation(
    family: JString,
    qualifier: DynamicQualifier,
    prefix: JString,
    separator: JString,
    preserveOrder: bool,
    codecFlags: seq<Flag>)

  /** The defaults the annotation types declare. */
  const DEFAULT_PREFIX: JString := [0x64, 0x65, 0x66]       // "def"
  const DEFAULT_SEPARATOR: JString := [0x23]                // "#"
  const DEFAULT_QUALIFIER_SEPARATOR: JString := [0x3A]      // ":"

  /** `@DynamicQualifier(parts = …)` with the default separator. */
  function QualifierWithDefaults(parts: seq<JString>): DynamicQualifier
  {
    DynamicQualifier(parts, DEFAULT_QUALIFIER_SEPARATOR)
  }

  /** `@HBDynamicColumn(family = …, qualifier = …)` with every other element at its default. */
  function DynamicColumnWithDefaults(family: JString, qualifier: DynamicQualifier): DynamicColumnAnnotation
  {
    DynamicColumnAnnotation(family, qualifier, DEFAULT_PREFIX, DEFAULT_SEPARATOR, false, [])
  }

  /** A declared field: its name, generic type, modifiers and mapping annotations. */
  datatype FieldDecl = FieldDecl(
    name: JString,
    genericType: JType,
    isTransient: bool,
    isStatic: bool,
    hbColumn: Option<ColumnAnnotation>,
    hbColumnMultiVersion: Option<ColumnAnnotation>,
    hbDynamicColumn: Option<DynamicColumnAnnotation>)

  /** What a dynamic column keeps from its annotation, and its element type. */
  datatype DynamicSpec = DynamicSpec(
    parts: seq<JString>,
    qualifierSeparator: JString,
    separator: JString,
    prefix: JString,
    preserveOrder: bool,
    dynamicType: JType)

  datatype Kind = SingleVersion | MultiVersion | Dynamic(spec: DynamicSpec)

  /**
   * A built descriptor. `Unmapped` is a field with none of the three
   * annotations (family, column and flags all null).
   */
  datatype WrappedColumn =
    | Unmapped
    | Mapped(family: JString, column: JString, kind: Kind, codecFlags: Flags)
  {
    predicate IsSingleVersioned() { Mapped? && !kind.MultiVersion? }
    predicate IsMultiVersioned() { Mapped? && kind.MultiVersion? }
    predicate IsPresent() { IsSingleVersioned() || IsMultiVersioned() }
    predicate IsDynamic() { Mapped? && kind.Dynamic? }
  }

  /** How many of the three mapping annotations a field carries. */
  function AnnotationCount(f: FieldDecl): nat
  {
    (if f.hbColumn.Some? then 1 else 0)
    + (if f.hbColumnMultiVersion.Some? then 1 else 0)
    + (if f.hbDynamicColumn.Some? then 1 else 0)
  }

  /** The source's test for ambiguous annotations. */
  predicate HasSpecifiedMoreThanOneAnnotation(f: FieldDecl)
  {
    || (f.hbColumn.Some? && (f.hbColumnMultiVersion.Some? || f.hbDynamicColumn.Some?))
    || (f.hbColumnMultiVersion.Some? && f.hbDynamicColumn.Some?)
  }

  /** The test holds exactly when the field carries two or three of the annotations. */
  lemma AmbiguousIffTwoOrMore(f: FieldDecl)
    ensures HasSpecifiedMoreThanOneAnnotation(f) <==> AnnotationCount(f) >= 2
  {
  }

  /** The names the flags give. */
  function Names(flags: seq<Flag>): set<JString>
  {
    set i | 0 <= i < |flags| :: flags[i].name
  }

  predicate DistinctNames(flags: seq<Flag>)
  {
    forall i, j :: 0 <= i < j < |flags| ==> flags[i].name != flags[j].name
  }

  /**
   * The codec flags as a map, built flag by flag; a name seen before is
   * `DuplicateCodecFlagForColumn`. The map holds exactly the flags' names,
   * each bound to its flag's value.
   */
  function FlagMap(flags: seq<Flag>): (r: Result<Flags>)
    ensures r.Err? ==> r.error == DuplicateCodecFlagForColumn
    ensures r.Ok? ==> r.value.Keys == Names(flags)
    ensures r.Ok? ==> forall i :: 0 <= i < |flags| ==> r.value[flags[i].name] == flags[i].value
  {
    if |flags| == 0 then Ok(map[])
    else
      var init := flags[..|flags| - 1];
      var last := flags[|flags| - 1];
      var m :- FlagMap(init);
      if last.name in m then Err(DuplicateCodecFlagForColumn)
      else
        assert Names(flags) == Names(init) + {last.name} by {
          assert forall i :: 0 <= i < |init| ==> init[i] == flags[i];
        }
        assert forall i :: 0 <= i < |init| ==> init[i] == flags[i];
        Ok(m[last.name := last.value])
  }

  /** The flag map exists exactly when no name repeats. */
  lemma {:induction false} FlagMapOkIffDistinct(flags: seq<Flag>)
    ensures FlagMap(flags).Ok? <==> DistinctNames(flags)
  {
    if |flags| > 0 {
      var init := flags[..|flags| - 1];
      var last := flags[|flags| - 1];
      assert forall i :: 0 <= i < |init| ==> init[i] == flags[i];
      FlagMapOkIffDistinct(init);
      if FlagMap(init).Ok? {
        if last.name in FlagMap(init).value {
          assert last.name in Names(init);
          var i :| 0 <= i < |init| && init[i].name == last.name;
          assert flags[i].name == flags[|flags| - 1].name;
        } else {
          forall i, j | 0 <= i < j < |flags|
            ensures flags[i].name != flags[j].name
          {
            if j == |flags| - 1 {
              assert flags[i].name in Names(init);
            }
          }
        }
      } else {
        var i, j :| 0 <= i < j < |init| && init[i].name == init[j].name;
        assert flags[i].name == flags[j].name;
      }
    }
  }

  /** `toMap`: the loop over the flags, failing at the first name that repeats. */
  method ToMap(flags: seq<Flag>) returns (r: Result<Flags>)
    ensures r == FlagMap(flags)
  {
    var flagsMap: Flags := map[];
    var i := 0;
    while i < |flags|
      invariant 0 <= i <= |flags|
      invariant FlagMap(flags[..i]) == Ok(flagsMap)
    {
      assert flags[..i + 1][..i] == flags[..i];
      if flags[i].name in flagsMap {
        r := Err(DuplicateCodecFlagForColumn);
        assert FlagMap(flags[..i + 1]).Err?;
        FailurePersists(flags, i + 1);
        return;
      }
      flagsMap := flagsMap[flags[i].name := flags[i].value];
      i := i + 1;
    }
    assert flags[..i] == flags;
    r := Ok(flagsMap);
  }

  /** Once a prefix of the flags repeats a name, so does every longer prefix. */
  lemma {:induction false} FailurePersists(flags: seq<Flag>, k: nat)
    requires k <= |flags| && FlagMap(flags[..k]).Err?
    ensures FlagMap(flags) == Err(DuplicateCodecFlagForColumn)
    decreases |flags| - k
  {
    if k < |flags| {
      assert flags[..k + 1][..k] == flags[..k];
      FailurePersists(flags, k + 1);
    } else {
      assert flags[..k] == flags;
    }
  }

  /** A qualifier's parts are usable: at least one, and none empty. */
  predicate QualifierPartsValid(parts: seq<JString>)
  {
    |parts| > 0 && forall i :: 0 <= i < |parts| ==> |parts[i]| > 0
  }

  /** `validateQualifierParts`: rejects an empty parts array, then the first empty part. */
  method ValidateQualifierParts(parts: seq<JString>) returns (o: Outcome)
    ensures o == Pass <==> |parts| > 0 && forall i :: 0 <= i < |parts| ==> parts[i] != []
    ensures o.Fail? ==> o.error == IllegalArgument
  {
    if |parts| == 0 {
      return Fail(IllegalArgument);
    }
    var i := 0;
    while i < |parts|
      invariant 0 <= i <= |parts|
      invariant forall k :: 0 <= k < i ==> parts[k] != []
    {
      if |parts[i]| == 0 {
        return Fail(IllegalArgument);
      }
      i := i + 1;
    }
    o := Pass;
  }

  /** `part` is a declared field of `c` whose type is `String`. */
  predicate IsStringField(c: JClass, part: JString)
  {
    part in c.declaredFields && c.declaredFields[part] == STRING_CLASS
  }

  /** The check `validateQualifierField` makes, as a value. */
  function QualifierFieldCheck(t: JType, parts: seq<JString>): (o: Outcome)
    ensures o.Fail? ==> o.error in {ClassCast, ArrayIndexOutOfBounds, IllegalArgument}
  {
    if !t.Parameterized? then Fail(ClassCast)
    else if |t.args| == 0 then Fail(ArrayIndexOutOfBounds)
    else if !t.args[0].ClassType? then Fail(IllegalArgument)
    else if forall i :: 0 <= i < |parts| ==> IsStringField(t.args[0].cls, parts[i]) then Pass
    else Fail(IllegalArgument)
  }

  /**
   * `validateQualifierField`: the field's generic type must be parameterized
   * by a class that declares each part as a `String` field.
   */
  method ValidateQualifierField(t: JType, parts: seq<JString>) returns (o: Outcome)
    ensures o == Pass <==>
      t.Parameterized? && |t.args| > 0 && t.args[0].ClassType?
      && forall i :: 0 <= i < |parts| ==> IsStringField(t.args[0].cls, parts[i])
    ensures !t.Parameterized? ==> o == Fail(ClassCast)
    ensures t.Parameterized? && |t.args| > 0 && o.Fail? ==> o.error == IllegalArgument
    ensures o == QualifierFieldCheck(t, parts)
  {
    if !t.Parameterized? {
      return Fail(ClassCast);
    }
    if |t.args| == 0 {
      return Fail(ArrayIndexOutOfBounds);
    }
    if !t.args[0].ClassType? {
      return Fail(IllegalArgument);
    }
    var c := t.args[0].cls;
    var i := 0;
    while i < |parts|
      invariant 0 <= i <= |parts|
      invariant forall k :: 0 <= k < i ==> IsStringField(c, parts[k])
    {
      if parts[i] !in c.declaredFields || c.declaredFields[parts[i]] != STRING_CLASS {
        return Fail(IllegalArgument);
      }
      i := i + 1;
    }
    o := Pass;
  }

  /** The constructor: classify the field and read its annotation. */
  function Wrap(f: FieldDecl): Result<WrappedColumn>
  {
    if HasSpecifiedMoreThanOneAnnotation(f) then Err(AmbiguousColumnDefinition)
    else if f.hbColumn.Some? then
      var a := f.hbColumn.value;
      var flags :- FlagMap(a.codecFlags);
      Ok(Mapped(a.family, a.column, SingleVersion, flags))
    else if f.hbColumnMultiVersion.Some? then
      var a := f.hbColumnMultiVersion.value;
      var flags :- FlagMap(a.codecFlags);
      Ok(Mapped(a.family, a.column, MultiVersion, flags))
    else if f.hbDynamicColumn.Some? then
      WrapDynamic(f.genericType, f.hbDynamicColumn.value)
    else Ok(Unmapped)
  }

  /** The dynamic branch of the constructor, checks in the source's order. */
  function WrapDynamic(t: JType, a: DynamicColumnAnnotation): Result<WrappedColumn>
  {
    if !Erasure(t).isCollection then Err(IllegalArgument)
    else if !QualifierPartsValid(a.qualifier.parts) then Err(IllegalArgument)
    else if QualifierFieldCheck(t, a.qualifier.parts).Fail? then Err(QualifierFieldCheck(t, a.qualifier.parts).error)
    else if |a.prefix| == 0 || |a.qualifier.separator| == 0 then Err(IllegalArgument)
    else
      var flags :- FlagMap(a.codecFlags);
      var spec := DynamicSpec(a.qualifier.parts, a.qualifier.separator, a.separator, a.prefix, a.preserveOrder, t.args[0]);
      Ok(Mapped(a.family, Join(a.separator, a.qualifier.parts), Dynamic(spec), flags))
  }

  /** Two or more mapping annotations on one field are always rejected, and only they give this error. */
  lemma AmbiguousColumn(f: FieldDecl)
    ensures Wrap(f) == Err(AmbiguousColumnDefinition) <==> AnnotationCount(f) >= 2
  {
  }

  /**
   * What each annotation makes of the field: `@HBColumn` single-versioned,
   * `@HBColumnMultiVersion` multi-versioned, `@HBDynamicColumn`
   * single-versioned and dynamic, none of them not present; never both
   * single- and multi-versioned; family, column and flags from the annotation.
   */
  lemma Classification(f: FieldDecl)
    requires Wrap(f).Ok?
    ensures var c := Wrap(f).value;
      && !(c.IsSingleVersioned() && c.IsMultiVersioned())
      && (f.hbColumn.Some? ==>
            c.IsSingleVersioned() && !c.IsDynamic() && c.family == f.hbColumn.value.family
            && c.column == f.hbColumn.value.column && FlagMap(f.hbColumn.value.codecFlags) == Ok(c.codecFlags))
      && (f.hbColumnMultiVersion.Some? ==>
            c.IsMultiVersioned() && !c.IsDynamic() && c.family == f.hbColumnMultiVersion.value.family
            && c.column == f.hbColumnMultiVersion.value.column
            && FlagMap(f.hbColumnMultiVersion.value.codecFlags) == Ok(c.codecFlags))
      && (f.hbDynamicColumn.Some? ==> c.IsSingleVersioned() && c.IsDynamic())
      && (AnnotationCount(f) == 0 <==> !c.IsPresent())
  {
  }

  /**
   * A lone `@HBDynamicColumn` is accepted exactly when the field is a
   * collection, the parts are non-empty strings naming `String` fields of
   * the element class, prefix and qualifier separator are non-empty and no
   * flag name repeats; the separator itself is not checked. The column is
   * the parts joined by the separator, without the prefix.
   */
  lemma DynamicConfiguration(f: FieldDecl)
    requires f.hbDynamicColumn.Some? && f.hbColumn.None? && f.hbColumnMultiVersion.None?
    ensures var a := f.hbDynamicColumn.value;
      Wrap(f).Ok? <==>
        && Erasure(f.genericType).isCollection
        && |a.qualifier.parts| > 0
        && (forall i :: 0 <= i < |a.qualifier.parts| ==> a.qualifier.parts[i] != [])
        && f.genericType.Parameterized? && |f.genericType.args| > 0 && f.genericType.args[0].ClassType?
        && (forall i :: 0 <= i < |a.qualifier.parts| ==> IsStringField(f.genericType.args[0].cls, a.qualifier.parts[i]))
        && a.prefix != [] && a.qualifier.separator != []
        && DistinctNames(a.codecFlags)
    ensures var a := f.hbDynamicColumn.value;
      Wrap(f).Ok? ==>
        && Wrap(f).value.family == a.family
        && Wrap(f).value.column == Join(a.separator, a.qualifier.parts)
        && Wrap(f).value.IsSingleVersioned() && Wrap(f).value.IsDynamic()
        && Wrap(f).value.kind.spec.parts == a.qualifier.parts
        && Wrap(f).value.kind.spec.prefix == a.prefix
        && Wrap(f).value.kind.spec.separator == a.separator
        && Wrap(f).value.kind.spec.qualifierSeparator == a.qualifier.separator
        && Wrap(f).value.kind.spec.preserveOrder == a.preserveOrder
        && Wrap(f).value.kind.spec.dynamicType == f.genericType.args[0]
        && FlagMap(a.codecFlags) == Ok(Wrap(f).value.codecFlags)
  {
    FlagMapOkIffDistinct(f.hbDynamicColumn.value.codecFlags);
  }

  const COLON: JString := [0x3A]                      // ":"
  const NULL_TEXT: JString := [0x6E, 0x75, 0x6C, 0x6C]  // "null"

  /**
   * `toString`: `family:column` for a static column, `family:` followed by
   * prefix and separator for a dynamic one (the dynamic column's parts do
   * not appear), `null:null` for an unmapped field.
   */
  function ToString(c: WrappedColumn): (r: JString)
    ensures c.Mapped? ==> StartsWith(r, c.family + COLON)
    ensures c.Mapped? && !c.IsDynamic() ==> r[|c.family| + 1..] == c.column
    ensures c.IsDynamic() ==> r[|c.family| + 1..] == c.kind.spec.prefix + c.kind.spec.separator
    ensures c.Unmapped? ==> r == NULL_TEXT + COLON + NULL_TEXT
  {
    match c
    case Unmapped => NULL_TEXT + COLON + NULL_TEXT
    case Mapped(family, column, kind, _) =>
      var r := family + COLON + (if kind.Dynamic? then kind.spec.prefix + kind.spec.separator else column);
      assert r[..|family| + 1] == family + COLON;
      r
  }
}
