/**
 * A record class as the mapper sees it, the discovery of its mapped fields
 * up the `@MappedSuperClass` chain (`getHBColumnFields0`) and the
 * validation of the class (`validateHBClass` and the field-type checks).
 */
module Schema {
  import opened Base
  import opened Bytes
  import opened Codec
  import opened Column

  /** A class of the hierarchy: its name, its declared fields in declaration order, and its `@MappedSuperClass` mark. */
  datatype ClassDecl = ClassDecl(name: string, fields: seq<FieldDecl>, isMappedSuperClass: bool)

  /** The no-arg constructor as reflection finds it. */
  datatype NoArgConstructor = Missing | NonPublic | Public

  /**
   * What the class's `@HBTable` declares: its column families (with their
   * version counts) and its codec flags. The table wrapper's own code is not
   * part of this model.
   */
  datatype HBTable = HBTable(name: JString, families: map<JString, int>, codecFlags: Flags)

  /**
   * A record class: `hierarchy` lists the class itself, then its superclass,
   * and so on, up to but not including `Object`.
   */
  datatype RecordClass = RecordClass(hierarchy: seq<ClassDecl>, noArgConstructor: NoArgConstructor, table: HBTable)

  /** A field identified by its declaring class and its name. */
  datatype FieldRef = FieldRef(owner: string, name: JString)

  /** A field met while walking the hierarchy. */
  datatype Declared = Declared(owner: string, decl: FieldDecl)

  /** A discovered field with the descriptor its annotations give. */
  datatype MappedField = MappedField(owner: string, decl: FieldDecl, column: WrappedColumn)
  {
    function Ref(): FieldRef { FieldRef(owner, decl.name) }
  }

  /**
   * The `LinkedHashMap<String, Field>` discovery fills: `order` holds the
   * names in first-insertion order, `byName` the current entry of each.
   */
  datatype FieldMap = FieldMap(order: seq<JString>, byName: map<JString, MappedField>)
  {
    ghost predicate Valid()
    {
      && (forall i, j :: 0 <= i < j < |order| ==> order[i] != order[j])
      && (forall n :: n in byName <==> n in order)
      && (forall n :: n in byName ==> byName[n].decl.name == n)
    }

    /** `put(name, field)`: a known name keeps its place and gets the new field, a new one goes last. */
    function Put(e: MappedField): (r: FieldMap)
      ensures r.byName == byName[e.decl.name := e]
      ensures e.decl.name in byName ==> r.order == order
      ensures e.decl.name !in byName ==> r.order == order + [e.decl.name]
    {
      if e.decl.name in byName then FieldMap(order, byName[e.decl.name := e])
      else FieldMap(order + [e.decl.name], byName[e.decl.name := e])
    }

    /** Putting keeps the names distinct, in step with the keys, and each entry under its own name. */
    lemma PutValid(e: MappedField)
      requires Valid()
      ensures Put(e).Valid()
    {
    }

    /** `values()`, in iteration order. */
    function Values(): (r: seq<MappedField>)
      requires Valid()
      ensures |r| == |order|
      ensures forall i :: 0 <= i < |r| ==> r[i] == byName[order[i]]
    {
      seq(|order|, i requires 0 <= i < |order| => byName[order[i]])
    }
  }

  const EmptyFieldMap := FieldMap([], map[])

  /** The number of leading classes of `h` that carry `@MappedSuperClass`. */
  function LeadingMapped(h: seq<ClassDecl>): (n: nat)
    ensures n <= |h|
    ensures forall k :: 0 <= k < n ==> h[k].isMappedSuperClass
    ensures n < |h| ==> !h[n].isMappedSuperClass
  {
    if |h| == 0 || !h[0].isMappedSuperClass then 0 else 1 + LeadingMapped(h[1..])
  }

  /**
   * How many classes the walk visits: the record class, then each
   * superclass for as long as it carries `@MappedSuperClass`.
   */
  function VisitedLevels(h: seq<ClassDecl>): (n: nat)
    ensures n <= |h|
    ensures |h| > 0 ==> n >= 1
    ensures forall k :: 0 < k < n ==> h[k].isMappedSuperClass
    ensures 0 < n < |h| ==> !h[n].isMappedSuperClass
  {
    if |h| == 0 then 0 else 1 + LeadingMapped(h[1..])
  }

  /** The declared fields of one class, in declaration order. */
  function LevelFields(c: ClassDecl): (r: seq<Declared>)
    ensures |r| == |c.fields|
    ensures forall i :: 0 <= i < |r| ==> r[i] == Declared(c.name, c.fields[i])
  {
    seq(|c.fields|, i requires 0 <= i < |c.fields| => Declared(c.name, c.fields[i]))
  }

  /** Every field of the first `levels` classes, class by class. */
  function Walk(h: seq<ClassDecl>, levels: nat): seq<Declared>
    requires levels <= |h|
  {
    if levels == 0 then [] else Walk(h, levels - 1) + LevelFields(h[levels - 1])
  }

  /** The walk meets exactly the fields declared by the classes it visits. */
  lemma {:induction false} WalkContents(h: seq<ClassDecl>, levels: nat, d: Declared)
    requires levels <= |h|
    ensures d in Walk(h, levels) <==> exists k :: 0 <= k < levels && h[k].name == d.owner && d.decl in h[k].fields
  {
    if levels > 0 {
      WalkContents(h, levels - 1, d);
      var last := h[levels - 1];
      if d in LevelFields(last) {
        var i :| 0 <= i < |last.fields| && LevelFields(last)[i] == d;
      }
      if h[levels - 1].name == d.owner && d.decl in h[levels - 1].fields {
        var i :| 0 <= i < |last.fields| && last.fields[i] == d.decl;
        assert LevelFields(last)[i] == d;
      }
    }
  }

  /** How a field's descriptor is built; the mapper uses `Wrap`. */
  type Wrapper = FieldDecl -> Result<WrappedColumn>

  /** The walked field at `k` is mapped: its descriptor builds and is present. */
  predicate PresentAt(wrap: Wrapper, walk: seq<Declared>, k: int)
    requires 0 <= k < |walk|
  {
    wrap(walk[k].decl).Ok? && wrap(walk[k].decl).value.IsPresent()
  }

  /**
   * Discovery over a sequence of walked fields: each field whose descriptor
   * is present is put under its name; a descriptor that fails ends it.
   */
  function Collect(wrap: Wrapper, walk: seq<Declared>): Result<FieldMap>
  {
    if |walk| == 0 then Ok(EmptyFieldMap)
    else
      var m :- Collect(wrap, walk[..|walk| - 1]);
      var d := walk[|walk| - 1];
      var c :- wrap(d.decl);
      if c.IsPresent() then Ok(m.Put(MappedField(d.owner, d.decl, c))) else Ok(m)
  }

  /** The fields of a record class that carry a mapping annotation, keyed by name. */
  function HBColumnFields(cls: RecordClass): Result<FieldMap>
  {
    Collect(Wrap, Walk(cls.hierarchy, VisitedLevels(cls.hierarchy)))
  }

  /** What discovery builds is a well-formed map. */
  lemma {:induction false} CollectValid(wrap: Wrapper, walk: seq<Declared>)
    requires Collect(wrap, walk).Ok?
    ensures Collect(wrap, walk).value.Valid()
  {
    if |walk| > 0 {
      CollectValid(wrap, walk[..|walk| - 1]);
      var m := Collect(wrap, walk[..|walk| - 1]).value;
      var c := wrap(walk[|walk| - 1].decl).value;
      if c.IsPresent() {
        m.PutValid(MappedField(walk[|walk| - 1].owner, walk[|walk| - 1].decl, c));
      }
    }
  }

  /** The walked field at `k` is the last mapped one named `n`. */
  predicate LastMapped(wrap: Wrapper, walk: seq<Declared>, k: int, n: JString)
  {
    && 0 <= k < |walk|
    && PresentAt(wrap, walk, k)
    && walk[k].decl.name == n
    && forall j :: k < j < |walk| && walk[j].decl.name == n ==> !PresentAt(wrap, walk, j)
  }

  /**
   * Discovery fails exactly when some walked field's descriptor fails, and
   * then with the first such failure.
   */
  lemma {:induction false} CollectErr(wrap: Wrapper, walk: seq<Declared>)
    ensures Collect(wrap, walk).Err? <==> exists k :: 0 <= k < |walk| && wrap(walk[k].decl).Err?
    ensures Collect(wrap, walk).Err? ==>
      exists k :: (0 <= k < |walk| && wrap(walk[k].decl) == Err(Collect(wrap, walk).error)
        && forall j :: 0 <= j < k ==> wrap(walk[j].decl).Ok?)
  {
    if |walk| > 0 {
      var init := walk[..|walk| - 1];
      assert forall k :: 0 <= k < |init| ==> init[k] == walk[k];
      CollectErr(wrap, init);
      if Collect(wrap, init).Ok? && wrap(walk[|walk| - 1].decl).Err? {
        assert forall j :: 0 <= j < |init| ==> wrap(walk[j].decl).Ok?;
      }
    }
  }

  /** Every mapped field met on the walk has its name among the keys. */
  lemma {:induction false} CollectComplete(wrap: Wrapper, walk: seq<Declared>)
    requires Collect(wrap, walk).Ok?
    ensures forall k :: 0 <= k < |walk| && PresentAt(wrap, walk, k) ==> walk[k].decl.name in Collect(wrap, walk).value.byName
  {
    if |walk| > 0 {
      var init := walk[..|walk| - 1];
      assert forall k :: 0 <= k < |init| ==> init[k] == walk[k];
      CollectComplete(wrap, init);
      forall k | 0 <= k < |walk| && PresentAt(wrap, walk, k)
        ensures walk[k].decl.name in Collect(wrap, walk).value.byName
      {
        if k < |init| {
          assert PresentAt(wrap, init, k);
        }
      }
    }
  }

  /**
   * Each key holds the last mapped field of that name met on the walk, with
   * that field's descriptor: a superclass's field replaces a subclass's
   * field of the same name.
   */
  lemma {:induction false} CollectLastWins(wrap: Wrapper, walk: seq<Declared>)
    requires Collect(wrap, walk).Ok?
    ensures var m := Collect(wrap, walk).value;
      forall n :: n in m.byName ==>
        exists k :: LastMapped(wrap, walk, k, n) && walk[k] == Declared(m.byName[n].owner, m.byName[n].decl)
          && m.byName[n].column == wrap(walk[k].decl).value
  {
    if |walk| > 0 {
      var init := walk[..|walk| - 1];
      var d := walk[|walk| - 1];
      assert forall k :: 0 <= k < |init| ==> init[k] == walk[k];
      CollectLastWins(wrap, init);
      var m := Collect(wrap, init).value;
      var c := wrap(d.decl).value;
      var m' := Collect(wrap, walk).value;
      assert m'.byName == if c.IsPresent() then m.byName[d.decl.name := MappedField(d.owner, d.decl, c)] else m.byName;
      forall n | n in m'.byName
        ensures exists k :: (LastMapped(wrap, walk, k, n) && walk[k] == Declared(m'.byName[n].owner, m'.byName[n].decl)
          && m'.byName[n].column == wrap(walk[k].decl).value)
      {
        if c.IsPresent() && n == d.decl.name {
          assert LastMapped(wrap, walk, |walk| - 1, n);
        } else {
          var k :| LastMapped(wrap, init, k, n) && init[k] == Declared(m.byName[n].owner, m.byName[n].decl)
            && m.byName[n].column == wrap(init[k].decl).value;
          assert PresentAt(wrap, init, k) && PresentAt(wrap, walk, k);
          forall j | k < j < |walk| && walk[j].decl.name == n
            ensures !PresentAt(wrap, walk, j)
          {
            if j < |init| {
              assert !PresentAt(wrap, init, j);
            }
          }
          assert LastMapped(wrap, walk, k, n);
        }
      }
    }
  }

  /**
   * `getHBColumnFields0`: walk the record class and its `@MappedSuperClass`
   * ancestors, putting every field whose descriptor is present under its name.
   */
  method GetHBColumnFields0(cls: RecordClass) returns (r: Result<FieldMap>)
    ensures r == HBColumnFields(cls)
  {
    var h := cls.hierarchy;
    var mappings := EmptyFieldMap;
    var level := 0;
    var more := 0 < |h|;
    while more
      invariant 0 <= level <= VisitedLevels(h)
      invariant more <==> level < VisitedLevels(h)
      invariant Collect(Wrap, Walk(h, level)) == Ok(mappings)
      decreases |h| - level
    {
      var next := PutDeclaredFields(Wrap, Walk(h, level), mappings, h[level]);
      if next.Err? {
        WalkPrefix(h, level + 1, VisitedLevels(h));
        var full := Walk(h, VisitedLevels(h));
        assert full == Walk(h, level + 1) + full[|Walk(h, level + 1)|..];
        CollectErrAppend(Wrap, Walk(h, level + 1), full[|Walk(h, level + 1)|..]);
        return next;
      }
      mappings := next.value;
      level := level + 1;
      more := level < |h| && h[level].isMappedSuperClass;
    }
    r := Ok(mappings);
  }

  /** The inner loop of `getHBColumnFields0`: one class's declared fields, in order. */
  method PutDeclaredFields(wrap: Wrapper, ghost walked: seq<Declared>, mappings: FieldMap, c: ClassDecl)
    returns (r: Result<FieldMap>)
    requires Collect(wrap, walked) == Ok(mappings)
    ensures r == Collect(wrap, walked + LevelFields(c))
  {
    var m := mappings;
    var j := 0;
    assert walked + LevelFields(c)[..0] == walked;
    while j < |c.fields|
      invariant 0 <= j <= |c.fields|
      invariant Collect(wrap, walked + LevelFields(c)[..j]) == Ok(m)
    {
      var w := wrap(c.fields[j]);
      if w.Err? {
        LevelStepErr(wrap, walked, c, j);
        return Err(w.error);
      }
      LevelStep(wrap, walked, c, j);
      if w.value.IsPresent() {
        m := m.Put(MappedField(c.name, c.fields[j], w.value));
      }
      j := j + 1;
    }
    assert LevelFields(c)[..j] == LevelFields(c);
    r := Ok(m);
  }

  /** One more field of a class, when its descriptor builds. */
  lemma LevelStep(wrap: Wrapper, walked: seq<Declared>, c: ClassDecl, j: nat)
    requires j < |c.fields| && Collect(wrap, walked + LevelFields(c)[..j]).Ok? && wrap(c.fields[j]).Ok?
    ensures var m := Collect(wrap, walked + LevelFields(c)[..j]).value;
      var w := wrap(c.fields[j]).value;
      Collect(wrap, walked + LevelFields(c)[..j + 1]) == Ok(if w.IsPresent() then m.Put(MappedField(c.name, c.fields[j], w)) else m)
  {
    assert walked + LevelFields(c)[..j + 1] == (walked + LevelFields(c)[..j]) + [Declared(c.name, c.fields[j])];
    CollectSnoc(wrap, walked + LevelFields(c)[..j], Declared(c.name, c.fields[j]));
  }

  /** A field of a class whose descriptor fails ends discovery with that failure. */
  lemma LevelStepErr(wrap: Wrapper, walked: seq<Declared>, c: ClassDecl, j: nat)
    requires j < |c.fields| && Collect(wrap, walked + LevelFields(c)[..j]).Ok? && wrap(c.fields[j]).Err?
    ensures Collect(wrap, walked + LevelFields(c)) == Err(wrap(c.fields[j]).error)
  {
    var fields := LevelFields(c);
    var done := walked + fields[..j + 1];
    assert done == (walked + fields[..j]) + [Declared(c.name, c.fields[j])];
    CollectSnoc(wrap, walked + fields[..j], Declared(c.name, c.fields[j]));
    assert walked + fields == done + fields[j + 1..] by {
      assert fields == fields[..j + 1] + fields[j + 1..];
    }
    CollectErrAppend(wrap, done, fields[j + 1..]);
  }

  /** One more walked field: discovery so far, then that field's descriptor. */
  lemma CollectSnoc(wrap: Wrapper, walk: seq<Declared>, d: Declared)
    ensures Collect(wrap, walk + [d]) ==
      if Collect(wrap, walk).Err? then Collect(wrap, walk)
      else if wrap(d.decl).Err? then Err(wrap(d.decl).error)
      else if wrap(d.decl).value.IsPresent() then Ok(Collect(wrap, walk).value.Put(MappedField(d.owner, d.decl, wrap(d.decl).value)))
      else Collect(wrap, walk)
  {
    assert (walk + [d])[..|walk|] == walk;
  }

  /** A walk that has failed keeps failing, with the same error, however far it goes on. */
  lemma {:induction false} CollectErrAppend(wrap: Wrapper, a: seq<Declared>, b: seq<Declared>)
    requires Collect(wrap, a).Err?
    ensures Collect(wrap, a + b) == Collect(wrap, a)
    decreases |b|
  {
    if |b| > 0 {
      var b' := b[..|b| - 1];
      assert (a + b)[..|a + b| - 1] == a + b';
      CollectErrAppend(wrap, a, b');
    } else {
      assert a + b == a;
    }
  }

  /** The walk prefix relation `GetHBColumnFields0` relies on: a shorter walk is a prefix of a longer one. */
  lemma {:induction false} WalkPrefix(h: seq<ClassDecl>, a: nat, b: nat)
    requires a <= b <= |h|
    ensures |Walk(h, a)| <= |Walk(h, b)| && Walk(h, b)[..|Walk(h, a)|] == Walk(h, a)
    decreases b - a
  {
    if a < b {
      WalkPrefix(h, a, b - 1);
    }
  }

  /**
   * A (family, column) pair, compared by value: the model takes the
   * `equals`/`hashCode` of the source's pair class to compare exactly these two names.
   */
  datatype FamilyAndColumn = FamilyAndColumn(family: JString, column: JString)

  /** `validateHBColumnSingleVersionField` once the modifiers are checked. */
  function SingleVersionCheck(codec: Codec, t: JType): Outcome
  {
    if t.ClassType? && t.cls.isPrimitive then Fail(MappedColumnCantBePrimitive)
    else if !codec.canDeserialize(t) then Fail(UnsupportedFieldType)
    else Pass
  }

  /** `validateHBColumnMultiVersionField` once the modifiers are checked. */
  function MultiVersionCheck(codec: Codec, t: JType): Outcome
  {
    if !t.Parameterized? then Fail(IncompatibleFieldForHBColumnMultiVersion)
    else if t.raw.name != NAVIGABLE_MAP_CLASS then Fail(IncompatibleFieldForHBColumnMultiVersion)
    else if |t.args| != 2 || !(t.args[0].ClassType? && t.args[0].cls.name == LONG_CLASS) then
      Fail(IncompatibleFieldForHBColumnMultiVersion)
    else if !codec.canDeserialize(t.args[1]) then Fail(UnsupportedFieldType)
    else Pass
  }

  /** The checks on a mapped field: `validateHBColumnField`, then the single- or multi-version checks. */
  function FieldTypeCheck(codec: Codec, f: FieldDecl, c: WrappedColumn): Outcome
  {
    if f.isTransient then Fail(MappedColumnCantBeTransient)
    else if f.isStatic then Fail(MappedColumnCantBeStatic)
    else if c.IsSingleVersioned() then SingleVersionCheck(codec, f.genericType)
    else if c.IsMultiVersioned() then MultiVersionCheck(codec, f.genericType)
    else Pass
  }

  /**
   * A field passes its type checks exactly when it is neither transient nor
   * static and: single-versioned, it is not of a primitive class and the
   * codec can read its type; multi-versioned, it is a `NavigableMap<Long, V>`
   * whose `V` the codec can read.
   */
  lemma FieldTypeChecks(codec: Codec, f: FieldDecl, c: WrappedColumn)
    requires c.IsPresent()
    ensures FieldTypeCheck(codec, f, c) == Pass <==>
      && !f.isTransient && !f.isStatic
      && (c.IsSingleVersioned() ==>
            !(f.genericType.ClassType? && f.genericType.cls.isPrimitive) && codec.canDeserialize(f.genericType))
      && (c.IsMultiVersioned() ==>
            && f.genericType.Parameterized? && f.genericType.raw.name == NAVIGABLE_MAP_CLASS
            && |f.genericType.args| == 2
            && f.genericType.args[0].ClassType? && f.genericType.args[0].cls.name == LONG_CLASS
            && codec.canDeserialize(f.genericType.args[1]))
  {
  }

  /** The (family, column) pairs of the mapped fields among `fields`. */
  function ColumnsOf(fields: seq<MappedField>): set<FamilyAndColumn>
  {
    set i | 0 <= i < |fields| && fields[i].column.IsPresent() :: FamilyAndColumn(fields[i].column.family, fields[i].column.column)
  }

  /** How many of `fields` are mapped: what the validation loop counts. */
  function PresentCount(fields: seq<MappedField>): nat
  {
    if |fields| == 0 then 0
    else PresentCount(fields[..|fields| - 1]) + (if fields[|fields| - 1].column.IsPresent() then 1 else 0)
  }

  /**
   * The checks on one field, given the columns of the fields before it:
   * its family is declared, its type checks pass, its column is new.
   */
  function EntryCheck(codec: Codec, table: HBTable, seen: set<FamilyAndColumn>, e: MappedField): Outcome
  {
    if !e.column.IsPresent() then Pass
    else if e.column.family !in table.families then Fail(ColumnFamilyNotInHBTable)
    else if FieldTypeCheck(codec, e.decl, e.column).Fail? then FieldTypeCheck(codec, e.decl, e.column)
    else if FamilyAndColumn(e.column.family, e.column.column) in seen then Fail(FieldsMappedToSameColumn)
    else Pass
  }

  /** The checks on all fields in iteration order, stopping at the first failure. */
  function CheckColumns(codec: Codec, table: HBTable, fields: seq<MappedField>): Outcome
  {
    if |fields| == 0 then Pass
    else
      var init := fields[..|fields| - 1];
      match CheckColumns(codec, table, init)
      case Fail(e) => Fail(e)
      case Pass => EntryCheck(codec, table, ColumnsOf(init), fields[|fields| - 1])
  }

  /** The result of validating a record class: its table, or the first error found. */
  function ValidationOf(codec: Codec, cls: RecordClass): Result<HBTable>
  {
    if cls.noArgConstructor.Missing? then Err(NoEmptyConstructor)
    else if cls.noArgConstructor.NonPublic? then Err(EmptyConstructorInaccessible)
    else
      var found :- HBColumnFields(cls);
      CollectValid(Wrap, Walk(cls.hierarchy, VisitedLevels(cls.hierarchy)));
      var fields := found.Values();
      match CheckColumns(codec, cls.table, fields)
      case Fail(e) => Err(e)
      case Pass => if PresentCount(fields) == 0 then Err(MissingHBColumnFields) else Ok(cls.table)
  }

  /**
   * `validateHBClass`: the constructor, then every discovered field in
   * iteration order (family, type checks, column not seen before), counting
   * the mapped ones; none at all is an error.
   */
  method ValidateHBClass(codec: Codec, cls: RecordClass) returns (r: Result<HBTable>)
    ensures r == ValidationOf(codec, cls)
  {
    if cls.noArgConstructor.Missing? {
      return Err(NoEmptyConstructor);
    }
    if cls.noArgConstructor.NonPublic? {
      return Err(EmptyConstructorInaccessible);
    }
    var found := GetHBColumnFields0(cls);
    if found.Err? {
      return Err(found.error);
    }
    CollectValid(Wrap, Walk(cls.hierarchy, VisitedLevels(cls.hierarchy)));
    var o, numOfHBColumns := CheckHBColumnFields(codec, cls.table, found.value.Values());
    if o.Fail? {
      return Err(o.error);
    }
    if numOfHBColumns == 0 {
      return Err(MissingHBColumnFields);
    }
    r := Ok(cls.table);
  }

  /**
   * The loop of `validateHBClass`: each mapped field's family, type checks
   * and column against the columns seen so far, and the count of mapped fields.
   */
  method CheckHBColumnFields(codec: Codec, table: HBTable, fields: seq<MappedField>)
    returns (o: Outcome, numOfHBColumns: nat)
    ensures o == CheckColumns(codec, table, fields)
    ensures o == Pass ==> numOfHBColumns == PresentCount(fields)
  {
    var columns: set<FamilyAndColumn> := {};
    numOfHBColumns := 0;
    var i := 0;
    while i < |fields|
      invariant 0 <= i <= |fields|
      invariant CheckColumns(codec, table, fields[..i]) == Pass
      invariant columns == ColumnsOf(fields[..i])
      invariant numOfHBColumns == PresentCount(fields[..i])
    {
      var e := fields[i];
      CheckStep(codec, table, fields, i);
      if e.column.IsPresent() {
        if e.column.family !in table.families {
          CheckFailAppend(codec, table, fields, i + 1);
          return Fail(ColumnFamilyNotInHBTable), numOfHBColumns;
        }
        var t := FieldTypeCheck(codec, e.decl, e.column);
        if t.Fail? {
          CheckFailAppend(codec, table, fields, i + 1);
          return t, numOfHBColumns;
        }
        var pair := FamilyAndColumn(e.column.family, e.column.column);
        if pair in columns {
          CheckFailAppend(codec, table, fields, i + 1);
          return Fail(FieldsMappedToSameColumn), numOfHBColumns;
        }
        columns := columns + {pair};
        numOfHBColumns := numOfHBColumns + 1;
      }
      i := i + 1;
    }
    assert fields[..i] == fields;
    o := Pass;
  }

  /** One more field for the validation loop: its check, its column and its count. */
  lemma CheckStep(codec: Codec, table: HBTable, fields: seq<MappedField>, i: nat)
    requires i < |fields|
    ensures fields[..i + 1][..i] == fields[..i]
    ensures CheckColumns(codec, table, fields[..i + 1]) ==
      if CheckColumns(codec, table, fields[..i]).Fail? then CheckColumns(codec, table, fields[..i])
      else EntryCheck(codec, table, ColumnsOf(fields[..i]), fields[i])
    ensures ColumnsOf(fields[..i + 1]) == ColumnsOf(fields[..i])
      + (if fields[i].column.IsPresent() then {FamilyAndColumn(fields[i].column.family, fields[i].column.column)} else {})
    ensures PresentCount(fields[..i + 1]) == PresentCount(fields[..i]) + (if fields[i].column.IsPresent() then 1 else 0)
  {
    assert fields[..i + 1][..i] == fields[..i];
    var a := fields[..i];
    var b := fields[..i + 1];
    forall x | x in ColumnsOf(b)
      ensures x in ColumnsOf(a) + (if fields[i].column.IsPresent() then {FamilyAndColumn(fields[i].column.family, fields[i].column.column)} else {})
    {
      var k :| 0 <= k < |b| && b[k].column.IsPresent() && x == FamilyAndColumn(b[k].column.family, b[k].column.column);
      if k < i {
        assert a[k] == b[k];
      }
    }
    forall x | x in ColumnsOf(a)
      ensures x in ColumnsOf(b)
    {
      var k :| 0 <= k < |a| && a[k].column.IsPresent() && x == FamilyAndColumn(a[k].column.family, a[k].column.column);
      assert b[k] == a[k];
    }
    if fields[i].column.IsPresent() {
      assert b[i] == fields[i];
    }
  }

  /** Once a prefix of the fields fails, the whole sequence fails with the same error. */
  lemma {:induction false} CheckFailAppend(codec: Codec, table: HBTable, fields: seq<MappedField>, k: nat)
    requires k <= |fields| && CheckColumns(codec, table, fields[..k]).Fail?
    ensures CheckColumns(codec, table, fields) == CheckColumns(codec, table, fields[..k])
    decreases |fields| - k
  {
    if k < |fields| {
      CheckStep(codec, table, fields, k);
      CheckFailAppend(codec, table, fields, k + 1);
    } else {
      assert fields[..k] == fields;
    }
  }

  /** The pair a mapped field occupies. */
  function ColumnOf(e: MappedField): FamilyAndColumn
    requires e.column.Mapped?
  {
    FamilyAndColumn(e.column.family, e.column.column)
  }

  /** Every mapped field's family is declared and its type checks pass. */
  predicate FieldsAccepted(codec: Codec, table: HBTable, fields: seq<MappedField>)
  {
    forall i :: 0 <= i < |fields| && fields[i].column.IsPresent() ==>
      fields[i].column.family in table.families && FieldTypeCheck(codec, fields[i].decl, fields[i].column) == Pass
  }

  /** No two mapped fields share a (family, column) pair. */
  predicate ColumnsDistinct(fields: seq<MappedField>)
  {
    forall i, j :: 0 <= i < j < |fields| && fields[i].column.IsPresent() && fields[j].column.IsPresent() ==>
      ColumnOf(fields[i]) != ColumnOf(fields[j])
  }

  /**
   * The field checks pass exactly when every mapped field is accepted and
   * no two share a column, wherever the two sit in iteration order.
   */
  lemma {:induction false} CheckColumnsPass(codec: Codec, table: HBTable, fields: seq<MappedField>)
    ensures CheckColumns(codec, table, fields) == Pass <==> FieldsAccepted(codec, table, fields) && ColumnsDistinct(fields)
  {
    if |fields| > 0 {
      var n := |fields| - 1;
      var init := fields[..n];
      CheckStep(codec, table, fields, n);
      assert fields[..n + 1] == fields;
      CheckColumnsPass(codec, table, init);
      assert forall i :: 0 <= i < n ==> init[i] == fields[i];
      var e := fields[n];
      if CheckColumns(codec, table, init) == Pass && e.column.IsPresent()
        && e.column.family in table.families && FieldTypeCheck(codec, e.decl, e.column) == Pass
      {
        if ColumnOf(e) in ColumnsOf(init) {
          var k :| 0 <= k < n && init[k].column.IsPresent() && ColumnOf(e) == ColumnOf(init[k]);
          assert !ColumnsDistinct(fields) by {
            assert fields[k].column.IsPresent() && ColumnOf(fields[k]) == ColumnOf(fields[n]);
          }
        } else {
          forall i, j | 0 <= i < j < |fields| && fields[i].column.IsPresent() && fields[j].column.IsPresent()
            ensures ColumnOf(fields[i]) != ColumnOf(fields[j])
          {
            if j == n {
              assert ColumnOf(init[i]) in ColumnsOf(init);
            }
          }
        }
      }
    }
  }

  /**
   * A failing check is the failure of the first field that fails, given
   * the columns of the fields before it; within one field the family is
   * checked first, then its type, then its column.
   */
  lemma {:induction false} CheckColumnsFirstFailure(codec: Codec, table: HBTable, fields: seq<MappedField>)
    requires CheckColumns(codec, table, fields).Fail?
    ensures exists k :: (0 <= k < |fields| && CheckColumns(codec, table, fields[..k]) == Pass
      && EntryCheck(codec, table, ColumnsOf(fields[..k]), fields[k]) == CheckColumns(codec, table, fields))
  {
    var n := |fields| - 1;
    CheckStep(codec, table, fields, n);
    assert fields[..n + 1] == fields;
    if CheckColumns(codec, table, fields[..n]).Fail? {
      CheckColumnsFirstFailure(codec, table, fields[..n]);
      var k :| 0 <= k < n && CheckColumns(codec, table, fields[..n][..k]) == Pass
        && EntryCheck(codec, table, ColumnsOf(fields[..n][..k]), fields[..n][k]) == CheckColumns(codec, table, fields[..n]);
      assert fields[..n][..k] == fields[..k];
    }
  }

  /** Every field discovery returns is mapped, with the descriptor its annotations give. */
  lemma DiscoveredArePresent(cls: RecordClass)
    requires HBColumnFields(cls).Ok?
    ensures HBColumnFields(cls).value.Valid()
    ensures var m := HBColumnFields(cls).value;
      forall n :: n in m.byName ==> m.byName[n].column.IsPresent() && Wrap(m.byName[n].decl) == Ok(m.byName[n].column)
  {
    var walk := Walk(cls.hierarchy, VisitedLevels(cls.hierarchy));
    CollectValid(Wrap, walk);
    CollectLastWins(Wrap, walk);
  }

  /** When every field is mapped, the validation count is the number of fields. */
  lemma {:induction false} PresentCountAll(fields: seq<MappedField>)
    requires forall i :: 0 <= i < |fields| ==> fields[i].column.IsPresent()
    ensures PresentCount(fields) == |fields|
  {
    if |fields| > 0 {
      PresentCountAll(fields[..|fields| - 1]);
    }
  }

  /**
   * What validation decides: a missing and then a non-public no-arg
   * constructor come first, then any descriptor failure met by discovery;
   * then the first failing field check gives its own error, and a class
   * with no mapped field at all fails with `MissingHBColumnFields`;
   * otherwise the class is accepted, with its table, exactly when it has at
   * least one mapped field, every mapped field is accepted and no two
   * mapped fields share a (family, column) pair.
   */
  lemma ValidationSpec(codec: Codec, cls: RecordClass)
    ensures cls.noArgConstructor.Missing? ==> ValidationOf(codec, cls) == Err(NoEmptyConstructor)
    ensures cls.noArgConstructor.NonPublic? ==> ValidationOf(codec, cls) == Err(EmptyConstructorInaccessible)
    ensures cls.noArgConstructor.Public? && HBColumnFields(cls).Err? ==>
      ValidationOf(codec, cls) == Err(HBColumnFields(cls).error)
    ensures cls.noArgConstructor.Public? && HBColumnFields(cls).Ok? ==>
      (DiscoveredArePresent(cls);
       var fields := HBColumnFields(cls).value.Values();
       && (CheckColumns(codec, cls.table, fields).Fail? ==>
             ValidationOf(codec, cls) == Err(CheckColumns(codec, cls.table, fields).error))
       && (CheckColumns(codec, cls.table, fields).Pass? && |fields| == 0 ==>
             ValidationOf(codec, cls) == Err(MissingHBColumnFields)))
    ensures ValidationOf(codec, cls).Ok? ==> ValidationOf(codec, cls).value == cls.table
    ensures ValidationOf(codec, cls).Ok? <==>
      && cls.noArgConstructor.Public?
      && HBColumnFields(cls).Ok?
      && (DiscoveredArePresent(cls);
          var fields := HBColumnFields(cls).value.Values();
          |fields| > 0 && FieldsAccepted(codec, cls.table, fields) && ColumnsDistinct(fields))
  {
    if cls.noArgConstructor.Public? && HBColumnFields(cls).Ok? {
      DiscoveredArePresent(cls);
      var fields := HBColumnFields(cls).value.Values();
      CheckColumnsPass(codec, cls.table, fields);
      PresentCountAll(fields);
    }
  }

  /**
   * Two mapped fields on one (family, column) make the class invalid,
   * wherever they sit, unless an earlier check already rejected it.
   */
  lemma DuplicateColumnRejected(codec: Codec, cls: RecordClass, i: nat, j: nat)
    requires cls.noArgConstructor.Public? && HBColumnFields(cls).Ok?
    requires HBColumnFields(cls).value.Valid()
    requires var fields := HBColumnFields(cls).value.Values();
      i < j < |fields| && FieldsAccepted(codec, cls.table, fields)
      && fields[i].column.IsPresent() && fields[j].column.IsPresent()
      && ColumnOf(fields[i]) == ColumnOf(fields[j])
    ensures ValidationOf(codec, cls) == Err(FieldsMappedToSameColumn)
  {
    var fields := HBColumnFields(cls).value.Values();
    ValidationSpec(codec, cls);
    CheckColumnsPass(codec, cls.table, fields);
    CheckColumnsFirstFailure(codec, cls.table, fields);
    var k :| 0 <= k < |fields| && CheckColumns(codec, cls.table, fields[..k]) == Pass
      && EntryCheck(codec, cls.table, ColumnsOf(fields[..k]), fields[k]) == CheckColumns(codec, cls.table, fields);
    assert fields[k] == fields[..k + 1][k];
  }
}
