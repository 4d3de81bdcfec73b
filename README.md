# hbase-orm mapping engine, modelled in Dafny

hbase-orm maps plain Java records ("entities" implementing `HBRecord`) to
HBase rows. A record class declares its columns with annotations:
- `@HBColumn` for a single-version column;
- `@HBColumnMultiVersion` for a `NavigableMap<Long, V>` of versions;
- `@HBDynamicColumn` for a collection whose elements each become a column,
  with a qualifier built from a prefix, a separator and some of the
  element's `String` fields.

`HBObjectMapper` validates a record class. It turns a record into the
ordered map family → qualifier → timestamp → bytes, and an HBase `Put` into
a record. `WrappedHBColumn` is the per-field descriptor the mapper builds
from the annotations. `NamespaceManager` hands out one DAO per (namespace,
record type), creating it on first request with a configured creator.

The model has these modules:

- `Base`: `Option`, `Result`, `Outcome` and the exceptions as error tags.
- `Bytes`:
  - byte arrays and `Bytes.BYTES_COMPARATOR` (unsigned lexicographic order);
  - the ascending key order a `TreeMap` iterates in;
  - `Bytes.toBytes(int)` (4-byte big-endian);
  - Java strings held as their UTF-8 bytes.
- `Codec`:
  - values and Java types as reflection reports them;
  - the pluggable codec as three abstract functions (`serialize`, `deserialize`, `canDeserialize`);
  - `valueToByteArray` and `byteArrayToValue`.
- `Column`: `WrappedHBColumn`. That is the constructor's classification, `toMap`, `validateQualifierParts`, `validateQualifierField` and `toString`.
- `Schema`:
  - field discovery up the `@MappedSuperClass` chain (`getHBColumnFields0`, into a `LinkedHashMap` modelled by `FieldMap`);
  - `validateHBClass` with the field-type checks.
- `Serialize`: the columns of a dynamic field (`getDynamicColumns0`), including the 32-bit `valueIndex`.
- `RecordMap`: `convertRecordToMap` and `getFieldValuesAsNavigableMapOfBytes`.
- `RowKey`: `composeRowKey` and `bytesToRowKey`.
- `Deserialize`:
  - `convertMapToRecord`, `convertStandardColumn`, `convertDynamicColumn` and the `objectSetFieldValue` overloads;
  - the record under construction is a class whose field map is updated in place.
- `PutConversion`:
  - `writeValueAsPut`/`writeValueAsPut0` (a `Put` is a row plus each family's cell list);
  - `readValue(rowKey, put, clazz)`, `readValueFromRowAndPut` and `readValueFromPut`;
  - the round trip between them.
- `Namespaces`: `NamespaceManager` as a class with its four maps, and the DAO as a class whose namespace is set after creation.
- `Fixtures`: two entity classes of the test suite as values, and what validation and reading do with them.

Each loop of the source is a method proved equal to a specification
function. The properties are stated about that function. A specification
function without a contract of its own has no row; its row is that of the
method proved equal to it, or of the lemma that states its cases, and that
row names it.

Assumptions made at the edges:
- The codec's `serialize` gives null exactly for null.
- Java `Long.MAX_VALUE` is `LATEST_TIMESTAMP`.
- Each creator given to `NamespaceManager` returns a new DAO with no namespace, for the record type it was configured under.
- `FamilyAndColumn`, the element of the `HashSet` that `validateHBClass` uses to find a repeated column, is not part of this model; its `equals` and `hashCode` are assumed to compare the family and the column and nothing else. The model's `FamilyAndColumn` is a value, so two fields clash exactly when both names agree.

## Model

| member | source | states |
|---|---|---|
| Bytes.SortedKeysAscending | src/main/java/com/flipkart/hbaseobjectmapper/HBObjectMapper.java:327 | a TreeMap over `BYTES_COMPARATOR` visits its keys in strictly ascending unsigned-lexicographic order |
| Bytes.SortedKeys | src/main/java/com/flipkart/hbaseobjectmapper/HBObjectMapper.java:327 | the keys of a byte-keyed `TreeMap` as its iterator lists them: every key of the set exactly once and nothing else |
| Bytes.SortedSame | src/main/java/com/flipkart/hbaseobjectmapper/HBObjectMapper.java:327 | two ascending key sequences with the same members are equal: the iteration order of a key set is unique |
| Bytes.LessTotal | src/main/java/com/flipkart/hbaseobjectmapper/HBObjectMapper.java:327 | the comparator `Less` (the unsigned lexicographic order of `BYTES_COMPARATOR`) is total on byte arrays |
| Bytes.LessTransitive | src/main/java/com/flipkart/hbaseobjectmapper/HBObjectMapper.java:327 | the comparator is transitive |
| Bytes.ScanRange | src/main/java/com/flipkart/hbaseobjectmapper/HBObjectMapper.java:169-171 | `q` lies in `[p, p + [0x7F])` exactly when it starts with `p` and is `p` itself or continues with a byte below 0x7F |
| Bytes.Int32BEOrder | src/main/java/com/flipkart/hbaseobjectmapper/HBObjectMapper.java:405 | `Bytes.toBytes(int)` of non-negative indexes preserves their order under the unsigned comparator |
| Bytes.Int32BE | src/main/java/com/flipkart/hbaseobjectmapper/HBObjectMapper.java:405 | `Bytes.toBytes(int)`: four bytes, big-endian, reading back as the int, or as the int plus 2^32 when it is negative |
| Bytes.SortedTimestamps | src/main/java/com/flipkart/hbaseobjectmapper/HBObjectMapper.java:481 | the timestamps of a version map in ascending order, each exactly once |
| Bytes.FirstKey | src/main/java/com/flipkart/hbaseobjectmapper/HBObjectMapper.java:188 | `firstEntry()` of a non-empty version map is its smallest timestamp |
| Codec.ValueToByteArray | src/main/java/com/flipkart/hbaseobjectmapper/HBObjectMapper.java:203-209 | null gives no bytes; a codec failure is `CodecError`, and only then does it fail; otherwise the bytes the codec returned |
| Codec.ByteArrayToValue | src/main/java/com/flipkart/hbaseobjectmapper/HBObjectMapper.java:650-659 | empty bytes are null without asking the codec; it fails with `CodecError` exactly when the codec fails on non-empty bytes; otherwise the codec's value |
| Codec.ValueRoundTrip | src/main/java/com/flipkart/hbaseobjectmapper/HBObjectMapper.java:203-209 | for a value the codec round-trips, what `valueToByteArray` writes, `byteArrayToValue` reads back |
| Column.AmbiguousIffTwoOrMore | src/main/java/com/flipkart/hbaseobjectmapper/WrappedHBColumn.java:129-131 | `hasSpecifiedMoreThanOneAnnotation` holds exactly when two or three of the annotations are present |
| Column.AmbiguousColumn | src/main/java/com/flipkart/hbaseobjectmapper/WrappedHBColumn.java:45-50 | the constructor fails with `AmbiguousColumnDefinition` exactly when at least two annotations are present |
| Column.Classification | src/main/java/com/flipkart/hbaseobjectmapper/WrappedHBColumn.java:51-95 | `Wrap`, the constructor (WrappedHBColumn.java:45-95): `@HBColumn` gives single and not dynamic, `@HBColumnMultiVersion` multi only, `@HBDynamicColumn` single and dynamic, none gives not present; never single and multi; family, column and flags come from the annotation |
| Column.DynamicConfiguration | src/main/java/com/flipkart/hbaseobjectmapper/WrappedHBColumn.java:65-87 | `WrapDynamic`, the dynamic branch of the constructor: a dynamic field is accepted exactly when it is a collection, its parts are non-empty and name `String` fields of the element class, prefix and qualifier separator are non-empty and no flag repeats; then family, parts, prefix, separators, `preserveOrder`, the element type and the flags all come from the annotation, and the column is `join(separator, parts)` without the prefix |
| Column.FlagMap | src/main/java/com/flipkart/hbaseobjectmapper/WrappedHBColumn.java:133-142 | the flag map has exactly one entry per flag name, holding its value; the only error is `DuplicateCodecFlagForColumn` |
| Column.FlagMapOkIffDistinct | src/main/java/com/flipkart/hbaseobjectmapper/WrappedHBColumn.java:133-142 | the flag map is built exactly when no flag name repeats |
| Column.ToMap | src/main/java/com/flipkart/hbaseobjectmapper/WrappedHBColumn.java:133-142 | the loop gives the flag map, failing at the first repeated name |
| Column.FailurePersists | src/main/java/com/flipkart/hbaseobjectmapper/WrappedHBColumn.java:135-139 | a repeated name among the first flags fails the whole map |
| Column.ValidateQualifierParts | src/main/java/com/flipkart/hbaseobjectmapper/WrappedHBColumn.java:118-127 | passes exactly when there is a part and no part is empty; otherwise `IllegalArgument` |
| Column.QualifierFieldCheck | src/main/java/com/flipkart/hbaseobjectmapper/WrappedHBColumn.java:98-116 | the check fails only with `ClassCast`, `ArrayIndexOutOfBounds` or `IllegalArgument` |
| Column.ValidateQualifierField | src/main/java/com/flipkart/hbaseobjectmapper/WrappedHBColumn.java:98-116 | passes exactly when the type is parameterized by a class that declares every part as a `String` field; a non-parameterized type is `ClassCast`, a missing or non-`String` part `IllegalArgument` |
| Column.ToString | src/main/java/com/flipkart/hbaseobjectmapper/WrappedHBColumn.java:212-219 | `family:` then the column for a static column, `family:` then prefix and separator for a dynamic one, `null:null` for an unmapped field |
| Schema.FieldMap.Put | src/main/java/com/flipkart/hbaseobjectmapper/HBObjectMapper.java:809 | `LinkedHashMap.put`: a known name keeps its place and takes the new field, a new name goes last |
| Schema.FieldMap.PutValid | src/main/java/com/flipkart/hbaseobjectmapper/HBObjectMapper.java:809 | putting keeps the names distinct and in step with the entries |
| Schema.FieldMap.Values | src/main/java/com/flipkart/hbaseobjectmapper/HBObjectMapper.java:236 | `values()` lists the entries in insertion order of their names |
| Schema.LeadingMapped | src/main/java/com/flipkart/hbaseobjectmapper/HBObjectMapper.java:812-813 | counts the leading superclasses that carry `@MappedSuperClass` and stops at the first that does not |
| Schema.VisitedLevels | src/main/java/com/flipkart/hbaseobjectmapper/HBObjectMapper.java:806-814 | the walk visits the record class, then each superclass while it carries `@MappedSuperClass` |
| Schema.LevelFields | src/main/java/com/flipkart/hbaseobjectmapper/HBObjectMapper.java:807 | one class's declared fields, in declaration order |
| Schema.WalkContents | src/main/java/com/flipkart/hbaseobjectmapper/HBObjectMapper.java:806-814 | the walk meets exactly the fields declared by the classes it visits |
| Schema.CollectValid | src/main/java/com/flipkart/hbaseobjectmapper/HBObjectMapper.java:803-816 | discovery builds a well-formed map |
| Schema.CollectErr | src/main/java/com/flipkart/hbaseobjectmapper/HBObjectMapper.java:808 | discovery fails exactly when some walked field's descriptor fails, and then with the first such failure |
| Schema.CollectComplete | src/main/java/com/flipkart/hbaseobjectmapper/HBObjectMapper.java:808-809 | every mapped field met on the walk has its name among the keys |
| Schema.CollectLastWins | src/main/java/com/flipkart/hbaseobjectmapper/HBObjectMapper.java:809 | each key holds the last mapped field of that name on the walk, so an ancestor's field replaces a subclass field of the same name |
| Schema.GetHBColumnFields0 | src/main/java/com/flipkart/hbaseobjectmapper/HBObjectMapper.java:803-816 | the walk with its two loops gives `HBColumnFields`, which is `Collect` of `Wrap` over the walked fields |
| Schema.PutDeclaredFields | src/main/java/com/flipkart/hbaseobjectmapper/HBObjectMapper.java:807-811 | the inner loop extends discovery by one class's fields |
| Schema.LevelStep | src/main/java/com/flipkart/hbaseobjectmapper/HBObjectMapper.java:808-809 | one more field whose descriptor builds is put when present and skipped otherwise |
| Schema.LevelStepErr | src/main/java/com/flipkart/hbaseobjectmapper/HBObjectMapper.java:808 | a field whose descriptor fails ends discovery with that failure |
| Schema.CollectSnoc | src/main/java/com/flipkart/hbaseobjectmapper/HBObjectMapper.java:807-809 | discovery over one more field, case by case |
| Schema.CollectErrAppend | src/main/java/com/flipkart/hbaseobjectmapper/HBObjectMapper.java:806-814 | a failed walk stays failed with the same error |
| Schema.WalkPrefix | src/main/java/com/flipkart/hbaseobjectmapper/HBObjectMapper.java:806-814 | a walk over fewer classes is a prefix of a walk over more |
| Schema.FieldTypeChecks | src/main/java/com/flipkart/hbaseobjectmapper/HBObjectMapper.java:263-315 | `FieldTypeCheck`, with `SingleVersionCheck` (HBObjectMapper.java:292-304) and `MultiVersionCheck` (HBObjectMapper.java:263-279), both after the modifier checks of HBObjectMapper.java:306-315: a field passes exactly when it is neither transient nor static and: single-version (dynamic included), not of a primitive class and readable by the codec; multi-version, a `NavigableMap<Long, V>` whose `V` the codec can read |
| Schema.CheckColumnsPass | src/main/java/com/flipkart/hbaseobjectmapper/HBObjectMapper.java:237-253 | `CheckColumns`, made of one `EntryCheck` per field against the columns seen before it, passes exactly when every mapped field is accepted and no two share a (family, column) pair |
| Schema.CheckColumnsFirstFailure | src/main/java/com/flipkart/hbaseobjectmapper/HBObjectMapper.java:239-250 | a failing loop fails with the first failing field's error; family is checked first, then type, then column |
| Schema.CheckStep | src/main/java/com/flipkart/hbaseobjectmapper/HBObjectMapper.java:237-253 | one more field: its check, its column and its count |
| Schema.CheckFailAppend | src/main/java/com/flipkart/hbaseobjectmapper/HBObjectMapper.java:237-253 | a failure among the first fields is the loop's failure |
| Schema.CheckHBColumnFields | src/main/java/com/flipkart/hbaseobjectmapper/HBObjectMapper.java:237-253 | the loop's outcome is `CheckColumns`; on success the count is the number of mapped fields |
| Schema.DiscoveredArePresent | src/main/java/com/flipkart/hbaseobjectmapper/HBObjectMapper.java:808-809 | every discovered field is mapped, with the descriptor its annotations give |
| Schema.PresentCountAll | src/main/java/com/flipkart/hbaseobjectmapper/HBObjectMapper.java:251-255 | with every field mapped, the count is the number of fields |
| Schema.ValidateHBClass | src/main/java/com/flipkart/hbaseobjectmapper/HBObjectMapper.java:223-258 | the method gives `ValidationOf`, the validation function, whose cases `Schema.ValidationSpec` states |
| Schema.ValidationSpec | src/main/java/com/flipkart/hbaseobjectmapper/HBObjectMapper.java:223-258 | a missing constructor is `NoEmptyConstructor`; a non-public one is `EmptyConstructorInaccessible`; then descriptor failures; then the first failing field check's own error; a class with no mapped field is `MissingHBColumnFields`; the class is accepted, with its table unchanged, exactly when it has a mapped field, all fields are accepted and no column repeats |
| Schema.DuplicateColumnRejected | src/main/java/com/flipkart/hbaseobjectmapper/HBObjectMapper.java:248-249 | two mapped fields on one (family, column), wherever they sit, give `FieldsMappedToSameColumn` when the earlier checks pass |
| Serialize.Int32Of | src/main/java/com/flipkart/hbaseobjectmapper/HBObjectMapper.java:385 | `valueIndex` is a Java `int`; it is the element's index below 2^31 |
| Serialize.Int32Next | src/main/java/com/flipkart/hbaseobjectmapper/HBObjectMapper.java:413 | `++valueIndex` wraps from 2^31-1 to -2^31 |
| Serialize.ElementCells | src/main/java/com/flipkart/hbaseobjectmapper/HBObjectMapper.java:386-414 | one result per element, by index |
| Serialize.SerializeParts | src/main/java/com/flipkart/hbaseobjectmapper/HBObjectMapper.java:389-400 | the parts loop gives `PartValues`, the joined part bytes |
| Serialize.PartValuesErrors | src/main/java/com/flipkart/hbaseobjectmapper/HBObjectMapper.java:393-398 | joining the parts fails only with `CodecError` or `NullPointer` |
| Serialize.DynamicElement | src/main/java/com/flipkart/hbaseobjectmapper/HBObjectMapper.java:387-410 | one element gives the column `ElementColumn` describes |
| Serialize.ElementColumnErrors | src/main/java/com/flipkart/hbaseobjectmapper/HBObjectMapper.java:387-398 | an element fails only with `NullPointer`, `IllegalArgument` or `CodecError` |
| Serialize.GetDynamicColumns0 | src/main/java/com/flipkart/hbaseobjectmapper/HBObjectMapper.java:380-419 | the loop gives `DynamicColumns`, the dynamic field's columns |
| Serialize.ElementPrefix | src/main/java/com/flipkart/hbaseobjectmapper/HBObjectMapper.java:404-406 | every qualifier written starts with prefix and separator |
| Serialize.ElementQualifier | src/main/java/com/flipkart/hbaseobjectmapper/HBObjectMapper.java:404-406 | every qualifier is formed from its index and some part bytes |
| Serialize.PutCellsSpec | src/main/java/com/flipkart/hbaseobjectmapper/HBObjectMapper.java:407-410 | `PutCells`: each element with part bytes writes its qualifier; each qualifier holds one version, at `LATEST_TIMESTAMP`, from the last element that wrote it |
| Serialize.DynamicColumnsSpec | src/main/java/com/flipkart/hbaseobjectmapper/HBObjectMapper.java:380-419 | the same for the dynamic field: prefixed qualifiers, last writer wins on equal parts |
| Serialize.DynamicColumnsErrors | src/main/java/com/flipkart/hbaseobjectmapper/HBObjectMapper.java:380-419 | a dynamic field fails only as one of its elements does |
| Serialize.PreservedQualifiersDiffer | src/main/java/com/flipkart/hbaseobjectmapper/HBObjectMapper.java:404-405 | preserving order, elements at different indexes write different qualifiers |
| Serialize.PutCellsDistinct | src/main/java/com/flipkart/hbaseobjectmapper/HBObjectMapper.java:410 | cells on pairwise different qualifiers all survive, one column each |
| Serialize.PreserveOrderKeepsAll | src/main/java/com/flipkart/hbaseobjectmapper/HBObjectMapper.java:380-419 | preserving order, there are as many columns as elements, each element under its own qualifier with its own value |
| RecordMap.VersionBytes | src/main/java/com/flipkart/hbaseobjectmapper/HBObjectMapper.java:442-450 | null versions are skipped; each other version is serialized under its own timestamp; a codec failure fails the field |
| RecordMap.GetFieldValuesAsNavigableMapOfBytes | src/main/java/com/flipkart/hbaseobjectmapper/HBObjectMapper.java:432-455 | the loop over versions gives the multi-version bytes |
| RecordMap.SingleVersionWrite | src/main/java/com/flipkart/hbaseobjectmapper/HBObjectMapper.java:331-347 | a single-version field always creates its family; it writes its column, at `LATEST_TIMESTAMP` only, exactly when its bytes are non-null and non-empty |
| RecordMap.MultiVersionWrite | src/main/java/com/flipkart/hbaseobjectmapper/HBObjectMapper.java:349-358 | `MultiVersionBytes` through the field's contribution: null writes nothing; an empty map is `FieldAnnotatedWithHBColumnMultiVersionCantBeEmpty`; otherwise its own column with exactly its non-null versions, each holding the codec's bytes of that version, and still a (counted) column when all versions are null |
| RecordMap.DynamicWrite | src/main/java/com/flipkart/hbaseobjectmapper/HBObjectMapper.java:333-338 | a dynamic field always creates its family; null writes no column; otherwise its elements' columns |
| RecordMap.UnmappedWritesNothing | src/main/java/com/flipkart/hbaseobjectmapper/HBObjectMapper.java:331-359 | an unmapped field contributes nothing |
| RecordMap.FieldContributionErrors | src/main/java/com/flipkart/hbaseobjectmapper/HBObjectMapper.java:331-358 | converting a field fails only with codec, cast, null, argument or empty-versions errors |
| RecordMap.GatherFold | src/main/java/com/flipkart/hbaseobjectmapper/HBObjectMapper.java:329-360 | `RecordToMap` is `Gather` then `Fold`: the loop succeeds exactly when no field fails, and then folds the fields' contributions in order |
| RecordMap.GatherErrorIsField | src/main/java/com/flipkart/hbaseobjectmapper/HBObjectMapper.java:329-360 | a failure of the loop is the failure of one of the fields |
| RecordMap.FoldFamilies | src/main/java/com/flipkart/hbaseobjectmapper/HBObjectMapper.java:333-354 | the map holds a family exactly for the fields that contribute to it, even without columns |
| RecordMap.FoldCount | src/main/java/com/flipkart/hbaseobjectmapper/HBObjectMapper.java:338-357 | the write counter is zero exactly when no field wrote a column |
| RecordMap.FoldLastWins | src/main/java/com/flipkart/hbaseobjectmapper/HBObjectMapper.java:337-356 | each column holds the value of the last field that wrote it |
| RecordMap.FoldKeepsLast | src/main/java/com/flipkart/hbaseobjectmapper/HBObjectMapper.java:337-356 | the last field to write a column leaves it in the map |
| RecordMap.GatherNothingWritten | src/main/java/com/flipkart/hbaseobjectmapper/HBObjectMapper.java:361-363 | the counter ends at zero exactly when no field fails and none writes a column; otherwise some column is in the map |
| RecordMap.AllFieldsNullIffNothingWritten | src/main/java/com/flipkart/hbaseobjectmapper/HBObjectMapper.java:324-363 | `AllHBColumnFieldsNull` exactly when every field converts and none writes a column; an accepted record writes a column |
| RecordMap.ConvertField | src/main/java/com/flipkart/hbaseobjectmapper/HBObjectMapper.java:330-359 | the loop body gives `FieldContribution`, the field's contribution |
| RecordMap.WriteFields | src/main/java/com/flipkart/hbaseobjectmapper/HBObjectMapper.java:328-360 | the loop merges each field into its family and counts the columns |
| RecordMap.ConvertRecordToMap | src/main/java/com/flipkart/hbaseobjectmapper/HBObjectMapper.java:324-363 | the method gives `RecordToMap`: the record's column map or its error |
| RowKey.ComposeRowKey | src/main/java/com/flipkart/hbaseobjectmapper/HBObjectMapper.java:744-757 | a throwing key is `RowKeyCantBeComposed`; a null key or one with empty text is `RowKeyCantBeEmpty`; any other key gives exactly the codec's bytes with the table's flags, or `CodecError` when the codec fails |
| RowKey.BytesToRowKey | src/main/java/com/flipkart/hbaseobjectmapper/HBObjectMapper.java:118-124 | empty bytes are a null key; otherwise the codec's value of the declared key type, and `CodecError` exactly when the codec fails |
| RowKey.RowKeyRoundTrip | src/main/java/com/flipkart/hbaseobjectmapper/HBObjectMapper.java:118-124 | `bytesToRowKey` reads back the key `composeRowKey` wrote |
| Deserialize.DecodeVersions | src/main/java/com/flipkart/hbaseobjectmapper/HBObjectMapper.java:614-616 | every version decoded under its own timestamp, empty bytes as null; fails exactly when the codec fails on a version |
| Deserialize.DynamicRange | src/main/java/com/flipkart/hbaseobjectmapper/HBObjectMapper.java:169-171 | the `subMap` holds exactly the qualifiers in `[prefix+sep, prefix+sep+[0x7F])`, in ascending order |
| Deserialize.Record.constructor | src/main/java/com/flipkart/hbaseobjectmapper/HBObjectMapper.java:138-149 | a new record whose fields are what `parseRowKey` set |
| Deserialize.Record.SetFieldValue | src/main/java/com/flipkart/hbaseobjectmapper/HBObjectMapper.java:624-631 | the field gets the value and nothing else changes |
| Deserialize.SetFieldValueFromBytes | src/main/java/com/flipkart/hbaseobjectmapper/HBObjectMapper.java:633-643 | the method gives `SetFromBytes`: empty bytes leave the field alone; otherwise it gets the decoded value |
| Deserialize.SetFieldValueFromVersions | src/main/java/com/flipkart/hbaseobjectmapper/HBObjectMapper.java:609-622 | the method gives `SetFromVersions`: a missing column leaves the field alone; an empty version map sets an empty map whatever the declared type; otherwise it gets all versions decoded, and any failure is `ConversionFailed` |
| Deserialize.DecodeVersionsInOrder | src/main/java/com/flipkart/hbaseobjectmapper/HBObjectMapper.java:614-616 | the loop over versions gives the decoded versions |
| Deserialize.ConvertStandardColumn | src/main/java/com/flipkart/hbaseobjectmapper/HBObjectMapper.java:182-193 | the method sets the field as `StandardRead` describes |
| Deserialize.ConvertDynamicColumn | src/main/java/com/flipkart/hbaseobjectmapper/HBObjectMapper.java:166-180 | the method sets the field as `DynamicRead` describes: `DecodeElements` over the scan range, then `SetElements`, which sets the list of elements, or fails with `IllegalArgument` when the field's declared type cannot hold an `ArrayList` |
| Deserialize.DecodeEntries | src/main/java/com/flipkart/hbaseobjectmapper/HBObjectMapper.java:174-176 | the loop gives `DecodeElements`: each column's first version decoded, in order |
| Deserialize.ConvertField | src/main/java/com/flipkart/hbaseobjectmapper/HBObjectMapper.java:151-160 | one pass of the field loop sets the field as `ReadField` describes |
| Deserialize.ConvertMapToRecord | src/main/java/com/flipkart/hbaseobjectmapper/HBObjectMapper.java:131-163 | a new record whose fields are set in place; its state or error is `MapToRecord`'s, which parses the row key and then runs `ReadFields` |
| Deserialize.ReadFieldFrame | src/main/java/com/flipkart/hbaseobjectmapper/HBObjectMapper.java:151-160 | reading a field changes no other field |
| Deserialize.ReadFieldsFrame | src/main/java/com/flipkart/hbaseobjectmapper/HBObjectMapper.java:150-161 | reading the mapped fields leaves every other field as it was |
| Deserialize.MapToRecordKeepsParsedFields | src/main/java/com/flipkart/hbaseobjectmapper/HBObjectMapper.java:145-161 | the record returned keeps what `parseRowKey` set in every unmapped field |
| Deserialize.AbsentLeavesField | src/main/java/com/flipkart/hbaseobjectmapper/HBObjectMapper.java:152-155 | a missing or empty family, a missing or empty column, or an empty dynamic range leaves the field unchanged |
| Deserialize.SingleVersionRead | src/main/java/com/flipkart/hbaseobjectmapper/HBObjectMapper.java:184-189 | a single-version field reads the smallest timestamp's bytes; empty bytes leave it alone, others are decoded, a codec failure is `CodecError` |
| Deserialize.MultiVersionRead | src/main/java/com/flipkart/hbaseobjectmapper/HBObjectMapper.java:609-622 | a multi-version field gets every version under its own timestamp, empty bytes as null; it fails with `ConversionFailed` exactly when there is a version and either a version does not decode or the type has no value argument |
| Deserialize.SingleVersionRoundTrip | src/main/java/com/flipkart/hbaseobjectmapper/HBObjectMapper.java:182-189 | a non-null value the codec round-trips, written and read back, is set again |
| Deserialize.NonNullVersions | src/main/java/com/flipkart/hbaseobjectmapper/HBObjectMapper.java:446-449 | the versions that hold a value, unchanged |
| Deserialize.MultiVersionRoundTrip | src/main/java/com/flipkart/hbaseobjectmapper/HBObjectMapper.java:609-622 | a multi-version field written and read back has its non-null versions |
| Deserialize.ElementValue | src/main/java/com/flipkart/hbaseobjectmapper/HBObjectMapper.java:407 | an element's cell holds the codec's bytes for the element |
| Deserialize.PreservedInRange | src/main/java/com/flipkart/hbaseobjectmapper/HBObjectMapper.java:169-171 | preserving order, an element at an index below 0x7F000000 writes a qualifier inside the scanned range |
| Deserialize.PreservedOrder | src/main/java/com/flipkart/hbaseobjectmapper/HBObjectMapper.java:405 | preserving order, qualifiers ascend with the index |
| Deserialize.PreservedRange | src/main/java/com/flipkart/hbaseobjectmapper/HBObjectMapper.java:166-171 | preserving order, the scanned range is the written qualifiers in element order |
| Deserialize.DecodeWrittenElements | src/main/java/com/flipkart/hbaseobjectmapper/HBObjectMapper.java:174-176 | the written columns decoded in order are the elements again |
| Deserialize.DynamicRoundTrip | src/main/java/com/flipkart/hbaseobjectmapper/HBObjectMapper.java:166-180 | preserving order, a non-empty list held in a field whose type can hold an `ArrayList` is read back from its columns as the same list, element for element |
| Deserialize.NonListFieldNotRead | src/main/java/com/flipkart/hbaseobjectmapper/HBObjectMapper.java:171-178 | a dynamic field whose declared collection type cannot hold an `ArrayList` (a `Set`, a `LinkedList`) is never set: with decodable columns in its range the read fails with `IllegalArgument`, `field.set`'s uncaught exception; otherwise the record is unchanged |
| Deserialize.HighByteNotRead | src/main/java/com/flipkart/hbaseobjectmapper/HBObjectMapper.java:169-171 | a qualifier continuing past prefix+sep with a byte of 0x7F or more is never read |
| Deserialize.RangesDisjoint | src/main/java/com/flipkart/hbaseobjectmapper/HBObjectMapper.java:169-171 | two dynamic fields whose prefix+sep differ but have one length never read the same column |
| Deserialize.PrefixRange | src/main/java/com/flipkart/hbaseobjectmapper/HBObjectMapper.java:169-171 | the columns that start with prefix+sep, ascending: the range the scan is evidently meant to cover |
| Deserialize.PrefixRangeReadsWritten | src/main/java/com/flipkart/hbaseobjectmapper/HBObjectMapper.java:166-180 | with the corrected range (`DynamicReadCorrected`), every column a dynamic field writes is read for it |
| Deserialize.HighByteElementWritten | src/main/java/com/flipkart/hbaseobjectmapper/HBObjectMapper.java:401-410 | an element whose key part is "é" (C3 A9) is written under `def#` C3 A9 |
| Deserialize.HighByteElementLost | src/main/java/com/flipkart/hbaseobjectmapper/HBObjectMapper.java:166-180 | as written, reading that family leaves the field unset |
| Deserialize.HighByteElementReadCorrected | src/main/java/com/flipkart/hbaseobjectmapper/HBObjectMapper.java:166-180 | with the corrected range, the same read gives the element back |
| PutConversion.WriteAsPut | src/main/java/com/flipkart/hbaseobjectmapper/HBObjectMapper.java:472-487 | the row key is composed first, and its error wins; then the record's map, and its error; on success the `Put` has that row and the map's cells |
| PutConversion.WriteValueAsPut | src/main/java/com/flipkart/hbaseobjectmapper/HBObjectMapper.java:467-470 | a class that fails validation fails with that error; otherwise `writeValueAsPut0` |
| PutConversion.WriteValueAsPut0 | src/main/java/com/flipkart/hbaseobjectmapper/HBObjectMapper.java:472-487 | the loops give the `Put` the write function describes |
| PutConversion.AddFamilies | src/main/java/com/flipkart/hbaseobjectmapper/HBObjectMapper.java:474-486 | the family loop gives `FamilyCellMap`: each family that adds a cell its list, and no other family a list |
| PutConversion.AddFamily | src/main/java/com/flipkart/hbaseobjectmapper/HBObjectMapper.java:476-484 | one family's cells, `FamilyCells`: columns in ascending qualifier order |
| PutConversion.AddColumns | src/main/java/com/flipkart/hbaseobjectmapper/HBObjectMapper.java:476-484 | the column loop appends each column's cells in turn |
| PutConversion.AddVersions | src/main/java/com/flipkart/hbaseobjectmapper/HBObjectMapper.java:481-483 | the version loop adds a cell per version, in ascending timestamp order |
| PutConversion.VersionCellsSpec | src/main/java/com/flipkart/hbaseobjectmapper/HBObjectMapper.java:481-483 | a column's cells are exactly its versions |
| PutConversion.ColumnCellsSpec | src/main/java/com/flipkart/hbaseobjectmapper/HBObjectMapper.java:476-484 | the cells of some columns are exactly those columns' versions |
| PutConversion.FamilyCellsSpec | src/main/java/com/flipkart/hbaseobjectmapper/HBObjectMapper.java:474-486 | a family's cells are exactly the versions of its columns |
| PutConversion.FamilyCellsEmpty | src/main/java/com/flipkart/hbaseobjectmapper/HBObjectMapper.java:474-486 | a family adds no cell exactly when none of its columns has a version |
| PutConversion.ReadFromPut | src/main/java/com/flipkart/hbaseobjectmapper/HBObjectMapper.java:699-704 | an empty `Put`, or one with an empty row, is no record; otherwise a record, or the error, of the read of the `Put`'s own row |
| PutConversion.ReadValue | src/main/java/com/flipkart/hbaseobjectmapper/HBObjectMapper.java:673-679 | a class that fails validation fails with that error; without a row key the `Put`'s own row is read; with one, that row key, with its result or its error |
| PutConversion.ReadValueFromRowAndPut | src/main/java/com/flipkart/hbaseobjectmapper/HBObjectMapper.java:681-697 | a new record whose state or error is the read of the rebuilt map |
| PutConversion.FamilyCellMapToMap | src/main/java/com/flipkart/hbaseobjectmapper/HBObjectMapper.java:682-695 | the loops give `CellMap`, the map rebuilt from the `Put`'s family lists |
| PutConversion.PutFamilies | src/main/java/com/flipkart/hbaseobjectmapper/HBObjectMapper.java:684-695 | the family loop creates every family of the `Put`, even one without cells |
| PutConversion.PutCellsOf | src/main/java/com/flipkart/hbaseobjectmapper/HBObjectMapper.java:689-694 | the cell loop gives `RebuildFamily`: each cell at its qualifier and timestamp, the last one winning |
| PutConversion.RebuildFamilyLookup | src/main/java/com/flipkart/hbaseobjectmapper/HBObjectMapper.java:689-694 | the rebuilt family has a version at (q, t) exactly when some cell is there, with the last such cell's value; no column is left without a version |
| PutConversion.FamilyLookup | src/main/java/com/flipkart/hbaseobjectmapper/HBObjectMapper.java:476-484 | among a family's cells, the last at (q, t) holds the family's version there, and there is one exactly when the version exists |
| PutConversion.RebuildExact | src/main/java/com/flipkart/hbaseobjectmapper/HBObjectMapper.java:689-694 | cells that look up as a family rebuild that family less its version-less columns |
| PutConversion.FamilyRoundTrip | src/main/java/com/flipkart/hbaseobjectmapper/HBObjectMapper.java:474-486 | reading a family's cells back gives the family less its version-less columns |
| PutConversion.PutRoundTrip | src/main/java/com/flipkart/hbaseobjectmapper/HBObjectMapper.java:681-697 | rebuilding the `Put` that a column map is written as gives the map less its version-less columns and the families left empty |
| PutConversion.WriteThenRead | src/main/java/com/flipkart/hbaseobjectmapper/HBObjectMapper.java:472-487 | the `Put`'s row is the composed row key; reading it with that row key reads the record's map less its version-less columns; an empty row reads as no record, and a non-empty row with cells reads as that record or its error |
| Namespaces.Dao.constructor | src/main/java/com/flipkart/hbaseobjectmapper/NamespaceManager.java:87 | a new DAO of the creator, with no namespace set |
| Namespaces.Dao.SetNamespace | src/main/java/com/flipkart/hbaseobjectmapper/NamespaceManager.java:88 | the DAO's namespace becomes `ns` |
| Namespaces.NewDao | src/main/java/com/flipkart/hbaseobjectmapper/NamespaceManager.java:87-88 | `creator.get()` then `setNamespace`: a new DAO of that creator and record type, with the namespace set |
| Namespaces.Put | src/main/java/com/flipkart/hbaseobjectmapper/NamespaceManager.java:81-91 | the pair gets the DAO; every other pair keeps its DAO |
| Namespaces.Touch | src/main/java/com/flipkart/hbaseobjectmapper/NamespaceManager.java:81 | the outer `computeIfAbsent` adds the namespace and changes no pair |
| Namespaces.PutIfAbsent | src/main/java/com/flipkart/hbaseobjectmapper/NamespaceManager.java:44 | a record type already configured keeps its creator; a new one gets the given creator |
| Namespaces.NamespaceManager.constructor | src/main/java/com/flipkart/hbaseobjectmapper/NamespaceManager.java:17-22 | all four maps start empty |
| Namespaces.NamespaceManager.ConfigureDao | src/main/java/com/flipkart/hbaseobjectmapper/NamespaceManager.java:43-46 | the first creator for a type wins; returns the manager; the caches and the async side are unchanged |
| Namespaces.NamespaceManager.ConfigureAsyncDao | src/main/java/com/flipkart/hbaseobjectmapper/NamespaceManager.java:31-34 | the same for reactive DAOs; the sync side is unchanged |
| Namespaces.NamespaceManager.GetDaoFor | src/main/java/com/flipkart/hbaseobjectmapper/NamespaceManager.java:80-92 | a cached DAO is returned as is; without a creator `IllegalState`, and no DAO is cached for the pair; otherwise a new DAO from the creator, with the namespace set, is cached and returned; the async side is unchanged |
| Namespaces.NamespaceManager.GetAsyncDaoFor | src/main/java/com/flipkart/hbaseobjectmapper/NamespaceManager.java:57-69 | the same over the reactive cache; the sync side is unchanged |
| Namespaces.ConfiguredAsyncDao | src/test/java/com/flipkart/hbaseobjectmapper/NamespaceManagerTest.java:35-47 | after configuring a creator, the reactive DAO for any namespace exists, comes from that creator and has that namespace |
| Namespaces.UnconfiguredDao | src/test/java/com/flipkart/hbaseobjectmapper/NamespaceManagerTest.java:76-83 | with no creator configured, `getDaoFor` is `IllegalState` and caches nothing for the pair |
| Namespaces.SameDaoTwice | src/main/java/com/flipkart/hbaseobjectmapper/NamespaceManager.java:80-92 | two requests for one pair give the same instance, from the first creator configured |
| Fixtures.DuplicateColumnDiscovery | src/test/java/com/flipkart/hbaseobjectmapper/testcases/entities/ClassWithFieldNotMappedToHBColumn.java:8-14 | discovery skips `key` and keeps `f1`, then `f2`, both on f1:c1 |
| Fixtures.DuplicateColumnFixture | src/test/java/com/flipkart/hbaseobjectmapper/testcases/entities/ClassWithFieldNotMappedToHBColumn.java:10-14 | the class is rejected: `FieldsMappedToSameColumn` when its table declares `f1`, `ColumnFamilyNotInHBTable` when it does not |
| Fixtures.QuirkyColumns | src/test/java/com/flipkart/hbaseobjectmapper/testcases/entities/QuirkyEntity.java:22-26 | both dynamic fields build, in family `d`, column `key`, prefixes "1" and "2", defaults "#" and ":" |
| Fixtures.QuirkyReadsDoNotCross | src/test/java/com/flipkart/hbaseobjectmapper/testcases/entities/QuirkyEntity.java:22-26 | whatever family `d` holds, the columns `kvs` reads and those `kv2s` reads are disjoint |

## Left out

- Reflection is replaced by an explicit description of each class:
  - its fields with their generic types, modifiers and annotations;
  - its no-arg constructor;
  - its superclass chain.
- The reflective failures wrapped as `BadHBaseLibState` or `ConversionFailed` are not modelled. The one exception is the multi-version setter, whose codec failures the source itself wraps as `ConversionFailed`.
- `WrappedHBTable` and `AbstractHBDAO` are not part of this model. The table is a value holding its families with their max versions and its codec flags.
  - The duplicate-column fixture's table families are therefore a parameter.
  - The table name `test:citizens` that `NamespaceManagerTest.java` checks is not modelled.
- The concrete codec is abstract: `serialize`, `deserialize` and `canDeserialize` are parameters.
- `writeValueAsResult`, `readValue(Result)` and `isResultEmpty` are left out. So are HBase `Cell`/`Result` construction and the bulk list overloads. They assemble library objects.
- HBase's own checks when a `Put` is built (row length and the like) are not modelled.
- `ConcurrentHashMap` atomicity in `NamespaceManager` is not modelled. The manager is sequential.
- A creator is assumed to return a new DAO on each call. What `creator.get()` does inside a DAO is left out.
- `AsyncHBAdmin` and the tests that need a running store are left out.
- Exception messages are not modelled; errors are tags.
- `getFieldType`, `rowKeyToBytes` and `toIbw` have no members of their own. They are inlined where they are used.
- Deserialize.DynamicRoundTrip: holds only with `preserveOrder`, a non-empty list and fewer than 0x7F000000 elements:
  - an empty list writes nothing and reads back as an unset field;
  - without `preserveOrder`, elements with equal parts collapse.
  - a field whose declared type cannot hold an `ArrayList` fails to read (`Deserialize.NonListFieldNotRead`), although validation accepts any collection type.
- Deserialize.MultiVersionRoundTrip: versions holding null are not written, so they do not come back.
- PutConversion.PutRoundTrip: a column without versions, and a family left without columns, are lost through a `Put`.

## Findings

| source | as written | input that shows it | evidently intended | confidence | as-written member | corrected member |
|---|---|---|---|---|---|---|
| src/main/java/com/flipkart/hbaseobjectmapper/HBObjectMapper.java:166-180 | `convertDynamicColumn` scans `subMap(prefix+sep, prefix+sep+[0x7F])`, with `0x7F` = `Byte.MAX_VALUE` (line 81), under unsigned comparison. A written qualifier whose byte after `prefix+sep` is 0x7F or more is never read. | a dynamic field with the defaults (prefix `def`, separator `#`) holding one element whose key part is "é", UTF-8 `C3 A9`. It is written under `def#` C3 A9 and read back as an unset field. | every column that starts with `prefix+sep` is read back | not executed | Deserialize.HighByteElementLost | Deserialize.HighByteElementReadCorrected |

The scan as written is kept in `Deserialize.DynamicRange`, and
`Deserialize.ConvertDynamicColumn` uses it. The corrected scan is
`Deserialize.PrefixRange`, used by `Deserialize.DynamicReadCorrected`.
`Deserialize.PrefixRangeReadsWritten` proves that the corrected scan reads
every column a dynamic field writes.
