/**
 * The values a record holds, the Java types the mapper inspects, and the
 * pluggable codec that turns a value into bytes and back.
 */
module Codec {
  import opened Base
  import opened Bytes

  /** A class as reflection reports it. */
  datatype JClass = JClass(
    name: string,
    isPrimitive: bool,
    /** `Collection.class.isAssignableFrom(this)` */
    isCollection: bool,
    /** `this.isAssignableFrom(ArrayList.class)`: a field of this type can be set to an `ArrayList` */
    holdsArrayList: bool,
    /** `getDeclaredFields()`: each declared field's name and the name of its (erased) type */
    declaredFields: map<JString, string>)

  /** A field's generic type, `Field.getGenericType()`. */
  datatype JType =
    | ClassType(cls: JClass)
    | Parameterized(raw: JClass, args: seq<JType>)
    /** a type variable or wildcard, neither a `Class` nor a `ParameterizedType`; `bound` is its erasure */
    | TypeVariable(bound: JClass)

  /** `Field.getType()`: the erasure of the generic type. */
  function Erasure(t: JType): JClass
  {
    match t
    case ClassType(c) => c
    case Parameterized(raw, _) => raw
    case TypeVariable(b) => b
  }

  const STRING_CLASS := "java.lang.String"
  const LONG_CLASS := "java.lang.Long"
  const NAVIGABLE_MAP_CLASS := "java.util.NavigableMap"

  /** The contents of a field, or of an element of a collection. */
  datatype Value =
    | Null
    /** a value of a class without mapped structure (a `String`, a boxed number, …) */
    | Scalar(cls: string, content: Bytes)
    /** an instance whose own declared fields hold values (an element of a dynamic column) */
    | Obj(cls: string, fields: map<JString, Value>)
    /** a `NavigableMap<Long, V>`: timestamp to version */
    | VersionMap(versions: map<int, Value>)
    /** a `Collection`, in iteration order */
    | Items(items: seq<Value>)

  /** Codec flags as passed to the codec, `Map<String, String>`. */
  type Flags = map<JString, JString>

  /**
   * The pluggable codec. `serialize` answers `None` where it throws
   * `SerializationException`, `deserialize` where it throws
   * `DeserializationException`; `canDeserialize` never throws.
   */
  datatype Codec = Codec(
    serialize: (Value, Flags) -> Option<Bytes>,
    deserialize: (Bytes, JType, Flags) -> Option<Value>,
    canDeserialize: JType -> bool)

  /**
   * `valueToByteArray`: a null value has no bytes, any other value is
   * serialized, and a codec failure surfaces as `CodecError`.
   */
  function ValueToByteArray(codec: Codec, v: Value, flags: Flags): (r: Result<Option<Bytes>>)
    ensures r.Ok? && r.value.None? <==> v.Null?
    ensures r.Err? <==> !v.Null? && codec.serialize(v, flags).None?
    ensures r.Err? ==> r.error == CodecError
    ensures r.Ok? && !v.Null? ==> r.value == codec.serialize(v, flags)
  {
    if v.Null? then Ok(None)
    else
      match codec.serialize(v, flags)
      case None => Err(CodecError)
      case Some(b) => Ok(Some(b))
  }

  /**
   * `byteArrayToValue`: empty bytes stand for null without asking the codec;
   * a codec failure surfaces as `CodecError`.
   */
  function ByteArrayToValue(codec: Codec, b: Bytes, t: JType, flags: Flags): (r: Result<Value>)
    ensures |b| == 0 ==> r == Ok(Null)
    ensures r.Err? <==> |b| > 0 && codec.deserialize(b, t, flags).None?
    ensures r.Err? ==> r.error == CodecError
    ensures r.Ok? && |b| > 0 ==> Some(r.value) == codec.deserialize(b, t, flags)
  {
    if |b| == 0 then Ok(Null)
    else
      match codec.deserialize(b, t, flags)
      case None => Err(CodecError)
      case Some(v) => Ok(v)
  }

  /** The codec writes `v` as non-empty bytes and reads those bytes back as `v` when asked for type `t`. */
  predicate ReadsBack(codec: Codec, t: JType, flags: Flags, v: Value)
  {
    && codec.serialize(v, flags).Some?
    && |codec.serialize(v, flags).value| > 0
    && codec.deserialize(codec.serialize(v, flags).value, t, flags) == Some(v)
  }

  /** What `valueToByteArray` writes, `byteArrayToValue` reads back, for a value the codec round-trips. */
  lemma ValueRoundTrip(codec: Codec, t: JType, flags: Flags, v: Value)
    requires !v.Null? && ReadsBack(codec, t, flags, v)
    ensures ValueToByteArray(codec, v, flags).Ok?
    ensures ValueToByteArray(codec, v, flags).value.Some?
    ensures ByteArrayToValue(codec, ValueToByteArray(codec, v, flags).value.value, t, flags) == Ok(v)
  {
  }
}
