/**
 * Row keys: `composeRowKey` (the record's own key, checked and serialized
 * with the table's codec flags) and `bytesToRowKey` (the bytes read back as
 * the type the record's `composeRowKey` declares).
 */
module RowKey {
  import opened Base
  import opened Bytes
  import opened Codec
  import opened Schema
  import opened Serialize

  /** What the record's own `composeRowKey()` does: it throws, or returns a key and the key's `toString()`. */
  datatype RowKeyOutcome = Threw | Returned(key: Value, text: JString)

  /**
   * The record class's own row-key code, which the mapper calls but does not
   * define: the declared return type of `composeRowKey`, `composeRowKey` on
   * a record state, and `parseRowKey` on a freshly constructed instance
   * (the state it leaves, or `None` when it throws).
   */
  datatype RowKeyCode = RowKeyCode(
    keyType: JType,
    compose: RecordState -> RowKeyOutcome,
    parse: Value -> Option<RecordState>)

  /**
   * `composeRowKey`: a throwing `composeRowKey()` is reported as
   * `RowKeyCantBeComposed`; a null key or one whose text is empty as
   * `RowKeyCantBeEmpty`; any other key is serialized with the table's flags.
   */
  function ComposeRowKey(codec: Codec, table: HBTable, code: RowKeyCode, state: RecordState): (r: Result<Bytes>)
    ensures code.compose(state).Threw? ==> r == Err(RowKeyCantBeComposed)
    ensures code.compose(state).Returned? && (code.compose(state).key.Null? || code.compose(state).text == [])
      ==> r == Err(RowKeyCantBeEmpty)
    ensures r.Ok? ==> (
      && code.compose(state).Returned?
      && !code.compose(state).key.Null?
      && Some(r.value) == codec.serialize(code.compose(state).key, table.codecFlags))
    ensures code.compose(state).Returned? && !code.compose(state).key.Null? && code.compose(state).text != [] ==>
      r == (match codec.serialize(code.compose(state).key, table.codecFlags)
            case None => Err(CodecError)
            case Some(b) => Ok(b))
    ensures r.Err? ==> r.error in {RowKeyCantBeComposed, RowKeyCantBeEmpty, CodecError}
  {
    match code.compose(state)
    case Threw => Err(RowKeyCantBeComposed)
    case Returned(key, text) =>
      if key.Null? || text == [] then Err(RowKeyCantBeEmpty)
      else
        var b :- ValueToByteArray(codec, key, table.codecFlags);
        Ok(b.value)
  }

  /** `bytesToRowKey`: the bytes read as the declared key type with the table's flags. */
  function BytesToRowKey(codec: Codec, table: HBTable, code: RowKeyCode, rowKeyBytes: Bytes): (r: Result<Value>)
    ensures |rowKeyBytes| == 0 ==> r == Ok(Null)
    ensures r.Err? <==> |rowKeyBytes| > 0 && codec.deserialize(rowKeyBytes, code.keyType, table.codecFlags).None?
    ensures r.Ok? && |rowKeyBytes| > 0 ==> Some(r.value) == codec.deserialize(rowKeyBytes, code.keyType, table.codecFlags)
  {
    ByteArrayToValue(codec, rowKeyBytes, code.keyType, table.codecFlags)
  }

  /**
   * A key the codec round-trips comes back from its bytes unchanged: what
   * `composeRowKey` writes, `bytesToRowKey` reads as the same key.
   */
  lemma RowKeyRoundTrip(codec: Codec, table: HBTable, code: RowKeyCode, state: RecordState)
    requires code.compose(state).Returned? && code.compose(state).text != []
    requires !code.compose(state).key.Null? && ReadsBack(codec, code.keyType, table.codecFlags, code.compose(state).key)
    ensures ComposeRowKey(codec, table, code, state).Ok?
    ensures BytesToRowKey(codec, table, code, ComposeRowKey(codec, table, code, state).value) == Ok(code.compose(state).key)
  {
    ValueRoundTrip(codec, code.keyType, table.codecFlags, code.compose(state).key);
  }
}
