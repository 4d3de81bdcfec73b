/** Failure-compatible wrappers and the error tags of the mapping engine. */
module Base {

  datatype Option<+T> = None | Some(value: T)

  /** The exceptions the mapper throws, as tags (their messages are not modelled). */
  datatype Error =
    // schema errors, raised by validation and by building a column descriptor
    | NoEmptyConstructor
    | EmptyConstructorInaccessible
    | ColumnFamilyNotInHBTable
    | FieldsMappedToSameColumn
    | MissingHBColumnFields
    | MappedColumnCantBeTransient
    | MappedColumnCantBeStatic
    | MappedColumnCantBePrimitive
    | UnsupportedFieldType
    | IncompatibleFieldForHBColumnMultiVersion
    | AmbiguousColumnDefinition
    | DuplicateCodecFlagForColumn
    | IllegalArgument
    | ClassCast
    | ArrayIndexOutOfBounds
    // structural and codec errors, raised while converting
    | AllHBColumnFieldsNull
    | FieldAnnotatedWithHBColumnMultiVersionCantBeEmpty
    | CodecError
    | ConversionFailed
    | RowKeyCantBeComposed
    | RowKeyCantBeEmpty
    | RowKeyCouldNotBeParsed
    | ObjectNotInstantiatable
    | NullPointer
    // raised by the namespace manager
    | IllegalState

  /** The result of a check that throws or returns normally. */
  datatype Outcome = Pass | Fail(error: Error)

  datatype Result<+T> = Ok(value: T) | Err(error: Error) {
    predicate IsFailure() {
      Err?
    }

    function PropagateFailure<U>(): Result<U>
      requires Err?
    {
      Err(error)
    }

    function Extract(): T
      requires Ok?
    {
      value
    }
  }
}
