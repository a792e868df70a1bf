/** The exceptions the core raises, one constructor per kind, carrying what the message names. */
module Errors {

  datatype Error =
      /** `InvalidOperationException("'X' is not supported.")` for an expression node or method outside the supported set. */
    | NotSupported(nodeType: string)
      /** `KeyNotFoundException` from a dictionary indexer. */
    | KeyNotFound(key: string)
      /** `ArgumentException` from `Dictionary.Add` or `ToDictionary` on a key that is already present. */
    | DuplicateKey(key: string)
      /** `ArgumentNullException` from `Regex.Replace` given a null input. */
    | ArgumentNull
      /** `InvalidCastException` from the sort-key extractor when the body is not a member access. */
    | InvalidCast
      /** `InvalidOperationException("'path' is not a supported format.")`. */
    | UnsupportedFormat(path: string)
      /** `InvalidOperationException("'field' was not found in 'table'.")`. */
    | FieldNotFound(fieldName: string, table: string)
      /** `Enumerable.Single` found no element matching. */
    | NoMatchingElement
      /** `Enumerable.Single` found more than one element matching. */
    | MoreThanOneMatchingElement
      /** `InvalidOperationException("Could not convert V to P (T.p).")`. */
    | ConversionFailed(valueType: string, propertyType: string, recordType: string, propertyName: string)
      /** `OverflowException` from `Convert.ToInt32` on an object id outside the 32-bit range. */
    | Overflow(value: int)
}
