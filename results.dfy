/** The errors a query can end with, and the result type carrying them. */
module Results {

  datatype QueryError =
    | UnsupportedQuery                           // "unsupported query"
    | InvalidSqlQuery                            // "invalid SQL query"
    | KeyNotFound                                // "key not found"
    | HashKeyNotFound(key: string)               // "key '<key>' not found"
    | FieldNotFound(field: string, key: string)  // "field '<field>' not found for key '<key>'"
    | ConditionNotMet(field: string, expected: string)  // "condition '<field>=<expected>' not met"
    | ExistsCheckFailed(message: string)         // "error checking if key exists: <message>"
    | StoreFailure(message: string)              // the store's own error, passed on unchanged
    | SlicePanic                                 // the Go runtime's "slice bounds out of range" panic

  datatype Result<T> = Ok(value: T) | Err(error: QueryError)
}
