/** The outcomes a storage call can have: a value that may be missing, and a value or an error. */
module Wrappers {

  datatype Option<+T> = None | Some(value: T)

  /** The errors the storage layer raises. */
  datatype Error =
    | QueryError       // outside the dialect, or not something this store can do
    | UnknownField     // a field the schema does not have
    | DuplicateKey     // a key or a unique group of fields is taken
    | StorageError     // any other constraint of the database
    | InvalidRecord    // the record an upsert builds does not fit the schema
    | RecordLost       // the record written cannot be read back
    | NotFound         // what was asked for is not there
    | ProjectExists    // a project's name or members cannot be stored
    | Forbidden        // not allowed to the one who asks

  datatype Result<+T> = Ok(value: T) | Err(error: Error)
}
