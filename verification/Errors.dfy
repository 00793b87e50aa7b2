/** Optional values, and the error values of src/common.rs that the modelled operations return. */
module Errors {

  datatype DbfsError = NotFound | AccessError | FileExists | NoSpace | NotEmpty | NoData

  datatype Option<+T> = None | Some(value: T)

  datatype Outcome<+T> = Ok(value: T) | Err(error: DbfsError)
}
