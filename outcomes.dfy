/** Results of the service operations and optional values of lookups. */
module Outcomes {

  /** What a service call ends with: success with a value, or one of the three
      failures the services raise (RuntimeException "não encontrado",
      IllegalArgumentException for a duplicate name, IllegalStateException
      when a deletion is blocked by dependent rows). */
  datatype Result<T> = Ok(value: T) | NotFound | DuplicateName | HasDependents

  /** java.util.Optional, and a Java reference that may be null. */
  datatype Option<T> = None | Some(value: T)
}
