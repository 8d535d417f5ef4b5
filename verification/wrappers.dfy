/** Failure-carrying results and the integer limits of the C interface. */
module Wrappers {

  /** An optional value; `None` stands for a NULL pointer argument. */
  datatype Option<T> = None | Some(value: T)

  /** The outcome of a read that copies a value out (`get_at`, `current_value`). */
  datatype Result<T> = Ok(value: T) | Fail

  /** The C status codes `OK` (0) and `ERR` (-1). */
  datatype Status = OK | ERR

  /** The largest value of the C `int` that handles are cast to. */
  const INT_MAX: int := 0x7fff_ffff

  /** The handle `add` returns when it fails (the C `ERR`). */
  const ERR_HANDLE: int := -1
}
