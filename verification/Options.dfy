/** Optional values and results shared by the component models. */
module Options {

  datatype Option<+T> = None | Some(value: T)

  datatype Result<+T, +E> = Ok(value: T) | Err(error: E)

  /** Moves an index found in a suffix back into the string the suffix was cut from. */
  function Shift(index: Option<nat>, offset: nat): Option<nat> {
    match index
    case None => None
    case Some(i) => Some(i + offset)
  }
}
