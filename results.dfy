/** Option and Result types shared by the model. */
module Results {

  /** A value that may be missing; `None` stands for the pandas missing value. */
  datatype Option<+T> = None | Some(value: T)

  /** The outcome of a pandas lookup: a value, or the `KeyError` raised for an absent label. */
  datatype Result<+T> = Ok(value: T) | KeyError(key: string)
}
