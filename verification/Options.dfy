/** The two result shapes the models share: a value that may be absent, and a value or an error. */
module Options {

  datatype Option<+T> = None | Some(value: T)

  datatype Result<+T> = Ok(value: T) | Err(error: string)
}
