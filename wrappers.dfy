/** Option and Result, for JavaScript's null/undefined values and for the
    converter's rejected inputs. */
module Wrappers {

  /** `None` stands for JavaScript's `null` or `undefined`. */
  datatype Option<+T> = None | Some(value: T)

  /** `Err` carries the message the converter shows instead of a result. */
  datatype Result<+T> = Ok(value: T) | Err(message: string)
}
