/** Optional values and results with an error, as the Python and TypeScript code
    returns them: `None`/`undefined`, or a raised exception carrying a message. */
module Wrappers {

  datatype Option<+T> = None | Some(value: T)

  datatype Result<+T> = Ok(value: T) | Err(message: string)
}
