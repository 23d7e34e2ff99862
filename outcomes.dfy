/** Values and failures shared by the rest of the model: the Python exceptions
    the wrapper can raise, and a result type that carries either a value or one
    of them. */
module Outcomes {

  datatype Option<T> = None | Some(value: T)

  /** A Python dictionary key as used by a subscription `x[k]`: the wrapper
      subscripts with the string 'connectionString' and with the integer 0. */
  datatype PyKey = StrKey(name: string) | IntKey(index: int)

  /** The exceptions that leave the wrapper's functions. */
  datatype Error =
    | AzureError(message: string)  // azure.core.exceptions.AzureError, raised by the validations
    | IndexError                   // a list or string subscript out of range
    | KeyError(key: PyKey)         // a dictionary lookup of a missing key
    | TypeError                    // subscripting a value that does not support that subscript
    | JsonDecodeError              // json.loads given text that is not JSON
    | OdbcError(cause: Error)      // pyodbc.Error raised around the failure it caught

  datatype Result<T> = Ok(value: T) | Err(error: Error)
}
