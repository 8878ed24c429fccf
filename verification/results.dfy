/** Optional values, results and the errors the conversion layer raises.

The Python code signals every failure with an exception. Each exception it
raises on purpose becomes one constructor of `Error`.
 */
module Results {

  /** Python's `None` versus a present value. */
  datatype Option<+T> = None | Some(value: T)

  /** The errors of the conversion layer, one per `raise` in the source; each
      comment names the Python exception class raised for it. */
  datatype Error =
    | NoFileName                          // ValueError: no name given to infer a format from
    | UnrecognisedFileName(name: string)  // ValueError: a name without extension that no rule recognises
    | PngNeedsOutputFile                  // ValueError: png rendering has no in-memory form
    | EmptyInputType                      // TypeError: the binding misbehaves on an empty input format
    | ParseFailed(inputName: string)      // Exception: the binding found no molecule to read
    | ProcessFailed(returnCode: int)      // CalledProcessError: the program exited with a non-zero status
    | ConversionFailed(stderr: string)    // Exception: obabel reported that it converted nothing
    | BadDirection(readwrite: string)     // ValueError: a format listing other than read or write
    | MalformedCatalog(line: string)      // Exception: a listing line that is not `code -- description`;
                                          // the source's message names no line, the model keeps it

  /** A value, or the error that was raised instead. */
  datatype Result<+T> = Ok(value: T) | Err(error: Error)
}
