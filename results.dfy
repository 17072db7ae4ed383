/** Failure-carrying values for the errors that the masker and the command line throw. */
module Results {

  datatype Option<T> = None | Some(value: T)

  datatype Result<T> = Success(value: T) | Failure(error: Error)

  /** One constructor per `throw` of the program. */
  datatype Error =
    | NoExtension(input: string)             // the name contains no '.'
    | EmptyExtension(input: string)          // the name ends in '.'
    | UnsupportedExtension(extension: string)
    | UnsupportedFormat                      // the library's `to` check
    | HeightTooSmall
    | WidthTooSmall
    | ImageTooSmall                          // occupyHeight < 1
}
