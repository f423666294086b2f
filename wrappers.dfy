/**
 * Option, for the nullable values of the C# source and for a command that
 * could not be sent. Thrown errors become branches that change nothing.
 */
module Wrappers {

  datatype Option<+T> = None | Some(value: T)
}
