/** The option type used for the script's "skip this file" outcomes. */
module Wrappers {

  datatype Option<+T> = None | Some(value: T)
}
