/** The optional value used for the JavaScript `null` / `undefined` results of the source. */
module Wrappers {

  datatype Option<+T> = None | Some(value: T)
}
