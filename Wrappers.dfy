/** The nullable values of the widget (`Date | null`, the result of `Array.find`). */
module Wrappers {

  datatype Option<+T> = None | Some(value: T)
}
