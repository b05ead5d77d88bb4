/** The optional value used for record fields that may never be assigned
    (a JavaScript property that is still `undefined`) and for the nullable
    `tag` variable of the handlers. */
module Wrappers {
  datatype Option<+T> = None | Some(value: T)
}
