/** The null-or-value convention of the JavaScript source (`match ? match[1] : null`). */
module Wrappers {

  datatype Option<T> = None | Some(value: T)

}
