/** The optional-value datatype used for every extracted field: `None` is the
    source's `null` ("not found"), `Some(v)` a found value. */
module Wrappers {

  datatype Option<+T> = None | Some(value: T)
}
