/** The optional-value wrapper used for Python's `None` results and for
    operations that raise. */
module Wrappers {

  datatype Option<+T> = None | Some(value: T)

}
