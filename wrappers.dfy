/** The optional value used wherever app.py returns `None` for "no result". */
module Wrappers {

  datatype Option<+T> = None | Some(value: T)
}
