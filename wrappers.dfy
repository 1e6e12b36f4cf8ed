/** The optional value used for a record's borrow date and for "no digits found". */
module Wrappers {

  datatype Option<+T> = None | Some(value: T)
}
