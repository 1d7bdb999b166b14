/** The optional-value datatype used wherever the script tests a value for
    presence (a fetched sheet, an access token). */
module Wrappers {

  datatype Option<+T> = None | Some(value: T)
}
