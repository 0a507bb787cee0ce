/** The optional value used for the pending-delete selection (`number | null`). */
module Wrappers {

  datatype Option<+T> = None | Some(value: T)
}
