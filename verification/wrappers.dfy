/** The optional value used for a game's winner and a search's chosen move. */
module Wrappers {
  datatype Option<+T> = None | Some(value: T)
}
