/** The optional value used where the game returns `null` (no hint, no parse). */
module Wrappers {

  datatype Option<T> = None | Some(value: T)
}
