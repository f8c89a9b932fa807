/** Python's `None`-or-value, as used for the stored transcription. */
module Wrappers {

  datatype Option<+T> = None | Some(value: T)
}
