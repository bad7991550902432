/** Small shared datatypes: an optional value, and who wrote a message. */
module Wrappers {
  /** A browser `prompt` answer: `None` when the dialog is cancelled (the source's `null`). */
  datatype Option<+T> = None | Some(value: T)
}

module Roles {
  /** The `sender` field of a message: `'user' | 'bot'`. */
  datatype Sender = User | Bot
}
