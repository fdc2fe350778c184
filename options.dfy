/** The "maybe a value" wrapper used throughout the model: the source's empty
    object `{}` (no node found, nothing focused) is `None`. */
module Options {
  datatype Option<+T> = None | Some(value: T)
}
