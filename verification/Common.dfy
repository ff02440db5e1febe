/** Types shared by the modules of the model. */
module Common {

  /** A possibly absent value: a C pointer that may be NULL. */
  datatype Option<+T> = None | Some(value: T)
}
