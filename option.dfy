/** The optional value both prototypes express with `null`/`undefined`. */
module Options {

  datatype Option<+T> = None | Some(value: T)
}
