/** The optional value used for the scripts' failure paths (an IndexError,
    a KeyError, a `None` signature). */
module Options {

  datatype Option<+T> = None | Some(value: T)

}
