/** The optional result used for every operation of the library that aborts on bad input:
    `None` stands for the abort, `Some` for a normal return. */
module Options {

  datatype Option<T> = None | Some(value: T)

}
