/** The optional value used where the program has "no value" or a failed parse. */
module Options {

  datatype Option<T> = None | Some(value: T)

}
