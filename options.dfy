/** Java's nullable references and Optional<T>, as a value. */
module Options {

  datatype Option<+T> = None | Some(value: T)
}
