/** An optional value: a key that may or may not have arrived, a parse that may fail. */
module Optional {

  datatype Option<+T> = None | Some(value: T)

}
