/** An optional value, standing for a JavaScript value that may be `null`. */
module Optional {

  datatype Option<T> = None | Some(value: T)
}
