/** An optional value: NULL pointers and "no value passed back". */
module Optional {

  datatype Option<T> = None | Some(value: T)
}
