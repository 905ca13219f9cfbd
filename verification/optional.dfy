/** The optional value used for a row's parent link and for "no match yet" results. */
module Optional {

  datatype Option<+T> = None | Some(value: T)

}
