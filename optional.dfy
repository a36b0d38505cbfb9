/** The optional value that stands for Go's nil pointer results. */
module Optional {

  datatype Option<+T> = None | Some(value: T)
}
