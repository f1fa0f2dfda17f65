/** The optional value returned where the original returns an object or `nil`. */
module Optional {

  datatype Option<+T> = None | Some(value: T)
}
