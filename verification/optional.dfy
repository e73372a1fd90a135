/** A JavaScript value that may be absent (`null` or `undefined`). */
module Optional {

  datatype Option<+T> = None | Some(value: T)
}
