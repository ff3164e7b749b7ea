/** An optional value: a query argument or JSON key that may be absent,
    a parse that may fail, a deadline that may be unset. */
module Options {

  datatype Option<+T> = None | Some(value: T)
}
