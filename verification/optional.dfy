/** The absent-or-present value used for optional schema fields and for lookups that may find nothing. */
module Optional {

  datatype Option<+T> = None | Some(value: T)
}
