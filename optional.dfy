/** The absent-or-present value used for JSON `null`, a missing file and an
    unset module variable. */
module Optional {

  datatype Option<T> = None | Some(value: T)
}
