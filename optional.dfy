/** The usual Some/None datatype, used for lookups that may find nothing and for
    calls that may raise instead of returning. */
module Optional {

  datatype Option<+T> = None | Some(value: T)
}
