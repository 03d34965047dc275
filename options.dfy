/** The optional value used for an absent map entry and for an empty grid cell. */
module Options {

  datatype Option<+T> = None | Some(value: T)
}
