/** The optional result used throughout: `None` stands for the source's nil, or for a trap where a member says so. */
module Options {

  datatype Option<+T> = None | Some(value: T)
}
