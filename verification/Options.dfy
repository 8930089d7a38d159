/** The usual optional value; `None` stands for a kernel panic or an absent result. */
module Options {
  datatype Option<+T> = None | Some(value: T)
}
