/** An optional value: `None` stands for the error return the source treats
    as "not there". */
module Options {
  datatype Option<+T> = None | Some(value: T)
}
