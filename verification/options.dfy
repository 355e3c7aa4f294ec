/** An optional value, used where the modelled Python code returns `None`
    or a "not found" marker. */
module Options {

  datatype Option<+T> = None | Some(value: T)

}
