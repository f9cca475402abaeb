/** The optional-value datatype used wherever the modelled code can fail or find nothing. */
module Options {

  datatype Option<+T> = None | Some(value: T)

}
