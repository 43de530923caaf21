/** The optional value used for nullable fields and absent request values. */
module Options {

  datatype Option<+T> = None | Some(value: T)

}
