/** The optional value used throughout the model: a parse that may fail, a
    connection that may not have produced a digest, a payload that is only
    built when validation succeeds. */
module Options {

  datatype Option<+T> = None | Some(value: T)

}
