/** The JavaScript `null`/`undefined` results of the application, as a value. */
module Optional {

  datatype Option<+T> = None | Some(value: T)
}
