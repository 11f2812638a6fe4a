/** The Some/None datatype shared by the modules below: a JavaScript value that may be
    `null` (a personal best that does not exist) or not a number. */
module Optional {

  datatype Option<+T> = None | Some(value: T)

}
