/** The optional result used where the C code returns NULL or false to signal
    "nothing". */
module Options {

  datatype Option<+T> = None | Some(value: T)
}
