/** The optional value used for results that may be missing: a reply that never
    arrived, a call the library cannot encode. */
module Options {

  datatype Option<+T> = None | Some(value: T)

}
