/** The conventional Some/None datatype, used for lookups that may miss and for
    connections that end without a response. */
module Optional {

  datatype Option<+T> = None | Some(value: T)

}
