/** The optional value used for every link of a node: `None` plays the part of
    a null reference. */
module Optional {

  datatype Option<+T> = None | Some(value: T)

}
