/** The optional value used for the food cell and for search results. */
module Options {

  datatype Option<+T> = None | Some(value: T)
}
