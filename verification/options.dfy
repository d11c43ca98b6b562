/** The optional value used for the allocator's `Option<Block>` slots and for
    search results that may find nothing. */
module Options {

  datatype Option<+T> = None | Some(value: T)
}
