/** The optional result that the allocation functions return: `None` stands
    for the "no usage data for this item" outcome. */
module Wrappers {

  datatype Option<+T> = None | Some(value: T)
}
