/** The optional value used wherever the program can fail to produce one
    (an index outside a Python tuple raises IndexError). */
module Wrappers {

  datatype Option<+T> = None | Some(value: T)
}
