/** The failure-carrying result used wherever the modelled Python code raises
    (a ValueError from int(), an IndexError from indexing a split). */
module Wrappers {

  datatype Option<+T> = None | Some(value: T)
}
