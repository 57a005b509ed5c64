/** Absence of a value. Python's `None`, returned by `_query` for a node
    that lies outside the queried range, is `None` here; every `Node`
    object, whatever its `val`, is truthy in Python and is `Some`. */
module Wrappers {

  datatype Option<+T> = None | Some(value: T)
}
