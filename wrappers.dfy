/** The optional value used for Python's `None` (a missing header, an omitted
    `outputs` list, a JSON null in the result maps). */
module Wrappers {

  datatype Option<+T> = None | Some(value: T)
}
