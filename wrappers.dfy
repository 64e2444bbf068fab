/** Python's `None` next to a value: a spreadsheet cell left empty (NaN), an entity not yet
    extracted, a `number_index` not yet bound. */
module Wrappers {

  datatype Option<+T> = None | Some(value: T)
}
