/** Optional values: a registry email or URL that may be absent (Python `None`),
    and the outcome of the semantic collaborator, which may fail. */
module Wrappers {

  datatype Option<+T> = None | Some(value: T)
}
