/** The absent-or-present result that `Array.prototype.find` gives in the
    JavaScript resolvers of src/index.js (`undefined` or the element found). */
module Wrappers {

  datatype Option<+T> = None | Some(value: T)
}
