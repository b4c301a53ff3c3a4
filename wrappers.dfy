/** A nullable value: the model of TypeScript's `T | null`. */
module Wrappers {

  datatype Option<+T> = None | Some(value: T)
}
