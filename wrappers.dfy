/** A nullable value: Java's null reference and Ruby's nil become `None`. */
module Wrappers {
  datatype Option<+T> = None | Some(value: T)
}
