/** The option type standing for the nullable results of the store (`Student?`, `List<Student>?`). */
module Wrappers {

  datatype Option<+T> = None | Some(value: T)
}
