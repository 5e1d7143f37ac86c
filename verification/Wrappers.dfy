/** What all modules use: an optional value; None also stands for an error that the program reports instead of
    returning one. */
module Wrappers {
  datatype Option<+T> = None | Some(value: T)

  /** The null address. */
  const NULL := -1
  /** The end of a string. */
  const EOS := '\0'
}
