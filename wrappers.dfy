/** The Some/None datatype: None stands for an element or attribute the page does not have,
    or for a conversion that raised. */
module Wrappers {

  datatype Option<+T> = None | Some(value: T)
}
