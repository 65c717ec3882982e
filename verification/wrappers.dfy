/** The Option datatype: a value that may be undefined. It stands for the
    NaN / NULL cells of the dashboard's data frames. */
module Wrappers {

  datatype Option<+T> = None | Some(value: T)
}
