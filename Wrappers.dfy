/** A missing value: pandas' NaN / NaT and Python's "no result". */
module Wrappers {

  datatype Option<+T> = None | Some(value: T)

}
