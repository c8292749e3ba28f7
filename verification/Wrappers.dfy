// Optional results. `None` stands for JavaScript's `undefined`, for `NaN`, or for a call that
// throws; the function that returns it says which.
module Wrappers {
  datatype Option<+T> = None | Some(value: T)
}
