/** The optional value used throughout the model: `None` stands for JavaScript's
    `null`, `false` or `NaN` wherever the source uses one of those as "no value". */
module Wrappers {

  datatype Option<+T> = None | Some(value: T)
}
