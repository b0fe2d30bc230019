/** The optional value used across the model: `None` stands for JavaScript's
    `undefined`, `null` or `NaN`, wherever the program can meet one. */
module Wrappers {

  datatype Option<+T> = None | Some(value: T)
}
