/** Option stands for a JavaScript value that may be absent: `undefined`,
    `false` returned in place of a list, or `NaN` in place of a number. */
module Wrappers {

  datatype Option<+T> = None | Some(value: T)
}
