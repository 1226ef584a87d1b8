/** An optional value; the game uses it for the power-up, which is absent
    most of the time, and for the outcome of the item sampler. */
module Wrappers {

  datatype Option<+T> = None | Some(value: T)
}
