/** The usual optional value. `None` stands for a Rust panic where the model
    needs to say that an operation (an index, an unsigned subtraction, a
    slice) would have failed. */
module Wrappers {

  datatype Option<+T> = None | Some(value: T)
}
