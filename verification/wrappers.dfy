/** The one failure-carrying datatype the model needs: `None` stands for a
    Rust panic (a failed `assert!`, a bad string slice) wherever a value
    would otherwise have been produced. */
module Wrappers {

  datatype Option<+T> = None | Some(value: T)
}
