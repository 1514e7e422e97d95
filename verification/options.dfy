/** A value that may be absent. The C++ code signals absence with return
    codes and the `-INFINITY` sentinel; the model uses `None` instead. */
module Options {

  datatype Option<+T> = None | Some(value: T)
}
