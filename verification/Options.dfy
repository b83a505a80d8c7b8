/** The optional value used wherever the program either has something or has nothing:
    a dictionary lookup that hits or misses, a file that parsed or did not, a dialog that
    returned a path or was cancelled. */
module Options {

  datatype Option<+T> = None | Some(value: T)

}
