/** The optional value returned by the field's coordinate-taking operations:
    None stands for "no such cell". */
module Optional {

  datatype Option<+T> = None | Some(value: T)
}
