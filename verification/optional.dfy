/** The "value or nothing" wrapper the model uses wherever the C# source
    returns `null` (a missing match, the end of the input). */
module Optional {

  datatype Option<+T> = None | Some(value: T)
}
