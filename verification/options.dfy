/** Optional values, used wherever the kernel returns a null pointer or a
    "no data" status, and wherever a parser can fail. */
module Options {

  datatype Option<+T> = None | Some(value: T)
}
