/** Optional values, used for the results of decoding and for errors. */
module Options {

  datatype Option<+T> = None | Some(value: T)

}
