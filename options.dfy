/** Optional values: the source's `undefined` arguments and the empty-queue pop. */
module Options {

  datatype Option<+T> = None | Some(value: T)
}
