/** Optional values: `None` stands for a Python call that raises instead of returning. */
module Options {

  datatype Option<T> = None | Some(value: T)
}
