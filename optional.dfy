/** A value that may be missing: an absent cache entry, NaN from parseInt, no qualifying pair. */
module Optional {
  datatype Option<T> = None | Some(value: T)
}
