/** Values that may be absent: null pointers and failed lookups of the source. */
module Options {
  datatype Maybe<T> = Nothing | Just(value: T)
}
