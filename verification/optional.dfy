/** Values that may be missing: a field the lookup service left out of its
    answer, a date that does not parse, a position with no separator. */
module Optional {

  datatype Option<T> = None | Some(value: T)

  /** What the source's `x || ""` reads for a string that may be missing. */
  function ValueOr<T>(o: Option<T>, fallback: T): T {
    if o.Some? then o.value else fallback
  }
}
