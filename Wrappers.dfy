module Wrappers {

  /** A value that may be missing: JavaScript's `undefined`/`null` results
      (a failed `find`, an unset selection, a cache miss). */
  datatype Option<+T> = None | Some(value: T)
}
