/** Optional values: JavaScript's `undefined`/`null` and `value ?? fallback`. */
module Options {

  datatype Option<+T> = None | Some(value: T) {

    /** The value when present, otherwise the fallback (`value ?? fallback`). */
    function GetOr(fallback: T): T {
      match this
      case Some(v) => v
      case None => fallback
    }
  }
}
