/** A value that may be missing: JavaScript's `undefined`/`null` next to a real value. */
module Options {

  datatype Option<T> = None | Some(value: T) {

    /** `x || fallback` for a value that is truthy whenever it is present (arrays). */
    function GetOr(fallback: T): T {
      match this
      case Some(v) => v
      case None => fallback
    }
  }
}
