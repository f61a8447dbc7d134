/** Optional values: a Kotlin nullable (`T?`) and a lookup that may find nothing. */
module Options {

  datatype Option<+T> = None | Some(value: T) {

    /** The value in Some, or `default` for None (Kotlin's elvis operator `?:`). */
    function GetOr(default: T): T {
      match this
      case Some(v) => v
      case None => default
    }
  }
}
