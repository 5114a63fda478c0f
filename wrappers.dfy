/** Kotlin's nullable values (`T?`) and the elvis operator `?:`. */
module Wrappers {

  datatype Option<+T> = None | Some(value: T) {

    /** `this ?: default` */
    function GetOr(default: T): T {
      if Some? then value else default
    }

    /** `this ?: other`, where `other` is itself nullable */
    function Or(other: Option<T>): Option<T> {
      if Some? then this else other
    }
  }
}
