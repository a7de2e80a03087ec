/** Optional values: the model's stand-in for JavaScript's `undefined`/`null`
    and for Prisma's nullable columns. */
module Wrappers {

  datatype Option<+T> = None | Some(value: T) {

    /** `x || d` / `x ?? d` on an optional value. */
    function GetOr(default: T): T {
      match this
      case Some(v) => v
      case None => default
    }
  }
}
