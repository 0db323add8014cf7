/** Option, the model's rendering of a nullable value (C# `T?`, JavaScript `null`/`undefined`). */
module Wrappers {

  datatype Option<+T> = None | Some(value: T) {

    /** The value, or `default` when absent (C# `??`). */
    function GetOr(default: T): T
    {
      match this
      case Some(v) => v
      case None => default
    }

    /** This value when present, otherwise `other` (C# `a ?? b` on two nullables). */
    function OrElse(other: Option<T>): Option<T>
    {
      if Some? then this else other
    }
  }
}
