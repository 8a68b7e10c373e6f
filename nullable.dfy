/** A C# reference that may be null. */
module Nullables {

  datatype Nullable<+T> = Null | NonNull(value: T) {

    /** The C# `x ?? fallback`. */
    function OrElse(fallback: T): (r: T)
      ensures NonNull? ==> r == value
      ensures Null? ==> r == fallback
    {
      match this
      case NonNull(v) => v
      case Null => fallback
    }
  }
}
