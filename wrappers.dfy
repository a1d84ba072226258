/** Optional values, shared by the modules that model a C function returning
    "nothing" through a null pointer, a zero or a failure code. */
module Wrappers {

  datatype Option<T> = None | Some(value: T)
  {
    /** The value, or d when there is none. */
    function GetOr(d: T): (r: T)
      ensures this.Some? ==> r == value
      ensures this.None? ==> r == d
    {
      if this.Some? then value else d
    }
  }
}
