/** Optional values, as Python's `Optional[...]` and Rust's `Option<...>` use them. */
module Wrappers {

  datatype Option<+T> = None | Some(value: T)

  /** Applies `f` to the value inside `o`, if there is one. */
  function MapOption<T, U>(o: Option<T>, f: T -> U): (r: Option<U>)
    ensures r.Some? <==> o.Some?
    ensures o.Some? ==> r.value == f(o.value)
  {
    match o
    case None => None
    case Some(v) => Some(f(v))
  }
}
