/** The optional value returned by every hit test (Rust's `Option`). */
module Wrappers {

  datatype Option<+T> = None | Some(value: T)

  /** `Option::map`. */
  function MapOption<T, U>(o: Option<T>, f: T -> U): (r: Option<U>)
    ensures r.Some? <==> o.Some?
  {
    if o.Some? then Some(f(o.value)) else None
  }
}
