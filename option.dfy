/** An optional value: JavaScript's `null` / `undefined` for a missing id, index or element. */
module Opt {
  datatype Option<+T> = None | Some(value: T)

  /** The calls an optional callback result stands for: none, or exactly one. */
  function Log<T>(o: Option<T>): (r: seq<T>)
    ensures |r| <= 1
  {
    match o
    case None => []
    case Some(v) => [v]
  }
}
