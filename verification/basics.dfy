/** Small shared vocabulary: an optional value and integer min/max. */
module Basics {

  /** A value that may be absent: a missing query parameter, a metadata
      reader that is not installed, a read that failed. */
  datatype Option<+T> = None | Some(value: T)

  function Min(a: int, b: int): (r: int)
    ensures r <= a && r <= b
    ensures r == a || r == b
  {
    if a <= b then a else b
  }

  function Max(a: int, b: int): (r: int)
    ensures r >= a && r >= b
    ensures r == a || r == b
  {
    if a >= b then a else b
  }
}
