/** Optional values: `None` stands for Python's `None`. */
module Wrappers {

  datatype Option<+T> = None | Some(value: T)

  /** The smaller of two integers. */
  function Min(a: int, b: int): (m: int)
    ensures m <= a && m <= b && (m == a || m == b)
  {
    if a <= b then a else b
  }
}
