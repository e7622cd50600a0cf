/** Optional values, for Python's `None` results and absent dictionary entries. */
module Base {

  datatype Option<T> = None | Some(value: T)

  function Min(a: nat, b: nat): (m: nat)
    ensures m <= a && m <= b && (m == a || m == b)
  {
    if a <= b then a else b
  }
}
