/** Small shared definitions: an optional value and the minimum of two naturals. */
module Base {

  /** A value that may be absent; stands in for a C pointer that may be NULL. */
  datatype Option<T> = None | Some(value: T)

  function Min(a: nat, b: nat): (m: nat)
    ensures m <= a && m <= b
    ensures m == a || m == b
  {
    if a <= b then a else b
  }
}
