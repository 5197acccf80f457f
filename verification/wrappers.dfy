/** Small helper datatypes shared by the transaction-cache model. */
module Wrappers {

  /** A value that may be absent; stands for Go's nil pointers, nil
      interfaces and nil slices. */
  datatype Option<+T> = None | Some(value: T)

  function Min(a: nat, b: nat): (m: nat)
    ensures m <= a && m <= b
    ensures m == a || m == b
  {
    if a <= b then a else b
  }
}
