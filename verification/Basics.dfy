/**
 What several of the models share.
 */
module Basics {

  datatype Option<T> = None | Some(value: T)

  type Byte = x: nat | x < 256

  lemma MulAtLeast(d: nat, n: nat)
    requires d >= 1
    ensures d * n >= n
  {
    assert (d - 1) * n >= 0;
    assert d * n == (d - 1) * n + n;
  }
}
