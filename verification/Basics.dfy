/** Types every module of the model shares. */
module Basics {

  newtype byte = x: int | 0 <= x < 0x100

  type Bytes = seq<byte>

  datatype Option<+T> = None | Some(value: T)

  /** A cache key: a flat namespace (empty for the default one) and a name within it. */
  datatype Key = Key(ns: Bytes, name: Bytes)

  /** Difference of two instants, zero when `b` is later than `a`. */
  function SaturatingSub(a: nat, b: nat): nat {
    if a < b then 0 else a - b
  }

  lemma {:induction false} SubsetSize<T>(a: set<T>, b: set<T>)
    requires a <= b
    ensures |a| <= |b|
  {
    assert b == a + (b - a);
  }
}
