/** Result types shared by the other modules. */
module Wrappers {
  datatype Option<+T> = None | Some(value: T)

  /** A part of a part is a part. */
  lemma SliceSlice<T>(data: seq<T>, a: nat, b: nat, i: nat, j: nat)
    requires a <= b <= |data| && i <= j <= b - a
    ensures data[a..b][i..j] == data[a + i..a + j]
  {
    var x, y := data[a..b][i..j], data[a + i..a + j];
    forall k | 0 <= k < |x| ensures x[k] == y[k] {
      assert x[k] == data[a..b][i + k] && y[k] == data[a + i + k];
    }
  }
}
