/** Small vocabulary shared by the models. */
module Basics {

  /** One octet, as an integer. */
  type byte = x: int | 0 <= x < 256

  datatype Option<+T> = None | Some(value: T)

  function Min(a: int, b: int): int {
    if a < b then a else b
  }

  function Max(a: int, b: int): int {
    if a < b then b else a
  }

  /** `f` with the elements from `off` on replaced by `d`. */
  function Splice<T>(f: seq<T>, off: nat, d: seq<T>): (r: seq<T>)
    requires off + |d| <= |f|
    ensures |r| == |f|
    ensures forall i :: 0 <= i < |f| ==> r[i] == if off <= i < off + |d| then d[i - off] else f[i]
  {
    f[..off] + d + f[off + |d|..]
  }

  lemma SpliceSnoc<T>(f: seq<T>, off: nat, d: seq<T>)
    requires d != [] && off + |d| <= |f|
    ensures var k := |d| - 1;
            Splice(f, off, d) == Splice(f, off, d[..k])[off + k := d[k]]
  {
  }
}
