/** Shared C-level vocabulary: bytes, nullable values and the width of size_t. */
module Common {

  /** One C `char`/byte of memory. */
  newtype byte = x: int | 0 <= x < 256

  /** A value that may be absent: `None` stands for a NULL pointer. */
  datatype Option<+T> = None | Some(value: T)

  /** The largest `size_t` value, `(size_t) -1` on a 64-bit target. */
  const SIZE_MAX: int := 0xFFFF_FFFF_FFFF_FFFF

  function Max(a: int, b: int): int
  {
    if a < b then b else a
  }

  function Min(a: int, b: int): int
  {
    if a < b then a else b
  }

  /** The integers lo, lo+1, ..., hi-1 in order. */
  function Range(lo: int, hi: int): (r: seq<int>)
    requires lo <= hi
    ensures |r| == hi - lo
    ensures forall k :: 0 <= k < |r| ==> r[k] == lo + k
  {
    seq(hi - lo, k => lo + k)
  }
}
