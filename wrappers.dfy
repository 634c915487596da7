/** Optional values and fallible results, as the Rust code uses `Option` and `Result`. */
module Wrappers {
  datatype Option<+T> = None | Some(value: T)

  datatype Result<+T, +E> = Ok(value: T) | Err(error: E)

  /** The last element of a sequence, as `Iterator::last` returns it. */
  function Last<T>(xs: seq<T>): Option<T>
  {
    if xs == [] then None else Some(xs[|xs| - 1])
  }
}

/** Bytes as the scripts and encodings handle them. */
module Bytes {
  type byte = b: int | 0 <= b < 256

  /** n zero bytes. */
  function Zeros(n: nat): (r: seq<byte>)
    ensures |r| == n
    ensures forall k :: 0 <= k < n ==> r[k] == 0
  {
    if n == 0 then [] else [0] + Zeros(n - 1)
  }
}
