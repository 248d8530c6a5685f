/** Bytes, byte buffers and the small option type shared by the other modules. */
module Bytes {

  type byte = x: int | 0 <= x < 256

  datatype Option<+T> = None | Some(value: T)

  /** What calloc and memset(.., 0, n) leave behind. */
  function Zeros(n: nat): (r: seq<byte>)
    ensures |r| == n
    ensures forall i :: 0 <= i < n ==> r[i] == 0
  {
    seq(n, _ => 0)
  }

  /** `data` truncated to `n` bytes, or zero filled up to `n` bytes. */
  function Fit(data: seq<byte>, n: nat): (r: seq<byte>)
    ensures |r| == n
    ensures forall i :: 0 <= i < n ==> r[i] == if i < |data| then data[i] else 0
  {
    if |data| >= n then data[..n] else data + Zeros(n - |data|)
  }

  function Min(a: nat, b: nat): nat {
    if a <= b then a else b
  }

  /** Fitting twice is fitting the prefix that survives both lengths. */
  lemma FitTwice(data: seq<byte>, a: nat, b: nat)
    ensures Fit(Fit(data, a), b) == Fit(data[..Min(|data|, Min(a, b))], b)
  {
  }
}
