/** What several components share. */
module Common {
  datatype Option<T> = None | Some(value: T)

  /** The 64-bit counters are strict: arithmetic beyond these bounds panics in the source. */
  const U64: nat := 0x1_0000_0000_0000_0000
  const I64: int := 0x8000_0000_0000_0000

  function Min(a: nat, b: nat): (m: nat)
    ensures m <= a && m <= b && (m == a || m == b)
  {
    if a < b then a else b
  }

  /** `n` times the same value, as the padding adapters yield it. */
  function Repeat<T>(v: T, n: nat): (s: seq<T>)
    ensures |s| == n && forall i :: 0 <= i < n ==> s[i] == v
  {
    seq(n, _ => v)
  }
}
