/** Types and C arithmetic that several components share. */
module Common {

  datatype Option<T> = None | Some(value: T)

  type Byte = x: int | 0 <= x < 256

  function Min(a: int, b: int): int { if a < b then a else b }
  function Max(a: int, b: int): int { if a > b then a else b }

  const UINT32: int := 0x1_0000_0000
  const INT32: int := 0x8000_0000

  /** A number as an `int` of 32 bits holds it. */
  function Wrap32(n: int): int {
    (n + INT32) % UINT32 - INT32
  }

  lemma Wrap32Means(n: int)
    ensures -INT32 <= Wrap32(n) < INT32
    ensures Wrap32(n) == n <==> -INT32 <= n < INT32
  {
  }

  lemma SubSlice<T>(s: seq<T>, q: nat, size: nat, from: nat, n: nat)
    requires q + size <= |s| && from + n <= size
    ensures s[q..q + size][from..from + n] == s[q + from..q + from + n]
  {
    var a, b := s[q..q + size][from..from + n], s[q + from..q + from + n];
    forall i | 0 <= i < n
      ensures a[i] == b[i]
    {
    }
  }

  lemma Wrap32Add(a: int, b: int)
    ensures Wrap32(Wrap32(a) + b) == Wrap32(a + b)
  {
    var q := (a + INT32) / UINT32;
    assert Wrap32(a) + b + INT32 == a + b + INT32 - q * UINT32;
  }
}
