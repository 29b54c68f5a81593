/** Writing rows of pixels into a byte buffer. */
module RowBuffer {
  import opened Common
  import opened AreaWeights

  /** `now` differs from `before` at the n offsets from `at` on alone. */
  ghost predicate SameOutside(now: seq<Byte>, before: seq<Byte>, at: nat, n: nat) {
    |now| == |before| && forall i: nat | i < |now| && !(at <= i < at + n) :: now[i] == before[i]
  }

  /** From offset `at` on, `now` is still `before`. */
  ghost predicate SameFrom(now: seq<Byte>, before: seq<Byte>, at: nat) {
    |now| == |before| && forall i: nat | at <= i < |now| :: now[i] == before[i]
  }

  lemma WrittenFurther(now: seq<Byte>, mid: seq<Byte>, before: seq<Byte>, at: nat, n: nat, k: nat)
    requires SameOutside(mid, before, at, n) && SameOutside(now, mid, at + n, k)
    ensures SameOutside(now, before, at, n + k)
  {
  }

  lemma RowInside(q: nat, rows: nat, pitch: nat, size: nat, total: nat)
    requires q < rows && (rows - 1) * pitch + size <= total
    ensures 0 <= q * pitch && q * pitch + size <= total
  {
    assert q * pitch <= (rows - 1) * pitch;
  }

  lemma RowsApart(q: nat, r: nat, pitch: nat, size: nat)
    requires q < r && size <= pitch
    ensures 0 <= q * pitch && q * pitch + size <= r * pitch
  {
    assert (q + 1) * pitch <= r * pitch;
    assert (q + 1) * pitch == q * pitch + pitch;
  }
}
