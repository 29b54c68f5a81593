/** Area weighting, the reference definition behind scale-down.

    A source line k is the cell [256k, 256k + 256).  A sample that covers [lo, hi) weighs the line by
    the length of the overlap, and a pixel by the product of its row and column weights.
 */
module AreaWeights {
  import opened Common
  import opened FixedPoint

  /** Length of the intersection of cell k with [lo, hi). */
  function Overlap(k: nat, lo: nat, hi: nat): nat {
    Max(0, Min(hi, 256 * k + 256) - Max(lo, 256 * k))
  }

  /** A read of the source buffer; the loops prove every read they make to be inside it. */
  function Px(src: seq<Byte>, i: int): nat {
    if 0 <= i < |src| then src[i] else 0
  }

  /** Weighted sum of one column over its first `rows` rows, `ofs` bytes apart. */
  function RowTap(src: seq<Byte>, at: int, ofs: int, rows: nat, lo: nat, hi: nat): nat {
    if rows == 0 then 0
    else
      NatProduct(Overlap(rows - 1, lo, hi), Px(src, at + (rows - 1) * ofs));
      RowTap(src, at, ofs, rows - 1, lo, hi) + Overlap(rows - 1, lo, hi) * Px(src, at + (rows - 1) * ofs)
  }

  /** Weighted sum over the first `cols` columns, three bytes apart. */
  function AreaSum(src: seq<Byte>, at: int, ofs: int, rows: nat, yLo: nat, yHi: nat,
                   cols: nat, xLo: nat, xHi: nat): nat
  {
    if cols == 0 then 0
    else
      NatProduct(Overlap(cols - 1, xLo, xHi), RowTap(src, at + 3 * (cols - 1), ofs, rows, yLo, yHi));
      AreaSum(src, at, ofs, rows, yLo, yHi, cols - 1, xLo, xHi) + Overlap(cols - 1, xLo, xHi) * RowTap(src, at + 3 * (cols - 1), ofs, rows, yLo, yHi)
  }

  function OverlapSum(k: nat, lo: nat, hi: nat): nat {
    if k == 0 then 0 else OverlapSum(k - 1, lo, hi) + Overlap(k - 1, lo, hi)
  }

  /** The weights of all lines add up to the length covered. */
  lemma {:induction false} OverlapSumIsLength(k: nat, lo: nat, hi: nat)
    requires lo <= hi
    ensures OverlapSum(k, lo, hi) == Max(0, Min(hi, 256 * k) - lo)
    ensures hi <= 256 * k ==> OverlapSum(k, lo, hi) == hi - lo
  {
    if k > 0 {
      OverlapSumIsLength(k - 1, lo, hi);
    }
  }

  lemma {:induction false} RowTapFrom(src: seq<Byte>, at: int, ofs: int, from: nat, rows: nat, lo: nat, hi: nat)
    requires from <= rows
    requires forall j: nat | from <= j < rows :: Overlap(j, lo, hi) == 0
    ensures RowTap(src, at, ofs, rows, lo, hi) == RowTap(src, at, ofs, from, lo, hi)
  {
    if from < rows {
      RowTapFrom(src, at, ofs, from, rows - 1, lo, hi);
      assert Overlap(rows - 1, lo, hi) * Px(src, at + (rows - 1) * ofs) == 0;
    }
  }

  /** Rows above the sample carry no weight, so the sum may start at the row the sample starts in. */
  lemma {:induction false} RowTapShift(src: seq<Byte>, at: int, ofs: int, s: nat, rows: nat, lo: nat, hi: nat)
    requires 256 * s <= lo <= hi
    ensures RowTap(src, at, ofs, s + rows, lo, hi)
         == RowTap(src, at + s * ofs, ofs, rows, lo - 256 * s, hi - 256 * s)
  {
    if rows == 0 {
      RowTapFrom(src, at, ofs, 0, s, lo, hi);
    } else {
      RowTapShift(src, at, ofs, s, rows - 1, lo, hi);
      assert Overlap(s + rows - 1, lo, hi) == Overlap(rows - 1, lo - 256 * s, hi - 256 * s);
      assert at + (s + rows - 1) * ofs == (at + s * ofs) + (rows - 1) * ofs;
    }
  }

  lemma {:induction false} AreaSumFrom(src: seq<Byte>, at: int, ofs: int, rows: nat, yLo: nat, yHi: nat,
                                       from: nat, cols: nat, xLo: nat, xHi: nat)
    requires from <= cols
    requires forall i: nat | from <= i < cols :: Overlap(i, xLo, xHi) == 0
    ensures AreaSum(src, at, ofs, rows, yLo, yHi, cols, xLo, xHi)
         == AreaSum(src, at, ofs, rows, yLo, yHi, from, xLo, xHi)
  {
    if from < cols {
      AreaSumFrom(src, at, ofs, rows, yLo, yHi, from, cols - 1, xLo, xHi);
      assert Overlap(cols - 1, xLo, xHi) * RowTap(src, at + 3 * (cols - 1), ofs, rows, yLo, yHi) == 0;
    }
  }

  /** Every pixel that carries weight has a value in m..M. */
  ghost predicate CoveredWithin(src: seq<Byte>, at: int, ofs: int, rows: nat, yLo: nat, yHi: nat,
                                cols: nat, xLo: nat, xHi: nat, m: nat, M: nat)
  {
    forall i: nat, j: nat | i < cols && j < rows && Overlap(i, xLo, xHi) > 0 && Overlap(j, yLo, yHi) > 0 ::
      m <= Px(src, at + 3 * i + j * ofs) <= M
  }

  lemma WeighBounds(w: nat, p: nat, m: int, M: nat)
    requires w > 0 ==> m <= p <= M
    ensures m * w <= w * p <= M * w
  {
  }

  lemma {:induction false} RowTapBounds(src: seq<Byte>, at: int, ofs: int, rows: nat, lo: nat, hi: nat, m: nat, M: nat)
    requires forall j: nat | j < rows && Overlap(j, lo, hi) > 0 :: m <= Px(src, at + j * ofs) <= M
    ensures m * OverlapSum(rows, lo, hi) <= RowTap(src, at, ofs, rows, lo, hi) <= M * OverlapSum(rows, lo, hi)
  {
    if rows > 0 {
      RowTapBounds(src, at, ofs, rows - 1, lo, hi, m, M);
      var w := Overlap(rows - 1, lo, hi);
      WeighBounds(w, Px(src, at + (rows - 1) * ofs), m, M);
      AddWeighted(m, M, OverlapSum(rows - 1, lo, hi), w);
    }
  }

  lemma ColumnWithin(src: seq<Byte>, at: int, ofs: int, rows: nat, yLo: nat, yHi: nat,
                     cols: nat, xLo: nat, xHi: nat, m: nat, M: nat)
    requires CoveredWithin(src, at, ofs, rows, yLo, yHi, cols, xLo, xHi, m, M)
    requires cols > 0 && Overlap(cols - 1, xLo, xHi) > 0
    ensures m * OverlapSum(rows, yLo, yHi) <= RowTap(src, at + 3 * (cols - 1), ofs, rows, yLo, yHi)
         <= M * OverlapSum(rows, yLo, yHi)
  {
    hide OverlapSum, RowTap, Px;
    RowTapBounds(src, at + 3 * (cols - 1), ofs, rows, yLo, yHi, m, M);
  }

  /** If all covered pixels lie in m..M, the weighted sum lies in m*W..M*W for the total weight W.
      With m = M this is the sum of a constant region. */
  lemma {:induction false} AreaSumBounds(src: seq<Byte>, at: int, ofs: int, rows: nat, yLo: nat, yHi: nat,
                                         cols: nat, xLo: nat, xHi: nat, m: nat, M: nat)
    requires CoveredWithin(src, at, ofs, rows, yLo, yHi, cols, xLo, xHi, m, M)
    ensures m * OverlapSum(rows, yLo, yHi) * OverlapSum(cols, xLo, xHi)
         <= AreaSum(src, at, ofs, rows, yLo, yHi, cols, xLo, xHi)
         <= M * OverlapSum(rows, yLo, yHi) * OverlapSum(cols, xLo, xHi)
  {
    hide Overlap, RowTap, CoveredWithin;
    var ys := OverlapSum(rows, yLo, yHi);
    if cols > 0 {
      FewerColumns(src, at, ofs, rows, yLo, yHi, cols, xLo, xHi, m, M);
      AreaSumBounds(src, at, ofs, rows, yLo, yHi, cols - 1, xLo, xHi, m, M);
      NatProduct(m, ys);
      NatProduct(M, ys);
      var w := Overlap(cols - 1, xLo, xHi);
      ColumnBounds(src, at, ofs, rows, yLo, yHi, cols, xLo, xHi, m, M);
      AddWeighted(m * ys, M * ys, OverlapSum(cols - 1, xLo, xHi), w);
    }
  }

  lemma FewerColumns(src: seq<Byte>, at: int, ofs: int, rows: nat, yLo: nat, yHi: nat,
                     cols: nat, xLo: nat, xHi: nat, m: nat, M: nat)
    requires cols > 0 && CoveredWithin(src, at, ofs, rows, yLo, yHi, cols, xLo, xHi, m, M)
    ensures CoveredWithin(src, at, ofs, rows, yLo, yHi, cols - 1, xLo, xHi, m, M)
  {
    hide Overlap, Px;
  }

  /** The weighted sum of the last column. */
  lemma ColumnBounds(src: seq<Byte>, at: int, ofs: int, rows: nat, yLo: nat, yHi: nat,
                     cols: nat, xLo: nat, xHi: nat, m: nat, M: nat)
    requires cols > 0 && CoveredWithin(src, at, ofs, rows, yLo, yHi, cols, xLo, xHi, m, M)
    ensures var w, ys := Overlap(cols - 1, xLo, xHi), OverlapSum(rows, yLo, yHi);
            m * ys * w <= w * RowTap(src, at + 3 * (cols - 1), ofs, rows, yLo, yHi) <= M * ys * w
  {
    hide Overlap, RowTap, CoveredWithin;
    var w, ys := Overlap(cols - 1, xLo, xHi), OverlapSum(rows, yLo, yHi);
    if w > 0 {
      ColumnWithin(src, at, ofs, rows, yLo, yHi, cols, xLo, xHi, m, M);
    }
    WeighBounds(w, RowTap(src, at + 3 * (cols - 1), ofs, rows, yLo, yHi), m * ys, M * ys);
  }

  lemma AddWeighted(a: nat, b: nat, s: nat, w: nat)
    ensures a * (s + w) == a * s + a * w && b * (s + w) == b * s + b * w
  {
  }

  // ----- normalisation -----

  const HALF32: int := 0x8000_0000

  /** What a kernel stores: the 64-bit product with the reciprocal weight, rounded. */
  function Normalise(acc: nat, reciprocal: nat): nat {
    (acc * reciprocal + HALF32) / UINT32
  }

  lemma ReciprocalBounds(w: nat)
    requires w > 0
    ensures UINT32 / w * w == UINT32 - UINT32 % w
    ensures UINT32 - w < UINT32 / w * w <= UINT32
  {
  }

  lemma ScaleUpInequalities(acc: nat, r: nat, w: nat, out: nat)
    requires out == Normalise(acc, r)
    ensures out * UINT32 * w <= acc * (r * w) + HALF32 * w
    ensures w > 0 ==> acc * (r * w) + HALF32 * w < (out + 1) * UINT32 * w
  {
    var x := acc * r + HALF32;
    assert out * UINT32 <= x < (out + 1) * UINT32;
    ProductOrder(out * UINT32, x, (out + 1) * UINT32, w);
    assert x * w == acc * (r * w) + HALF32 * w;
  }

  lemma ProductOrder(a: int, b: int, c: int, w: nat)
    requires a <= b < c
    ensures a * w <= b * w <= c * w
    ensures w > 0 ==> b * w < c * w
  {
  }

  /** Rounding through the reciprocal stays strictly within one of the exact mean acc / w, for total
      weights up to 2^23. */
  lemma NormaliseNearMean(acc: nat, w: nat)
    requires 0 < w <= 0x80_0000 && acc <= 255 * w
    ensures var out := Normalise(acc, UINT32 / w);
            acc - w < out * w < acc + w && 2 * (out * w) <= 2 * acc + w
  {
    var r := UINT32 / w;
    var out := Normalise(acc, r);
    ReciprocalBounds(w);
    ScaleUpInequalities(acc, r, w, out);
    WeighBounds(acc, r * w, UINT32 - w, UINT32);
    WeighBounds(acc, w, 0, 0x80_0000);
    MeanFromProducts(acc, w, out * w, acc * (r * w), acc * w);
  }

  lemma MeanFromProducts(acc: int, w: int, ow: int, arw: int, aw: int)
    requires 0 < w <= 0x80_0000 && 0 <= acc <= 255 * w
    requires ow * UINT32 <= arw + HALF32 * w < ow * UINT32 + w * UINT32
    requires acc * UINT32 - aw <= arw <= acc * UINT32
    requires aw <= acc * 0x80_0000
    ensures acc - w < ow < acc + w && 2 * ow <= 2 * acc + w
  {
  }

  /** ... and never leaves the range of the covered pixels. */
  lemma NormaliseInRange(acc: nat, w: nat, m: nat, M: nat)
    requires 0 < w <= 0x80_0000 && m * w <= acc <= M * w && M <= 255
    ensures m <= Normalise(acc, UINT32 / w) <= M
  {
    hide Normalise;
    var out := Normalise(acc, UINT32 / w);
    ProductOrder(M, 255, 256, w);
    NormaliseNearMean(acc, w);
    BelowNext(m, out, w);
    BelowNext(out, M, w);
  }

  lemma BelowNext(a: nat, b: nat, w: nat)
    requires w > 0 && a * w < b * w + w
    ensures a <= b
  {
    MulMonotone(a - b - 1, w);
    assert (a - b - 1) * w == a * w - b * w - w;
  }

  /** While the sum itself does not wrap, the result misses the exact mean by less than one and a half, and
      never rounds past the largest pixel. */
  lemma NormaliseWithoutWrap(acc: nat, w: nat, M: nat)
    requires w > 0 && acc < UINT32 && acc <= M * w
    ensures 2 * acc - 3 * w < 2 * (Normalise(acc, UINT32 / w) * w) <= 2 * acc + w
    ensures Normalise(acc, UINT32 / w) <= M
  {
    hide Normalise;
    var r := UINT32 / w;
    var out := Normalise(acc, r);
    ReciprocalBounds(w);
    ScaleUpInequalities(acc, r, w, out);
    WeighBounds(acc, r * w, UINT32 - w, UINT32);
    WeighBounds(w, acc, 0, UINT32);
    GroupWord(out, w);
    LooseMeanFromProducts(acc, w, out * w, acc * (r * w), acc * w);
    NoRoundingUp(acc, r, w, M);
  }

  lemma LooseMeanFromProducts(acc: int, w: int, ow: int, arw: int, aw: int)
    requires 0 < w && 0 <= acc
    requires ow * UINT32 <= arw + HALF32 * w < ow * UINT32 + w * UINT32
    requires acc * UINT32 - aw <= arw <= acc * UINT32
    requires aw <= w * UINT32
    ensures 2 * acc - 3 * w < 2 * ow <= 2 * acc + w
  {
  }

  lemma GroupWord(out: nat, w: nat)
    ensures out * UINT32 * w == out * w * UINT32 && (out + 1) * UINT32 * w == out * w * UINT32 + w * UINT32
  {
  }

  lemma NoRoundingUp(acc: nat, r: nat, w: nat, M: nat)
    requires acc <= M * w && r * w <= UINT32
    ensures Normalise(acc, r) <= M
  {
    assert acc * r <= M * w * r;
    assert M * w * r == M * (r * w) <= M * UINT32;
  }

  /** An accumulator of 64 bits, as `uint32` has where `unsigned long` is that wide, never wraps: then a constant
      region keeps its value exactly when the error of the reciprocal, summed over it, does not exceed one half. */
  lemma WideConstantIff(v: nat, w: nat)
    requires 0 < w
    ensures Normalise(v * w, UINT32 / w) == v <==> v * (UINT32 % w) <= HALF32
  {
    var e := UINT32 % w;
    ReciprocalBounds(w);
    var r := UINT32 / w;
    assert (v * w) * r == v * (r * w) == v * UINT32 - v * e;
    var x := v * UINT32 - v * e + HALF32;
    if v * e <= HALF32 {
      DivMul(v, UINT32, HALF32 - v * e);
    } else {
      assert x < v * UINT32;
      assert x / UINT32 < v;
    }
  }

  lemma WrappedSumIsLess(v: nat, w: nat, r: nat)
    requires 0 < w && v * w >= UINT32 && r == UINT32 / w
    ensures Normalise(v * w % UINT32, r) < v
  {
    ReciprocalBounds(w);
    var acc := v * w % UINT32;
    assert v > 0 by {
      assert 0 * w == 0;
    }
    assert acc <= v * w - UINT32 by {
      assert v * w == v * w / UINT32 * UINT32 + acc;
    }
    if r > 0 {
      assert acc * r <= (v * w - UINT32) * r == v * (r * w) - UINT32 * r;
      assert v * (r * w) <= v * UINT32;
      assert acc * r <= (v - 1) * UINT32;
    } else {
      assert acc * r == 0;
    }
  }

  /** With accumulators of 32 bits, beyond 2^23 a constant region may change.  Exactly when: its sum must fit
      32 bits, and the error of the reciprocal, summed over the region, must not exceed one half.  The result is
      never too large. */
  lemma ConstantPreservedIff(v: nat, w: nat)
    requires 0 < w
    ensures Normalise(v * w % UINT32, UINT32 / w) <= v
    ensures Normalise(v * w % UINT32, UINT32 / w) == v <==> v * w < UINT32 && v * (UINT32 % w) <= HALF32
  {
    if v * w < UINT32 {
      SmallMod(v * w, UINT32);
      WideConstantIff(v, w);
      NormaliseWithoutWrap(v * w, w, v);
    } else {
      WrappedSumIsLess(v, w, UINT32 / w);
    }
  }

  /** A white picture reduced 32:1 along both axes comes out dark gray: its sum wraps in 32 bits although
      the reciprocal is exact. */
  lemma LargeReductionFails()
    ensures var w := 0x400_0000;
            && w == RoundUp24(3200, 100) / 0x1_0000 * (RoundUp24(3200, 100) / 0x1_0000)
            && UINT32 % w == 0 && 255 * w >= UINT32
            && Normalise(255 * w % UINT32, UINT32 / w) == 63
  {
    assert RoundUp24(3200, 100) == 32 * ONE24;
  }
}
