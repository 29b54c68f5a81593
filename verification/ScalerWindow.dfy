/** Which source rows and columns the scaler's accumulated fixed-point positions can reach.

    Rows and columns obey the same arithmetic: sample r of a stripe that starts at output index a
    sits at  RoundUp24(a * src, out) + r * RoundUp24(src, out)  in Q24.  Each of the r + 1 roundings
    adds less than or exactly one unit, and the lemmas below bound what the sum of them can do.
 */
module ScalerWindow {
  import opened FixedPoint

  /** The accumulated position of sample r, as the row and column loops compute it. */
  function Position(a: nat, r: nat, src: nat, out: nat): nat
    requires out > 0
  {
    RoundUp24(a * src, out) + r * RoundUp24(src, out)
  }

  /** Number of roundings that can have gone up: a start at zero is exact. */
  function Roundings(a: nat, r: nat): nat {
    r + if a == 0 then 0 else 1
  }

  /** The drift bound: never below the true position, and above it by at most one unit for each
      rounding. */
  lemma PositionDrift(a: nat, r: nat, src: nat, out: nat)
    requires out > 0
    ensures (a + r) * src * ONE24 <= out * Position(a, r, src, out)
    ensures out * Position(a, r, src, out) <= (a + r) * src * ONE24 + Roundings(a, r) * out
  {
    hide RoundUp24;
    RoundUp24Error(a * src, out);
    RoundUp24Error(src, out);
    if a == 0 {
      StartAtZero(src, out);
    }
    DriftSum(a, r, src, out, RoundUp24(a * src, out), RoundUp24(src, out), if a == 0 then 0 else out);
    RoundingsTimes(a, r, out);
  }

  lemma RoundingsTimes(a: nat, r: nat, out: nat)
    ensures Roundings(a, r) * out == r * out + if a == 0 then 0 else out
  {
    NextMultiple(r, out);
  }

  lemma DriftSum(a: nat, r: nat, src: nat, out: nat, s: nat, g: nat, first: nat)
    requires a * src * ONE24 <= out * s <= a * src * ONE24 + first
    requires src * ONE24 <= out * g <= src * ONE24 + out
    ensures (a + r) * src * ONE24 <= out * (s + r * g) <= (a + r) * src * ONE24 + r * out + first
  {
    MulBetween(r, src * ONE24, out * g, src * ONE24 + out);
    Distribute(out, s, r, g);
    ScaledSum(a, r, src);
    assert r * (src * ONE24 + out) == r * (src * ONE24) + r * out;
  }

  lemma Distribute(out: nat, s: nat, r: nat, g: nat)
    ensures out * (s + r * g) == out * s + r * (out * g)
  {
  }

  lemma ScaledSum(a: nat, r: nat, src: nat)
    ensures (a + r) * src * ONE24 == a * src * ONE24 + r * (src * ONE24)
  {
  }

  lemma StartAtZero(src: nat, out: nat)
    requires out > 0
    ensures RoundUp24(0 * src, out) == 0
  {
    ZeroModulo(out);
    assert 0 * src == 0;
  }

  lemma ZeroModulo(d: nat)
    requires d > 0
    ensures 0 % d == 0
  {
  }

  lemma MulBetween(r: nat, x: int, y: int, z: int)
    requires x <= y <= z
    ensures r * x <= r * y <= r * z
    ensures r * z == r * x + r * (z - x)
  {
  }

  lemma CancelMul(d: nat, x: int, y: int)
    requires d > 0 && d * x <= d * y
    ensures x <= y
  {
    MulMonotone(x - y, d);
    assert (x - y) * d == d * x - d * y;
  }

  lemma CancelDrift(d: nat, p: nat, exact: nat, c: nat, k: nat)
    requires d > 0
    requires d * p <= exact * ONE24 + k * d
    requires exact <= c * d
    ensures p <= c * ONE24 + k
  {
    assert d * (c * ONE24 + k) == c * d * ONE24 + k * d;
    CancelMul(d, p, c * ONE24 + k);
  }

  /** A rounded position begins in the line in which the exact one does. */
  lemma RoundedWhole(n: nat, d: nat)
    requires 0 < d < UINT16
    ensures RoundUp24(n, d) / ONE24 == n / d
  {
    hide RoundUp24;
    RoundUp24Error(n, d);
    WholePart(RoundUp24(n, d), n, d, d);
  }

  /** A position that exceeds the exact one by less than a part. */
  lemma WholePart(p: nat, n: nat, d: nat, excess: nat)
    requires d > 0 && n * ONE24 <= d * p <= n * ONE24 + excess && excess < ONE24
    ensures p / ONE24 == n / d
  {
    var c := n / d;
    assert n == c * d + n % d;
    GroupThree(c, d);
    assert d * p < d * ((c + 1) * ONE24);
    BelowProduct(d, p, (c + 1) * ONE24);
    CancelMul(d, c * ONE24, p);
  }

  lemma GroupThree(c: nat, d: nat)
    ensures c * d * ONE24 == d * (c * ONE24) && d * ((c + 1) * ONE24) == c * d * ONE24 + d * ONE24
  {
  }

  /** Position against the last source index of the stripe.  `last` is the first output index past
      the stripe when scaling down and the last one of it when scaling up. */
  lemma PositionCeiling(a: nat, r: nat, last: nat, src: nat, out: nat)
    requires out > 0 && a + r <= last
    ensures Position(a, r, src, out) <= Ceil(last * src, out) * ONE24 + Roundings(a, r)
  {
    hide *;
    PositionDrift(a, r, src, out);
    CeilBounds(last * src, out);
    MulBetween(src, a + r, last, last);
    CancelDrift(out, Position(a, r, src, out), (a + r) * src, Ceil(last * src, out), Roundings(a, r));
  }

  lemma PositionNext(a: nat, r: nat, src: nat, out: nat)
    requires out > 0
    ensures Position(a, r + 1, src, out) == Position(a, r, src, out) + RoundUp24(src, out)
  {
  }

  /** First and one-past-last 1/256 cell that a scale-down sample covers. */
  function Low256(position: nat): nat {
    position / UINT16
  }

  function Span256(step: nat): nat {
    step / UINT16
  }

  /** Scale-down: for every stripe of rows (or the whole row of columns), no sample covers anything
      past the last source line that the exact ratio needs.  No limit on the stripe is needed. */
  lemma DownWindow(a: nat, r: nat, end: nat, src: nat, out: nat)
    requires 0 < out < UINT16
    requires a + r <= end < out
    ensures Low256(Position(a, r, src, out)) + Span256(RoundUp24(src, out))
         <= 256 * Ceil((end + 1) * src, out)
    ensures Ceil((end + 1) * src, out) <= src
  {
    hide RoundUp24, Ceil, Position;
    PositionCeiling(a, r + 1, end + 1, src, out);
    PositionNext(a, r, src, out);
    CellsBelow(Position(a, r, src, out), RoundUp24(src, out), Ceil((end + 1) * src, out));
    MulBetween(src, end + 1, out, out);
    CeilAtMost((end + 1) * src, src, out);
  }

  lemma CellsBelow(p: nat, g: nat, c: nat)
    requires p + g <= c * ONE24 + 65535
    ensures p / UINT16 + g / UINT16 <= 256 * c
  {
  }

  lemma CeilAtMost(n: nat, c: nat, d: nat)
    requires d > 0 && n <= c * d
    ensures Ceil(n, d) <= c
  {
    CeilBounds(n, d);
    MulMonotone(Ceil(n, d) - c, d);
    assert (Ceil(n, d) - c) * d == Ceil(n, d) * d - c * d;
  }

  /** The 10-bit weight with which scale-up interpolates towards the next line. */
  function Weight10(position: nat): nat {
    position % ONE24 / 0x4000
  }

  /** Scale-up: the next line gets weight only while it lies in the window, for stripes of fewer than
      2^14 lines. */
  lemma UpWindow(a: nat, r: nat, end: nat, src: nat, out: nat)
    requires 0 < out < UINT16
    requires a + r <= end
    requires Roundings(a, r) < 0x4000
    ensures Position(a, r, src, out) / ONE24 <= Ceil(end * src, out)
    ensures Weight10(Position(a, r, src, out)) != 0 ==>
              Position(a, r, src, out) / ONE24 + 1 <= Ceil(end * src, out)
  {
    PositionCeiling(a, r, end, src, out);
  }

  /** What scale-up row a + r takes with weight lies in the window of the rows up to `end`. */
  ghost predicate InWindow(a: nat, r: nat, end: nat, src: nat, out: nat)
    requires out > 0
  {
    var p, c := Position(a, r, src, out), Ceil(end * src, out);
    p / ONE24 <= c && (Weight10(p) != 0 ==> p / ONE24 + 1 <= c)
  }

  /** Exactly which stripes are safe: every row stays in the window if and only if the drift of the last one
      is below one weight unit past the window's last line. */
  lemma UpWindowIff(a: nat, end: nat, src: nat, out: nat)
    requires 0 < out && a <= end
    ensures (forall r: nat | a + r <= end :: InWindow(a, r, end, src, out))
        <==> Position(a, end - a, src, out) < Ceil(end * src, out) * ONE24 + 0x4000
  {
    forall r: nat | a + r <= end
      ensures Position(a, r, src, out) <= Position(a, end - a, src, out)
      ensures InWindow(a, r, end, src, out) <==> Position(a, r, src, out) < Ceil(end * src, out) * ONE24 + 0x4000
    {
      LaterIsFurther(a, r, end - a, src, out);
      BelowOneUnit(Position(a, r, src, out), Ceil(end * src, out));
    }
    assert InWindow(a, end - a, end, src, out)
      <==> Position(a, end - a, src, out) < Ceil(end * src, out) * ONE24 + 0x4000;
  }

  lemma LaterIsFurther(a: nat, r: nat, t: nat, src: nat, out: nat)
    requires out > 0 && r <= t
    ensures Position(a, r, src, out) <= Position(a, t, src, out)
  {
    MulBetween(RoundUp24(src, out), r, t, t);
  }

  lemma BelowOneUnit(p: nat, c: nat)
    ensures p / ONE24 <= c && (Weight10(p) != 0 ==> p / ONE24 + 1 <= c) <==> p < c * ONE24 + 0x4000
  {
  }

  /** Whole ratios do not drift, however long the stripe. */
  lemma WholeRatiosNeverDrift(a: nat, end: nat, src: nat, out: nat)
    requires 0 < out && a <= end && src % out == 0
    ensures Position(a, end - a, src, out) == Ceil(end * src, out) * ONE24
  {
    hide Position, Ceil;
    WholeDivision(src, out);
    WholePosition(a, end, src / out, out);
  }

  lemma WholeDivision(n: nat, d: nat)
    requires d > 0 && n % d == 0
    ensures n == n / d * d
  {
  }

  lemma WholePosition(a: nat, end: nat, k: nat, out: nat)
    requires 0 < out && a <= end
    ensures k * out >= 0 && Position(a, end - a, k * out, out) == Ceil(end * (k * out), out) * ONE24
  {
    hide RoundUp24, Ceil;
    NatProduct(k, out);
    WholeMultiple(a, k, out);
    WholeMultiple(end, k, out);
    WholeMultiple(1, k, out);
    assert 1 * (k * out) == k * out && 1 * k == k;
    WholeSteps(a, end, k);
  }

  lemma WholeSteps(a: nat, end: nat, k: nat)
    requires a <= end
    ensures a * k * ONE24 + (end - a) * (k * ONE24) == end * k * ONE24
  {
  }

  lemma WholeMultiple(n: nat, k: nat, out: nat)
    requires out > 0
    ensures Ceil(n * (k * out), out) == n * k && RoundUp24(n * (k * out), out) == n * k * ONE24
  {
    assert n * (k * out) == n * k * out;
    DivMul(n * k, out, 0);
    RoundUp24Error(n * (k * out), out);
    assert out * RoundUp24(n * (k * out), out) == n * k * out * ONE24 == out * (n * k * ONE24);
    CancelMul(out, RoundUp24(n * (k * out), out), n * k * ONE24);
    CancelMul(out, n * k * ONE24, RoundUp24(n * (k * out), out));
    CeilBounds(n * (k * out), out);
  }

  /** The limit in UpWindow is tight: at 2^14 steps of one half the drift reaches a full weight unit
      and the line past the last one is blended in. */
  lemma UpWindowNeedsItsLimit()
    ensures var p := Position(0, 0x4000, 0x2000, 0x4000);
            p / ONE24 == Ceil(0x4000 * 0x2000, 0x4000) == 0x2000 && Weight10(p) == 1
  {
    assert 0 * 0x2000 == 0;
    assert RoundUp24(0x2000, 0x4000) == 0x80_0001;
  }

  /** Exactly which scale-up widths are safe at the right edge.  `src` and `out` are the dimensions
      less one, as the scaler uses them; every output column interpolates only between columns
      0..src if and only if the drift of the last column stays below one weight unit. */
  predicate EdgeSafe(src: nat, out: nat)
    requires out > 0
  {
    src % out == 0 || out - src * ONE24 % out < 0x4000
  }

  ghost predicate ColumnInRange(x: nat, src: nat, out: nat)
    requires out > 0
  {
    var p := Position(0, x, src, out);
    p / ONE24 <= src && (Weight10(p) != 0 ==> p / ONE24 + 1 <= src)
  }

  lemma LastColumn(src: nat, out: nat)
    requires out > 0
    ensures src % out == 0 ==> Position(0, out, src, out) == src * ONE24
    ensures src % out != 0 ==>
              Position(0, out, src, out) == src * ONE24 + (out - src * ONE24 % out)
  {
    RoundUp24Error(src, out);
    StartAtZero(src, out);
  }

  lemma UpEdgeIff(src: nat, out: nat)
    requires 0 < src <= out < UINT16
    ensures (forall x: nat | x <= out :: ColumnInRange(x, src, out)) <==> EdgeSafe(src, out)
  {
    LastColumn(src, out);
    var last := Position(0, out, src, out);
    assert 0 <= src * ONE24 % out < out;
    if EdgeSafe(src, out) {
      forall x: nat | x <= out
        ensures ColumnInRange(x, src, out)
      {
        PositionMonotone(x, out, src, out);
      }
    } else {
      var d := out - src * ONE24 % out;
      assert last == src * ONE24 + d && 0x4000 <= d < UINT16;
      assert last / ONE24 == src && last % ONE24 == d;
      assert !ColumnInRange(out, src, out);
    }
  }

  /** A row of 101 pixels enlarged to 20001 takes its last pixel partly from behind the row. */
  lemma WideRowFails()
    ensures !EdgeSafe(100, 20000)
    ensures var p := Position(0, 20000, 100, 20000); p / ONE24 == 100 && Weight10(p) == 1
    ensures Span256(RoundUp24(100, 20000)) > 0 && 3 * 20001 < UINT16
  {
    LastColumn(100, 20000);
    FineStepIff(100, 20000);
  }

  /** The step of an enlarged axis, in whole 1/256 cells, is not zero exactly up to an enlargement by 256. */
  lemma FineStepIff(src: nat, out: nat)
    requires 0 < src <= out < UINT16
    ensures Span256(RoundUp24(src, out)) > 0 <==> out <= 256 * src
  {
    hide RoundUp24;
    RoundUp24Error(src, out);
    var g := RoundUp24(src, out);
    if out <= 256 * src {
      StepAtLeast(src, out, g);
    } else {
      StepBelow(src, out, g);
    }
  }

  lemma StepAtLeast(src: nat, out: nat, g: nat)
    requires 0 < out <= 256 * src && src * ONE24 <= out * g
    ensures g >= UINT16
  {
    assert out * (UINT16 - 1) < src * ONE24;
    BelowProduct(out, UINT16 - 1, g);
  }

  lemma StepBelow(src: nat, out: nat, g: nat)
    requires 256 * src < out < UINT16 && out * g <= src * ONE24 + out
    ensures g < UINT16
  {
    assert src * ONE24 < out * (UINT16 - 1);
    assert out * (UINT16 - 1) + out == out * UINT16;
    BelowProduct(out, g, UINT16);
  }

  lemma BelowProduct(d: nat, x: int, y: int)
    requires d * x < d * y
    ensures x < y
  {
    if d > 0 {
      MulMonotone(y - x, d);
      assert (y - x) * d == d * y - d * x;
    }
  }

  lemma PositionMonotone(x: nat, y: nat, src: nat, out: nat)
    requires out > 0 && x <= y
    ensures Position(0, x, src, out) <= Position(0, y, src, out)
  {
    assert x * RoundUp24(src, out) <= y * RoundUp24(src, out);
  }

  /** Every output width up to 16384 is edge-safe. */
  lemma UpEdgeSafeTo16384(src: nat, out: nat)
    requires 0 < src <= out < 0x4000
    ensures EdgeSafe(src, out)
  {
    assert 0 <= src * ONE24 % out < out;
  }
}
