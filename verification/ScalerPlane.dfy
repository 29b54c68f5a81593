/** `_hw_scale_image_plane`: one stripe of output rows, on top of the window that
    `CalculateScalingRows` chose. */
module ScalerPlane {
  import opened Common
  import opened FixedPoint
  import opened ScalerWindow
  import opened AreaWeights
  import opened RowBuffer
  import opened ScalerConfiguration
  import Down = ScaleDown
  import Up = ScaleUp

  /** What the plane loops read from the configuration, in Q24.  `start` is the position of the first
      output row, `rows` the number of source rows in the window. */
  datatype Stripe = Stripe(first: nat, ySrc: nat, yOut: nat, xSrc: nat, xOut: nat,
                           width: nat, outWidth: nat, outRows: nat, rows: nat, ofs: nat)
  {
    predicate Valid() {
      && 0 < ySrc && 0 < yOut < UINT16 && 0 < xSrc && 0 < xOut < UINT16
      && 0 < width && 0 < rows
    }

    function Start(): nat
      requires yOut > 0
    { RoundUp24(first * ySrc, yOut) }

    function YStep(): nat
      requires yOut > 0
    { RoundUp24(ySrc, yOut) }

    function XStep(): nat
      requires xOut > 0
    { RoundUp24(xSrc, xOut) }

    /** Position of output row q relative to the first source row of the window. */
    function Rel(q: nat): nat
      requires yOut > 0
    { Start() % ONE24 + q * YStep() }

    /** First source row of the window. */
    function Base(): nat
      requires yOut > 0
    { Start() / ONE24 }
  }

  lemma RelIsPosition(s: Stripe, q: nat)
    requires s.yOut > 0
    ensures s.Base() * ONE24 + s.Rel(q) == Position(s.first, q, s.ySrc, s.yOut)
  {
  }

  // ----- scale-down -----

  /** The window serves rows 0..outRows-1 of the stripe, going down. */
  predicate DownStripe(s: Stripe) {
    && s.Valid()
    && s.xOut <= s.xSrc == s.width && s.outWidth == s.xOut
    && s.yOut <= s.ySrc
    && s.first + s.outRows <= s.yOut
    && s.outRows > 0
    && s.Base() + s.rows == Ceil((s.first + s.outRows) * s.ySrc, s.yOut)
  }

  /** Reference value of a scale-down sample: area weights over the rows of the whole window. */
  function WindowSum(s: Stripe, src: seq<Byte>, q: nat, x: nat, c: nat): nat
    requires s.yOut > 0 && s.xOut > 0
  {
    var yLo := Low256(s.Rel(q));
    var xLo := Low256(x * s.XStep());
    AreaSum(src, c, s.ofs, s.rows, yLo, yLo + Span256(s.YStep()),
            s.width, xLo, xLo + Span256(s.XStep()))
  }

  function TotalWeight(s: Stripe): nat
    requires s.yOut > 0 && s.xOut > 0
  {
    NatProduct(Span256(s.XStep()), Span256(s.YStep()));
    Span256(s.XStep()) * Span256(s.YStep())
  }

  function WindowSample(s: Stripe, src: seq<Byte>, q: nat, x: nat, c: nat): Byte
    requires s.yOut > 0 && s.xOut > 0
    requires TotalWeight(s) > 0
  {
    Normalise(WindowSum(s, src, q, x, c) % UINT32, UINT32 / TotalWeight(s)) % 256
  }

  lemma SpanAtLeastOneLine(src: nat, out: nat)
    requires 0 < out <= src
    ensures RoundUp24(src, out) >= ONE24
    ensures Span256(RoundUp24(src, out)) >= 256
  {
    RoundUp24Error(src, out);
    MulBetween(ONE24, out, src, src);
    CancelMul(out, ONE24, RoundUp24(src, out));
  }

  /** Every row of the stripe stays inside the window, and so does every column inside the image. */
  lemma DownReach(s: Stripe, q: nat)
    requires DownStripe(s) && q < s.outRows
    ensures Low256(s.Rel(q)) + Span256(s.YStep()) <= 256 * s.rows
  {
    DownWindow(s.first, q, s.first + s.outRows - 1, s.ySrc, s.yOut);
    RelIsPosition(s, q);
    ShiftCells(s.Base(), s.Rel(q));
  }

  lemma ShiftCells(base: nat, rel: nat)
    ensures Low256(base * ONE24 + rel) == 256 * base + Low256(rel)
  {
  }

  lemma DownColumns(s: Stripe, x: nat)
    requires DownStripe(s) && x < s.outWidth
    ensures Low256(x * s.XStep()) + Span256(s.XStep()) <= 256 * s.width
  {
    StartAtZero(s.xSrc, s.xOut);
    DownWindow(0, x, s.xOut - 1, s.xSrc, s.xOut);
    DivMul(s.xSrc, s.xOut, 0);
    CeilBounds(s.xOut * s.xSrc, s.xOut);
    assert 0 * s.xSrc == 0;
  }

  /** The kernel's row, which starts at the source row the sample starts in, computes the reference
      sum over the whole window. */
  lemma KernelSumIsWindowSum(s: Stripe, src: seq<Byte>, q: nat, x: nat, c: nat)
    requires DownStripe(s) && q < s.outRows
    requires TotalWeight(s) > 0
    ensures KernelRow(s, src, q).Sum(x, c) == WindowSum(s, src, q, x, c)
  {
    DownReach(s, q);
    SpanAtLeastOneLine(s.ySrc, s.yOut);
    var row := KernelRow(s, src, q);
    var lo, span := Low256(s.Rel(q)), Span256(s.YStep());
    NoWeightAfter(lo % 256 + span);
    SameArea(row, c, s.width, lo / 256, s.rows, lo, lo + span, row.XLow(x), row.XLow(x) + row.xInv / ONE24);
    XCells(x, s.XStep());
  }

  lemma XCells(x: nat, step: nat)
    ensures x * (256 * step) / ONE24 == Low256(x * step)
    ensures 256 * step / ONE24 == Span256(step)
  {
    assert x * (256 * step) == 256 * (x * step);
    WordsToCells(x * step, step);
  }

  /** The row count of a kernel covers its sample. */
  lemma NoWeightAfter(hi: nat)
    ensures hi <= 256 * Down.InRows(hi)
  {
  }

  lemma WordsToCells(p: nat, step: nat)
    ensures 256 * p / ONE24 == Low256(p) && 256 * step / ONE24 == Span256(step)
    ensures 256 * p / UINT32 == p / ONE24 == Low256(p) / 256
    ensures 256 * p / ONE24 % 256 == Low256(p) % 256
  {
  }

  function KernelRow(s: Stripe, src: seq<Byte>, q: nat): Down.Row
    requires s.yOut > 0 && s.xOut > 0
    requires TotalWeight(s) > 0
  {
    var lo := Low256(s.Rel(q));
    var yLo := lo % 256;
    NatProduct(lo / 256, s.ofs);
    Down.Row(src, lo / 256 * s.ofs, s.ofs, Down.InRows(yLo + Span256(s.YStep())),
             yLo, yLo + Span256(s.YStep()), s.width, 256 * s.XStep(), UINT32 / TotalWeight(s))
  }

  /** Starting the row sum at the first covered row, and stopping it after the last, changes nothing. */
  lemma SameTap(src: seq<Byte>, col: int, ofs: nat, s: nat, inRows: nat, rows: nat, lo: nat, hi: nat)
    requires s == lo / 256 && lo <= hi <= 256 * rows && hi - 256 * s <= 256 * inRows
    ensures RowTap(src, col + s * ofs, ofs, inRows, lo % 256, lo % 256 + (hi - lo))
         == RowTap(src, col, ofs, rows, lo, hi)
  {
    RowTapShift(src, col, ofs, s, inRows, lo, hi);
    if s + inRows <= rows {
      RowTapFrom(src, col, ofs, s + inRows, rows, lo, hi);
    } else {
      RowTapFrom(src, col, ofs, rows, s + inRows, lo, hi);
    }
  }

  lemma {:induction false} SameArea(row: Down.Row, c: nat, cols: nat, s: nat, rows: nat, lo: nat, hi: nat,
                                    xLo: nat, xHi: nat)
    requires row.at == s * row.ofs && s == lo / 256
    requires row.yLo == lo % 256 && row.yHi == row.yLo + (hi - lo) && lo <= hi <= 256 * rows
    requires row.yHi <= 256 * row.inRows
    ensures AreaSum(row.src, row.at + c, row.ofs, row.inRows, row.yLo, row.yHi, cols, xLo, xHi)
         == AreaSum(row.src, c, row.ofs, rows, lo, hi, cols, xLo, xHi)
  {
    if cols > 0 {
      SameArea(row, c, cols - 1, s, rows, lo, hi, xLo, xHi);
      SameTap(row.src, c + 3 * (cols - 1), row.ofs, s, row.inRows, rows, lo, hi);
    }
  }

  /** Rows read for output row q: at most one of them lies outside the window, directly behind it, and
      that one has weight zero. */
  lemma DownRowsRead(s: Stripe, q: nat)
    requires DownStripe(s) && q < s.outRows
    ensures var lo := Low256(s.Rel(q));
            var last := lo / 256 + Down.InRows(lo % 256 + Span256(s.YStep())) - 1;
            && last <= s.rows
            && forall j: nat {:trigger Overlap(j, lo, lo + Span256(s.YStep()))} | j >= s.rows ::
                 Overlap(j, lo, lo + Span256(s.YStep())) == 0
  {
    DownReach(s, q);
    SpanAtLeastOneLine(s.ySrc, s.yOut);
  }

  /** All pixels that sample (q, x, c) covers lie in m..M. */
  ghost predicate SampleWithin(s: Stripe, src: seq<Byte>, q: nat, x: nat, c: nat, m: nat, M: nat)
    requires s.yOut > 0 && s.xOut > 0
  {
    var yLo, xLo := Low256(s.Rel(q)), Low256(x * s.XStep());
    CoveredWithin(src, c, s.ofs, s.rows, yLo, yLo + Span256(s.YStep()),
                  s.width, xLo, xLo + Span256(s.XStep()), m, M)
  }

  /** A scale-down sample.  While its sum fits 32 bits it misses the exact weighted mean by less than one and
      a half and does not exceed the pixels it covers; for total weights up to 2^23 the accumulator never
      wraps, the result is within one of the mean, and it stays in the range m..M of the pixels. */
  lemma DownSampleIsMean(s: Stripe, src: seq<Byte>, q: nat, x: nat, c: nat, m: nat, M: nat, w: nat)
    requires DownStripe(s) && q < s.outRows && x < s.outWidth
    requires w == TotalWeight(s) && w > 0 && M <= 255
    requires SampleWithin(s, src, q, x, c, m, M)
    ensures var sum, out := WindowSum(s, src, q, x, c), WindowSample(s, src, q, x, c);
            && m * w <= sum <= M * w
            && (sum < UINT32 ==> 2 * sum - 3 * w < 2 * (out * w) <= 2 * sum + w && out <= M)
            && (w <= 0x80_0000 ==> sum < UINT32 && m <= out <= M && sum - w < out * w < sum + w)
  {
    hide Normalise, TotalWeight, WindowSum, SampleWithin, RoundUp24, Ceil;
    DownSumWithin(s, src, q, x, c, m, M);
    var sum := WindowSum(s, src, q, x, c);
    WeighBounds(w, M, 0, 255);
    if sum < UINT32 {
      SmallMod(sum, UINT32);
      NormaliseWithoutWrap(sum, w, M);
    }
    if w <= 0x80_0000 {
      NormaliseInRange(sum, w, m, M);
      NormaliseNearMean(sum, w);
    }
  }

  /** Exactly when a sample of a constant region keeps its value. */
  lemma ConstantSampleIff(s: Stripe, src: seq<Byte>, q: nat, x: nat, c: nat, v: nat, w: nat)
    requires DownStripe(s) && q < s.outRows && x < s.outWidth
    requires w == TotalWeight(s) && w > 0 && v <= 255
    requires SampleWithin(s, src, q, x, c, v, v)
    ensures WindowSample(s, src, q, x, c) == v <==> v * w < UINT32 && v * (UINT32 % w) <= HALF32
  {
    hide Normalise, TotalWeight, WindowSum, SampleWithin, RoundUp24, Ceil;
    DownSumWithin(s, src, q, x, c, v, v);
    ConstantPreservedIff(v, w);
  }

  lemma DownSumWithin(s: Stripe, src: seq<Byte>, q: nat, x: nat, c: nat, m: nat, M: nat)
    requires DownStripe(s) && q < s.outRows && x < s.outWidth
    requires SampleWithin(s, src, q, x, c, m, M)
    ensures m * TotalWeight(s) <= WindowSum(s, src, q, x, c) <= M * TotalWeight(s)
  {
    DownReach(s, q);
    DownColumns(s, x);
    var yLo, xLo, ySpan, xSpan := Low256(s.Rel(q)), Low256(x * s.XStep()), Span256(s.YStep()), Span256(s.XStep());
    SumWithin(src, c, s.ofs, s.rows, yLo, ySpan, s.width, xLo, xSpan, m, M);
  }

  lemma SumWithin(src: seq<Byte>, at: int, ofs: int, rows: nat, yLo: nat, ySpan: nat,
                  cols: nat, xLo: nat, xSpan: nat, m: nat, M: nat)
    requires yLo + ySpan <= 256 * rows && xLo + xSpan <= 256 * cols
    requires CoveredWithin(src, at, ofs, rows, yLo, yLo + ySpan, cols, xLo, xLo + xSpan, m, M)
    ensures m * (xSpan * ySpan)
         <= AreaSum(src, at, ofs, rows, yLo, yLo + ySpan, cols, xLo, xLo + xSpan)
         <= M * (xSpan * ySpan)
  {
    OverlapSumIsLength(rows, yLo, yLo + ySpan);
    OverlapSumIsLength(cols, xLo, xLo + xSpan);
    AreaSumBounds(src, at, ofs, rows, yLo, yLo + ySpan, cols, xLo, xLo + xSpan, m, M);
    WeightOrder(m, ySpan, xSpan);
    WeightOrder(M, ySpan, xSpan);
  }

  lemma WeightOrder(v: nat, a: nat, b: nat)
    ensures v * a * b == v * (b * a)
  {
  }

  lemma KernelSampleIsWindowSample(s: Stripe, src: seq<Byte>, q: nat, x: nat, c: nat)
    requires DownStripe(s) && q < s.outRows && TotalWeight(s) > 0
    ensures KernelRow(s, src, q).Sample(x, c) == WindowSample(s, src, q, x, c)
  {
    hide DownStripe, WindowSum, Down.Row.Sum, Normalise, TotalWeight;
    KernelSumIsWindowSum(s, src, q, x, c);
  }

  lemma KernelRowReadable(s: Stripe, src: seq<Byte>, q: nat, top: nat, bot: nat)
    requires DownStripe(s) && q < s.outRows
    requires TotalWeight(s) > 0
    requires s.rows * s.ofs + 3 * s.width <= |src|
    requires Down.RowPlan(KernelRow(s, src, q).inRows, top, bot, KernelRow(s, src, q).yLo, KernelRow(s, src, q).yHi)
    ensures KernelRow(s, src, q).Readable(s.outWidth, top, bot)
  {
    var row := KernelRow(s, src, q);
    DownRowsRead(s, q);
    LastByte(Low256(s.Rel(q)) / 256, row.inRows, s.rows, s.ofs);
    KernelColumnReach(s, src, q);
  }

  lemma LastByte(first: nat, inRows: nat, rows: nat, ofs: nat)
    requires inRows > 0 && first + inRows - 1 <= rows
    ensures first * ofs + (inRows - 1) * ofs <= rows * ofs
  {
    MulBetween(ofs, first + inRows - 1, rows, rows);
    assert first * ofs + (inRows - 1) * ofs == ofs * (first + inRows - 1);
  }

  lemma KernelColumnReach(s: Stripe, src: seq<Byte>, q: nat)
    requires DownStripe(s) && q < s.outRows
    requires TotalWeight(s) > 0
    ensures var row := KernelRow(s, src, q);
            && row.xInv / ONE24 >= 256
            && forall x: nat | x < s.outWidth :: row.XLow(x) + row.xInv / ONE24 <= 256 * row.width
  {
    SpanAtLeastOneLine(s.xSrc, s.xOut);
    XCells(0, s.XStep());
    var row := KernelRow(s, src, q);
    forall x: nat | x < s.outWidth
      ensures row.XLow(x) + row.xInv / ONE24 <= 256 * row.width
    {
      XCells(x, s.XStep());
      DownColumns(s, x);
    }
  }

  // ----- scale-up -----

  /** The window serves rows first..last of the stripe, going up; one more row may be generated. */
  predicate UpStripe(s: Stripe, last: nat) {
    && s.Valid()
    && s.xSrc <= s.xOut && s.width == s.xSrc + 1 && s.outWidth == s.xOut + 1
    && s.ySrc <= s.yOut
    && s.first <= last <= s.yOut
    && s.outRows == last - s.first + 1 + (if last * s.ySrc % s.yOut == 0 then 0 else 1)
    && s.first + s.outRows <= s.yOut + 1
    && s.Base() + s.rows == Ceil(last * s.ySrc, s.yOut) + 1
  }

  function UpRow(s: Stripe, src: seq<Byte>, q: nat): (row: Up.Row)
    requires s.yOut > 0 && s.xOut > 0
    ensures row.weightY < 1024
  {
    NatProduct(s.Rel(q) / ONE24, s.ofs);
    Up.Row(src, s.Rel(q) / ONE24 * s.ofs, s.ofs, Weight10(s.Rel(q)), 256 * s.XStep())
  }

  /** Every requested row of a stripe of fewer than 2^14 rows takes its data from the window: the second
      source row, when it lies outside, has weight zero. */
  lemma UpRowsInWindow(s: Stripe, last: nat, q: nat)
    requires UpStripe(s, last) && s.first + q <= last && Roundings(s.first, q) < 0x4000
    ensures s.Rel(q) / ONE24 < s.rows
    ensures Weight10(s.Rel(q)) != 0 ==> s.Rel(q) / ONE24 + 1 < s.rows
  {
    UpWindow(s.first, q, last, s.ySrc, s.yOut);
    RelIsPosition(s, q);
    ShiftWhole(s.Base(), s.Rel(q));
  }

  ghost predicate RowInWindow(s: Stripe, q: nat)
    requires s.yOut > 0
  {
    s.Rel(q) / ONE24 < s.rows && (Weight10(s.Rel(q)) != 0 ==> s.Rel(q) / ONE24 + 1 < s.rows)
  }

  /** The window's last source line. */
  function EndLine(s: Stripe, last: nat): nat
    requires s.yOut > 0
  {
    NatProduct(last, s.ySrc);
    Ceil(last * s.ySrc, s.yOut)
  }

  /** For stripes of any height: all requested rows take their data from the window if and only if the drift
      of the last one stays below one weight unit. */
  lemma UpRowsInWindowIff(s: Stripe, last: nat)
    requires UpStripe(s, last)
    ensures (forall q: nat | s.first + q <= last :: RowInWindow(s, q))
        <==> Position(s.first, last - s.first, s.ySrc, s.yOut) < EndLine(s, last) * ONE24 + 0x4000
  {
    hide RowInWindow, InWindow, RoundUp24, Ceil, Position;
    UpWindowIff(s.first, last, s.ySrc, s.yOut);
    forall q: nat | s.first + q <= last
      ensures RowInWindow(s, q) <==> InWindow(s.first, q, last, s.ySrc, s.yOut)
    {
      SameWindow(s, last, q);
    }
  }

  lemma SameWindow(s: Stripe, last: nat, q: nat)
    requires UpStripe(s, last) && s.first + q <= last
    ensures RowInWindow(s, q) <==> InWindow(s.first, q, last, s.ySrc, s.yOut)
  {
    hide RoundUp24, Ceil;
    RelIsPosition(s, q);
    ShiftWhole(s.Base(), s.Rel(q));
  }

  lemma ShiftWhole(base: nat, rel: nat)
    ensures (base * ONE24 + rel) / ONE24 == base + rel / ONE24
    ensures Weight10(base * ONE24 + rel) == Weight10(rel)
  {
  }

  /** The columns of a row: for an edge-safe width, only columns of the image carry weight. */
  lemma UpColumnsInImage(s: Stripe, last: nat, src: seq<Byte>, q: nat, x: nat)
    requires UpStripe(s, last) && x < s.outWidth && EdgeSafe(s.xSrc, s.xOut)
    ensures UpRow(s, src, q).Column(x) < s.width
    ensures UpRow(s, src, q).WeightX(x) != 0 ==> UpRow(s, src, q).Column(x) + 1 < s.width
  {
    UpEdgeIff(s.xSrc, s.xOut);
    assert ColumnInRange(x, s.xSrc, s.xOut);
    UpColumnWords(x, s.XStep());
    StartAtZero(s.xSrc, s.xOut);
  }

  lemma UpColumnWords(x: nat, step: nat)
    ensures x * (256 * step) / UINT32 == x * step / ONE24
    ensures x * (256 * step) % UINT32 / 0x40_0000 == Weight10(x * step)
  {
    assert x * (256 * step) == 256 * (x * step);
    WordsToCells(x * step, step);
    WordFraction(x * step);
  }

  lemma GroupProduct(a: nat, b: nat, c: nat)
    ensures a * b * c == a * (b * c)
  {
  }

  lemma WordFraction(p: nat)
    ensures 256 * p % UINT32 / 0x40_0000 == Weight10(p)
  {
    assert p == p / ONE24 * ONE24 + p % ONE24;
    assert 256 * p == p / ONE24 * UINT32 + 256 * (p % ONE24);
    DivMul(p / ONE24, UINT32, 256 * (p % ONE24));
    assert 256 * p % UINT32 == 256 * (p % ONE24);
  }

  /** How many bytes of the source buffer the plane loop touches: the last pixel of the last generated row
      looks one row down and one pixel on. */
  function UpBytes(s: Stripe): nat
    requires s.yOut > 0 && s.outRows > 0
  {
    NatProduct(s.Rel(s.outRows - 1) / ONE24 + 1, s.ofs);
    (s.Rel(s.outRows - 1) / ONE24 + 1) * s.ofs + 3 * s.width + 3
  }

  lemma LastPixelReadsLastByte(s: Stripe, last: nat, src: seq<Byte>)
    requires UpStripe(s, last)
    ensures var row := UpRow(s, src, s.outRows - 1);
            row.at + row.ofs + 3 * (row.Column(s.outWidth - 1) + 1) + 2 == UpBytes(s) - 1
  {
    hide Stripe.Rel, Stripe.XStep, UpStripe, Weight10;
    LastColumn(s, last);
    NextMultiple(s.Rel(s.outRows - 1) / ONE24, s.ofs);
  }

  /** The last column of a scaled-up row is the picture's. */
  lemma LastColumn(s: Stripe, last: nat)
    requires UpStripe(s, last)
    ensures s.outWidth == s.xOut + 1 && s.width == s.xSrc + 1 && s.yOut > 0 && s.xOut > 0 && s.outRows > 0
    ensures s.xOut * (256 * s.XStep()) / UINT32 == s.xSrc
  {
    UpColumnWords(s.xOut, s.XStep());
    UpColumnReach(s, last, s.xOut);
    StartAtZero(s.xSrc, s.xOut);
    PositionDrift(0, s.xOut, s.xSrc, s.xOut);
    GroupProduct(0 + s.xOut, s.xSrc, ONE24);
    CancelMul(s.xOut, s.xSrc * ONE24, Position(0, s.xOut, s.xSrc, s.xOut));
  }

  lemma UpRowReadable(s: Stripe, last: nat, src: seq<Byte>, q: nat)
    requires UpStripe(s, last) && q < s.outRows
    requires UpBytes(s) <= |src|
    ensures UpRow(s, src, q).Readable(s.outWidth, s.width)
  {
    hide RoundUp24, Ceil;
    var row := s.Rel(q) / ONE24;
    MulBetween(s.YStep(), q, s.outRows - 1, s.outRows - 1);
    assert row <= s.Rel(s.outRows - 1) / ONE24;
    LastByte(row, 2, s.Rel(s.outRows - 1) / ONE24 + 1, s.ofs);
    forall x: nat | x < s.outWidth
      ensures UpRow(s, src, q).Column(x) < s.width
    {
      UpColumnReach(s, last, x);
    }
  }

  lemma UpColumnReach(s: Stripe, last: nat, x: nat)
    requires UpStripe(s, last) && x < s.outWidth
    ensures x * (256 * s.XStep()) / UINT32 < s.width
  {
    UpColumnWords(x, s.XStep());
    StartAtZero(s.xSrc, s.xOut);
    PositionCeiling(0, x, s.xOut, s.xSrc, s.xOut);
    QuotientBound(s.xOut, s.xSrc, s.xOut);
  }

  lemma CeilStep(last: nat, k: nat, src: nat, out: nat)
    requires 0 < out && src <= out && k <= last + 1
    ensures Ceil(k * src, out) <= Ceil(last * src, out) + 1
  {
    CeilBounds(last * src, out);
    MulBetween(src, k, last + 1, last + 1);
    assert (last + 1) * src == last * src + src;
    assert (Ceil(last * src, out) + 1) * out == Ceil(last * src, out) * out + out;
    CeilAtMost(k * src, Ceil(last * src, out) + 1, out);
  }

  // ----- the plane loops -----

  /** The stripe that a configuration describes. */
  ghost function StripeOf(config: ScalerConfig): Stripe
    requires config.Defined()
    requires config.outStartRow <= config.outEndRow && config.srcStartRow <= config.srcEndRow
    reads config
  {
    Stripe(config.outStartRow,
           Extent(config.srcHeight, UpsY(config.scaleMode)), Extent(config.outHeight, UpsY(config.scaleMode)),
           Extent(config.srcWidth, UpsX(config.scaleMode)), Extent(config.outWidth, UpsX(config.scaleMode)),
           config.srcWidth, config.outWidth,
           config.outEndRow - config.outStartRow + 1, config.srcEndRow - config.srcStartRow + 1,
           config.srcBufWidth)
  }

  lemma WordParts(f: Fixed, q24: nat)
    requires Word(f) == 256 * q24 && f.fraction < UINT32
    ensures f.decimal == q24 / ONE24 && f.fraction == 256 * (q24 % ONE24)
  {
  }

  /** A window computed for a scale-down job is a stripe the scale-down lemmas apply to. */
  lemma WindowIsDownStripe(config: ScalerConfig, first: nat, last: nat)
    requires config.WindowFor(first, last) && config.scaleMode == ScaleDown
    ensures config.srcStartRow <= config.srcEndRow
    ensures DownStripe(StripeOf(config))
    ensures TotalWeight(StripeOf(config)) > 0
    ensures config.fSrcStartRow.fraction == 256 * (StripeOf(config).Start() % ONE24)
  {
    var src, out := config.srcHeight, config.outHeight;
    NatProduct(first, src);
    NatProduct(last + 1, src);
    WordParts(config.fSrcStartRow, RoundUp24(first * src, out));
    DownWindow(first, 0, last, src, out);
    SpanAtLeastOneLine(src, out);
    SpanAtLeastOneLine(config.srcWidth, config.outWidth);
    StartBelowEnd(RoundUp24(first * src, out), RoundUp24(src, out), Ceil((last + 1) * src, out));
    PositiveWeight(Span256(RoundUp24(config.srcWidth, config.outWidth)), Span256(RoundUp24(src, out)));
  }

  lemma PositiveWeight(a: nat, b: nat)
    requires a >= 256 && b >= 256
    ensures a * b > 0
  {
  }

  lemma StartBelowEnd(start: nat, step: nat, end: nat)
    requires Low256(start + 0 * step) + Span256(step) <= 256 * end && Span256(step) >= 256
    ensures start / ONE24 < end
  {
  }

  /** A window computed for a scale-up job is a stripe the scale-up lemmas apply to. */
  lemma WindowIsUpStripe(config: ScalerConfig, first: nat, last: nat)
    requires config.WindowFor(first, last) && config.scaleMode == ScaleUp
    ensures config.srcStartRow <= config.srcEndRow
    ensures UpStripe(StripeOf(config), last)
    ensures config.fSrcStartRow.fraction == 256 * (StripeOf(config).Start() % ONE24)
  {
    var src, out := config.srcHeight - 1, config.outHeight - 1;
    NatProduct(first, src);
    NatProduct(last, src);
    WordParts(config.fSrcStartRow, RoundUp24(first * src, out));
    PositionCeiling(first, 0, last, src, out);
    assert 0 * RoundUp24(src, out) == 0;
    BelowNextWhole(RoundUp24(first * src, out), Ceil(last * src, out));
  }

  lemma BelowNextWhole(p: nat, c: nat)
    requires p <= c * ONE24 + 1
    ensures p / ONE24 <= c
  {
  }

  /** The sample rows of output row q number nine, so the defective kernel serves it. */
  predicate NineRows(s: Stripe, q: nat)
    requires s.yOut > 0
  {
    Down.InRows(Low256(s.Rel(q)) % 256 + Span256(s.YStep())) == 9
  }

  /** Output row q of the stripe, `pitch` bytes a row: channel c of pixel x is byte 3x + c of the row, and the
      reference sample, unless the nine-row kernel serves the row.  That one leaves the third channel at the first
      byte of each pixel and what the buffer held before at the other two. */
  ghost predicate RowScaled(s: Stripe, src: seq<Byte>, q: nat, out: seq<Byte>, before: seq<Byte>, pitch: nat)
    requires s.yOut > 0 && s.xOut > 0 && TotalWeight(s) > 0
  {
    && 0 <= q * pitch && q * pitch + 3 * s.outWidth <= |out| == |before|
    && (!NineRows(s, q) ==>
          forall x: nat, c: nat | x < s.outWidth && c < 3 ::
            out[q * pitch + 3 * x + c] == WindowSample(s, src, q, x, c))
    && (NineRows(s, q) ==>
          forall x: nat | x < s.outWidth ::
            && out[q * pitch + 3 * x] == WindowSample(s, src, q, x, 2)
            && out[q * pitch + 3 * x + 1] == before[q * pitch + 3 * x + 1]
            && out[q * pitch + 3 * x + 2] == before[q * pitch + 3 * x + 2])
  }

  /** The row as the plane loop's words describe it. */
  function WordRow(s: Stripe, src: seq<Byte>, position: nat, xInv: nat, yInv: nat, reciprocal: nat, inRows: nat): Down.Row {
    var yLo := position / ONE24 % 256;
    NatProduct(position / UINT32, s.ofs);
    Down.Row(src, position / UINT32 * s.ofs, s.ofs, inRows, yLo, yLo + yInv / ONE24, s.width, xInv, reciprocal)
  }

  lemma WordRowIsKernelRow(s: Stripe, src: seq<Byte>, q: nat, inRows: nat)
    requires DownStripe(s) && TotalWeight(s) > 0
    requires inRows == Down.InRows(256 * s.Rel(q) / ONE24 % 256 + 256 * s.YStep() / ONE24)
    ensures s.yOut > 0 && s.xOut > 0
    ensures WordRow(s, src, 256 * s.Rel(q), 256 * s.XStep(), 256 * s.YStep(), UINT32 / TotalWeight(s), inRows)
         == KernelRow(s, src, q)
  {
    WordsToCells(s.Rel(q), s.YStep());
    hide RoundUp24, Ceil, Stripe.Rel, Stripe.YStep, Stripe.XStep, TotalWeight, DownStripe, Low256, Span256;
  }

  lemma WordRowMeans(s: Stripe, src: seq<Byte>, position: nat, xInv: nat, yInv: nat, reciprocal: nat, inRows: nat)
    ensures var row, yLo := WordRow(s, src, position, xInv, yInv, reciprocal, inRows), position / ONE24 % 256;
            row.inRows == inRows && row.yLo == yLo && row.yHi == yLo + yInv / ONE24
  {
  }

  lemma PlannedRow(s: Stripe, src: seq<Byte>, q: nat, position: nat, xInv: nat, yInv: nat, reciprocal: nat,
                   inRows: nat, top: nat, bot: nat)
    requires DownStripe(s) && q < s.outRows && TotalWeight(s) > 0
    requires position == 256 * s.Rel(q) && xInv == 256 * s.XStep() && yInv == 256 * s.YStep()
    requires reciprocal == UINT32 / TotalWeight(s)
    requires s.rows * s.ofs + 3 * s.width <= |src|
    requires Down.RowPlan(inRows, top, bot, position / ONE24 % 256, position / ONE24 % 256 + yInv / ONE24)
    requires inRows == Down.InRows(position / ONE24 % 256 + yInv / ONE24)
    ensures s.yOut > 0 && s.xOut > 0
    ensures WordRow(s, src, position, xInv, yInv, reciprocal, inRows) == KernelRow(s, src, q)
    ensures KernelRow(s, src, q).Readable(s.outWidth, top, bot)
  {
    assert ONE24 == 0x100_0000 && UINT32 == 0x1_0000_0000;
    hide *;
    WordRowIsKernelRow(s, src, q, inRows);
    WordRowMeans(s, src, position, xInv, yInv, reciprocal, inRows);
    KernelRowReadable(s, src, q, top, bot);
  }

  /** One row of the scale-down loop. */
  method DownRow(s: Stripe, src: seq<Byte>, out: array<Byte>, q: nat, position: nat, xInv: nat, yInv: nat,
                 reciprocal: nat, outAt: nat)
    requires DownStripe(s) && q < s.outRows && TotalWeight(s) > 0
    requires position == 256 * s.Rel(q) && xInv == 256 * s.XStep() && yInv == 256 * s.YStep()
    requires reciprocal == UINT32 / TotalWeight(s)
    requires s.rows * s.ofs + 3 * s.width <= |src|
    requires outAt + 3 * s.outWidth <= out.Length
    modifies out
    ensures KernelRow(s, src, q).Stored(out[..], old(out[..]), outAt, s.outWidth)
  {
    assert ONE24 == 0x100_0000 && UINT32 == 0x1_0000_0000;
    hide *;
    var inRows, top, bot := Down.PlanRows(position, yInv);
    PlannedRow(s, src, q, position, xInv, yInv, reciprocal, inRows, top, bot);
    var row := WordRow(s, src, position, xInv, yInv, reciprocal, inRows);
    Down.ScaleRowDown(row, out, outAt, top, bot, s.outWidth);
  }

  ghost predicate BufferFits(rows: nat, pitch: nat, size: nat, length: nat) {
    rows > 0 && size <= pitch && (rows - 1) * pitch + size <= length
  }

  /** Rows 0..r-1 of the output buffer are scaled. */
  ghost predicate RowsScaled(s: Stripe, src: seq<Byte>, r: nat, out: seq<Byte>, before: seq<Byte>, pitch: nat)
    requires s.yOut > 0 && s.xOut > 0 && TotalWeight(s) > 0
  {
    forall q: nat | q < r :: RowScaled(s, src, q, out, before, pitch)
  }

  lemma NewRowScaled(s: Stripe, src: seq<Byte>, now: seq<Byte>, mid: seq<Byte>, before: seq<Byte>, r: nat, pitch: nat)
    requires DownStripe(s) && r < s.outRows && TotalWeight(s) > 0
    requires 0 <= r * pitch && r * pitch + 3 * s.outWidth <= |now|
    requires KernelRow(s, src, r).Stored(now, mid, r * pitch, s.outWidth)
    requires SameFrom(mid, before, r * pitch)
    ensures RowScaled(s, src, r, now, before, pitch)
  {
    hide *;
    WindowDivides(s);
    var row := KernelRow(s, src, r);
    KernelRowSpans(s, src, r);
    forall x: nat, c: nat | x < s.outWidth && c < 3
      ensures row.Sample(x, c) == WindowSample(s, src, r, x, c)
    {
      KernelSampleIsWindowSample(s, src, r, x, c);
    }
    BytesScaled(s, src, row, now, mid, before, r, pitch, r * pitch);
  }

  lemma WindowDivides(s: Stripe)
    requires DownStripe(s)
    ensures s.yOut > 0 && s.xOut > 0
  {
  }

  lemma KernelRowSpans(s: Stripe, src: seq<Byte>, q: nat)
    requires s.yOut > 0 && s.xOut > 0 && TotalWeight(s) > 0
    ensures KernelRow(s, src, q).inRows == 9 <==> NineRows(s, q)
  {
    hide TotalWeight, Stripe.Rel, Stripe.YStep;
  }

  lemma BytesScaled(s: Stripe, src: seq<Byte>, row: Down.Row, now: seq<Byte>, mid: seq<Byte>, before: seq<Byte>,
                    r: nat, pitch: nat, at: nat)
    requires s.yOut > 0 && s.xOut > 0 && TotalWeight(s) > 0
    requires at == r * pitch && at + 3 * s.outWidth <= |now|
    requires row.inRows == 9 <==> NineRows(s, r)
    requires forall x: nat, c: nat | x < s.outWidth && c < 3 :: row.Sample(x, c) == WindowSample(s, src, r, x, c)
    requires row.Stored(now, mid, at, s.outWidth) && SameFrom(mid, before, at)
    ensures RowScaled(s, src, r, now, before, pitch)
  {
    hide TotalWeight, WindowSample, NineRows, Down.Row.Sample;
    if NineRows(s, r) {
      forall x: nat | x < s.outWidth
        ensures && now[at + 3 * x] == WindowSample(s, src, r, x, 2)
                && now[at + 3 * x + 1] == before[at + 3 * x + 1]
                && now[at + 3 * x + 2] == before[at + 3 * x + 2]
      {
        assert row.Sample(x, 2) == WindowSample(s, src, r, x, 2);
      }
    } else {
      forall x: nat, c: nat | x < s.outWidth && c < 3
        ensures now[at + 3 * x + c] == WindowSample(s, src, r, x, c)
      {
        assert row.Sample(x, c) == WindowSample(s, src, r, x, c);
      }
    }
  }

  /** Writing row r keeps row q before it. */
  lemma OldRowScaled(s: Stripe, src: seq<Byte>, now: seq<Byte>, mid: seq<Byte>, before: seq<Byte>, q: nat, r: nat,
                     pitch: nat)
    requires s.yOut > 0 && s.xOut > 0 && TotalWeight(s) > 0 && RowScaled(s, src, q, mid, before, pitch)
    requires q < r && 3 * s.outWidth <= pitch && 0 <= r * pitch && SameOutside(now, mid, r * pitch, 3 * s.outWidth)
    ensures RowScaled(s, src, q, now, before, pitch)
  {
    hide WindowSample, NineRows, TotalWeight;
    RowsApart(q, r, pitch, 3 * s.outWidth);
  }

  /** Writing row r scales it and keeps the others. */
  lemma DownRowPlaced(s: Stripe, src: seq<Byte>, now: seq<Byte>, mid: seq<Byte>, before: seq<Byte>, r: nat, pitch: nat)
    requires DownStripe(s) && r < s.outRows && TotalWeight(s) > 0
    requires 0 <= r * pitch && r * pitch + 3 * s.outWidth <= |now| && 3 * s.outWidth <= pitch
    requires KernelRow(s, src, r).Stored(now, mid, r * pitch, s.outWidth)
    requires SameFrom(mid, before, r * pitch)
    requires RowsScaled(s, src, r, mid, before, pitch)
    ensures RowsScaled(s, src, r + 1, now, before, pitch)
    ensures SameFrom(now, before, r * pitch + pitch)
  {
    assert SameOutside(now, mid, r * pitch, 3 * s.outWidth);
    assert SameFrom(now, before, r * pitch + pitch);
    hide KernelRow, TotalWeight, RowScaled, SameFrom, SameOutside, Down.Row.Stored;
    forall q: nat | q < r + 1
      ensures RowScaled(s, src, q, now, before, pitch)
    {
      if q == r {
        NewRowScaled(s, src, now, mid, before, r, pitch);
      } else {
        OldRowScaled(s, src, now, mid, before, q, r, pitch);
      }
    }
  }

  /** One turn of the scale-down loop. */
  method NextDownRow(s: Stripe, src: seq<Byte>, out: array<Byte>, r: nat, position: nat, xInv: nat, yInv: nat,
                     reciprocal: nat, outAt: nat, ghost before: seq<Byte>, ghost pitch: nat)
    requires DownStripe(s) && r < s.outRows && TotalWeight(s) > 0
    requires position == 256 * s.Rel(r) && xInv == 256 * s.XStep() && yInv == 256 * s.YStep()
    requires reciprocal == UINT32 / TotalWeight(s)
    requires s.rows * s.ofs + 3 * s.width <= |src|
    requires BufferFits(s.outRows, pitch, 3 * s.outWidth, out.Length) && outAt == r * pitch
    requires RowsScaled(s, src, r, out[..], before, pitch) && SameFrom(out[..], before, outAt)
    modifies out
    ensures RowsScaled(s, src, r + 1, out[..], before, pitch) && SameFrom(out[..], before, outAt + pitch)
  {
    hide TotalWeight, RowsScaled, SameFrom, SameOutside, Down.Row.Stored, KernelRow;
    ghost var mid := out[..];
    RowInside(r, s.outRows, pitch, 3 * s.outWidth, out.Length);
    DownRow(s, src, out, r, position, xInv, yInv, reciprocal, outAt);
    DownRowPlaced(s, src, out[..], mid, before, r, pitch);
  }

  /** `_hw_scale_image_plane` for a scale-down job.  The source buffer holds the window and one more
      row, as the caller allocates it.  Byte 3x + c of every output row is the area-weighted sample of channel c at pixel x,
      except where the samples span exactly nine source rows and go through the defective kernel. */
  method ScalePlaneDown(config: ScalerConfig, src: seq<Byte>, out: array<Byte>, ghost first: nat, ghost last: nat)
    requires config.WindowFor(first, last) && config.scaleMode == ScaleDown
    requires config.srcStartRow <= config.srcEndRow ==>
               var s := StripeOf(config);
               && s.rows * s.ofs + 3 * s.width <= |src|
               && BufferFits(s.outRows, config.outBufWidth, 3 * s.outWidth, out.Length)
    modifies out
    ensures config.srcStartRow <= config.srcEndRow
    ensures var s := StripeOf(config);
            && s.xOut > 0 && s.yOut > 0 && TotalWeight(s) > 0
            && RowsScaled(s, src, s.outRows, out[..], old(out[..]), config.outBufWidth)
  {
    WindowIsDownStripe(config, first, last);
    ghost var whole := StripeOf(config);
    var s := Stripe(config.outStartRow, config.srcHeight, config.outHeight, config.srcWidth, config.outWidth,
                    config.srcWidth, config.outWidth, config.outEndRow - config.outStartRow + 1,
                    config.srcEndRow - config.srcStartRow + 1, config.srcBufWidth);
    var xInv, yInv := Word(config.xFactorInv), Word(config.yFactorInv);
    WordsToCells(0, s.XStep());
    WordsToCells(0, s.YStep());
    assert xInv / ONE24 * (yInv / ONE24) == TotalWeight(s);
    var reciprocal := UINT32 / (xInv / ONE24 * (yInv / ONE24));
    var pitch := config.outBufWidth;
    var position := config.fSrcStartRow.fraction;
    var outAt := 0;
    var r := 0;
    ghost var before := out[..];
    while r < s.outRows
      invariant 0 <= r <= s.outRows
      invariant outAt == r * pitch
      invariant position == 256 * s.Rel(r)
      invariant RowsScaled(s, src, r, out[..], before, pitch)
      invariant SameFrom(out[..], before, outAt)
    {
      NextDownRow(s, src, out, r, position, xInv, yInv, reciprocal, outAt, before, pitch);
      RelNext(s, r);
      NextMultiple(r, pitch);
      position := position + yInv;
      outAt := outAt + pitch;
      r := r + 1;
    }
  }

  lemma RelNext(s: Stripe, r: nat)
    requires s.yOut > 0
    ensures s.Rel(r + 1) == s.Rel(r) + s.YStep()
  {
    NextMultiple(r, s.YStep());
  }

  /** One row of the scale-up loop. */
  method UpRowAt(s: Stripe, ghost last: nat, src: seq<Byte>, out: array<Byte>, q: nat, position: nat, xInv: nat,
                 outAt: nat)
    requires UpStripe(s, last) && q < s.outRows
    requires position == 256 * s.Rel(q) && xInv == 256 * s.XStep()
    requires UpBytes(s) <= |src|
    requires outAt + 3 * s.outWidth <= out.Length
    modifies out
    ensures UpRow(s, src, q).ShownAt(out[..], outAt, s.outWidth)
    ensures SameOutside(out[..], old(out[..]), outAt, 3 * s.outWidth)
  {
    hide RoundUp24, Ceil;
    WordsToCells(s.Rel(q), 0);
    WordFraction(s.Rel(q));
    NatProduct(s.Rel(q) / ONE24, s.ofs);
    var row := Up.Row(src, position / UINT32 * s.ofs, s.ofs, position % UINT32 / 0x40_0000, xInv);
    assert row == UpRow(s, src, q);
    UpRowReadable(s, last, src, q);
    Up.ScaleRowUp(row, out, outAt, s.outWidth, s.width);
  }

  /** The weights of a scale-up job, whose product the plane loop divides by although it does not use the
      quotient, are not zero exactly if no axis is enlarged more than 256-fold, counted in steps. */
  lemma UpWeightIff(config: ScalerConfig)
    requires config.FactorsReady() && config.scaleMode == ScaleUp
    ensures Span256(RoundUp24(config.srcWidth - 1, config.outWidth - 1))
            * Span256(RoundUp24(config.srcHeight - 1, config.outHeight - 1)) > 0
        <==> FineEnough(config.srcWidth, config.outWidth) && FineEnough(config.srcHeight, config.outHeight)
  {
    hide RoundUp24, Span256;
    FineStepIff(config.srcWidth - 1, config.outWidth - 1);
    FineStepIff(config.srcHeight - 1, config.outHeight - 1);
    ProductIsPositive(Span256(RoundUp24(config.srcWidth - 1, config.outWidth - 1)),
                      Span256(RoundUp24(config.srcHeight - 1, config.outHeight - 1)));
  }

  lemma ProductIsPositive(a: nat, b: nat)
    ensures a * b > 0 <==> a > 0 && b > 0
  {
    NatProduct(a, b);
    if a == 0 || b == 0 {
      assert a * b == 0;
    }
  }

  /** An axis of this length, in lines, may be scaled up to that one. */
  predicate FineEnough(src: nat, out: nat) {
    out - 1 <= 256 * (src - 1)
  }

  /** All divisions of a scale-up job: by the extents, and by the product of the steps. */
  predicate UpJobDivides(inWidth: nat, inHeight: nat, toWidth: nat, toHeight: nat) {
    && Divides(inWidth, toWidth, true) && Divides(inHeight, toHeight, true)
    && Span256(RoundUp24(inWidth - 1, toWidth - 1)) * Span256(RoundUp24(inHeight - 1, toHeight - 1)) != 0
  }

  /** They are all defined if and only if the picture has two lines at least in both directions, and is enlarged
      at most 256-fold. */
  lemma UpJobDividesIff(inWidth: nat, inHeight: nat, toWidth: nat, toHeight: nat)
    requires 0 < inWidth <= toWidth < UINT16 && 0 < inHeight <= toHeight < UINT16
    ensures UpJobDivides(inWidth, inHeight, toWidth, toHeight)
        <==> && inWidth >= 2 && inHeight >= 2
             && toWidth - 1 <= 256 * (inWidth - 1) && toHeight - 1 <= 256 * (inHeight - 1)
  {
    hide RoundUp24, Span256;
    if inWidth >= 2 && inHeight >= 2 {
      FineStepIff(inWidth - 1, toWidth - 1);
      FineStepIff(inHeight - 1, toHeight - 1);
      ProductIsPositive(Span256(RoundUp24(inWidth - 1, toWidth - 1)), Span256(RoundUp24(inHeight - 1, toHeight - 1)));
    }
  }

  /** A picture of ten by ten pixels scaled to 3300 by 3300, and one of a single column. */
  lemma SmallPicturesFail()
    ensures ModeFor(10, 10, 3300, 3300) == ScaleUp && !UpJobDivides(10, 10, 3300, 3300)
    ensures Divides(10, 3300, true) && RoundUp24(9, 3299) == 45770
    ensures ModeFor(1, 100, 5, 500) == ScaleUp && !UpJobDivides(1, 100, 5, 500)
  {
  }

  /** `_hw_scale_image_plane` for a scale-up job, on a source buffer that holds the bytes the loop touches.  It
      divides by zero before the first row exactly when an axis is enlarged more than 256-fold. */
  method ScalePlaneUp(config: ScalerConfig, src: seq<Byte>, out: array<Byte>, ghost first: nat, ghost last: nat)
    returns (ok: bool)
    requires config.WindowFor(first, last) && config.scaleMode == ScaleUp
    requires config.srcStartRow <= config.srcEndRow ==>
               var s := StripeOf(config);
               && s.yOut > 0 && UpBytes(s) <= |src|
               && BufferFits(s.outRows, config.outBufWidth, 3 * s.outWidth, out.Length)
    modifies out
    ensures config.srcStartRow <= config.srcEndRow
    ensures ok <==> FineEnough(config.srcWidth, config.outWidth) && FineEnough(config.srcHeight, config.outHeight)
    ensures !ok ==> out[..] == old(out[..])
    ensures var s := StripeOf(config);
            && s.xOut > 0 && s.yOut > 0
            && (ok ==> UpRowsScaled(s, src, s.outRows, out[..], config.outBufWidth))
  {
    assert ONE24 == 0x100_0000;
    hide *;
    WindowIsUpStripe(config, first, last);
    UpWords(config, first, last);
    UpWeightIff(config);
    var s := UpStripeOf(config);
    var xInv, yInv := Word(config.xFactorInv), Word(config.yFactorInv);
    NatProduct(xInv / ONE24, yInv / ONE24);
    var divisor := xInv / ONE24 * (yInv / ONE24);
    ok := divisor != 0;
    if ok {
      UpRows(s, last, src, out, config.outBufWidth, config.fSrcStartRow.fraction, xInv, yInv);
    }
  }

  /** What the plane loop reads from the configuration of a scale-up job. */
  function UpStripeOf(config: ScalerConfig): Stripe
    requires config.srcHeight > 0 && config.outHeight > 0 && config.srcWidth > 0 && config.outWidth > 0
    requires config.outStartRow <= config.outEndRow && config.srcStartRow <= config.srcEndRow
    reads config
  {
    Stripe(config.outStartRow, config.srcHeight - 1, config.outHeight - 1, config.srcWidth - 1,
           config.outWidth - 1, config.srcWidth, config.outWidth,
           config.outEndRow - config.outStartRow + 1, config.srcEndRow - config.srcStartRow + 1,
           config.srcBufWidth)
  }

  lemma UpWords(config: ScalerConfig, first: nat, last: nat)
    requires config.WindowFor(first, last) && config.scaleMode == ScaleUp
    ensures config.FactorsReady() && config.srcStartRow <= config.srcEndRow && config.outStartRow <= config.outEndRow
    ensures config.srcWidth > 0 && config.srcHeight > 0 && config.outWidth > 0 && config.outHeight > 0
    ensures UpStripeOf(config) == StripeOf(config)
    ensures var s := StripeOf(config);
            && s.xOut > 0 && s.yOut > 0
            && Word(config.xFactorInv) == 256 * s.XStep() && Word(config.yFactorInv) == 256 * s.YStep()
            && config.fSrcStartRow.fraction == 256 * s.Rel(0)
            && Word(config.xFactorInv) / ONE24 * (Word(config.yFactorInv) / ONE24)
               == Span256(RoundUp24(config.srcWidth - 1, config.outWidth - 1))
                  * Span256(RoundUp24(config.srcHeight - 1, config.outHeight - 1))
  {
    hide RoundUp24, Ceil;
    WindowIsUpStripe(config, first, last);
    var s := StripeOf(config);
    WordsToCells(0, s.XStep());
    WordsToCells(0, s.YStep());
    NoSteps(s.YStep());
  }

  lemma NoSteps(step: nat)
    ensures 0 * step == 0
  {
  }

  /** The row loop. */
  method UpRows(s: Stripe, ghost last: nat, src: seq<Byte>, out: array<Byte>, pitch: nat, start: nat, xInv: nat, yInv: nat)
    requires UpStripe(s, last) && UpBytes(s) <= |src|
    requires start == 256 * s.Rel(0) && xInv == 256 * s.XStep() && yInv == 256 * s.YStep()
    requires BufferFits(s.outRows, pitch, 3 * s.outWidth, out.Length)
    modifies out
    ensures s.xOut > 0 && s.yOut > 0 && UpRowsScaled(s, src, s.outRows, out[..], pitch)
  {
    hide RoundUp24, Ceil, UpRow, Up.Row.ShownAt, SameOutside, UpRowsScaled, Stripe.Rel, Stripe.YStep, Stripe.XStep;
    var position, outAt, r := start, 0, 0;
    NoRowScaled(s, src, out[..], pitch);
    while r < s.outRows
      invariant 0 <= r <= s.outRows
      invariant outAt == r * pitch
      invariant position == 256 * s.Rel(r)
      invariant UpRowsScaled(s, src, r, out[..], pitch)
    {
      ghost var mid := out[..];
      RowInside(r, s.outRows, pitch, 3 * s.outWidth, out.Length);
      UpRowAt(s, last, src, out, r, position, xInv, outAt);
      UpRowPlaced(s, src, r, out[..], mid, pitch);
      RelNext(s, r);
      NextMultiple(r, pitch);
      position := position + yInv;
      outAt := outAt + pitch;
      r := r + 1;
    }
  }

  /** Rows 0..n-1 of the output buffer hold bilinear samples: channel c of pixel x is byte 3x + c of its row. */
  ghost predicate UpRowsScaled(s: Stripe, src: seq<Byte>, n: nat, out: seq<Byte>, pitch: nat)
    requires s.xOut > 0 && s.yOut > 0
  {
    forall q: nat | q < n :: 0 <= q * pitch && UpRow(s, src, q).ShownAt(out, q * pitch, s.outWidth)
  }

  lemma NoRowScaled(s: Stripe, src: seq<Byte>, out: seq<Byte>, pitch: nat)
    requires s.xOut > 0 && s.yOut > 0
    ensures UpRowsScaled(s, src, 0, out, pitch)
  {
  }

  lemma UpRowPlaced(s: Stripe, src: seq<Byte>, r: nat, now: seq<Byte>, mid: seq<Byte>, pitch: nat)
    requires s.xOut > 0 && s.yOut > 0 && 3 * s.outWidth <= pitch && 0 <= r * pitch
    requires UpRow(s, src, r).ShownAt(now, r * pitch, s.outWidth)
    requires SameOutside(now, mid, r * pitch, 3 * s.outWidth)
    requires UpRowsScaled(s, src, r, mid, pitch)
    ensures UpRowsScaled(s, src, r + 1, now, pitch)
  {
    hide UpRow, Up.Row.ShownAt, SameOutside;
    forall q: nat | q <= r
      ensures 0 <= q * pitch && UpRow(s, src, q).ShownAt(now, q * pitch, s.outWidth)
    {
      if q < r {
        RowsApart(q, r, pitch, 3 * s.outWidth);
        ShownStays(UpRow(s, src, q), now, mid, q * pitch, r * pitch, s.outWidth);
      }
    }
  }

  /** Writing a row behind it keeps a row. */
  lemma ShownStays(row: Up.Row, now: seq<Byte>, mid: seq<Byte>, at: nat, at': nat, n: nat)
    requires row.weightY < 1024 && row.ShownAt(mid, at, n)
    requires at + 3 * n <= at' && SameOutside(now, mid, at', 3 * n)
    ensures row.ShownAt(now, at, n)
  {
    hide Up.Row.Sample;
  }
}
