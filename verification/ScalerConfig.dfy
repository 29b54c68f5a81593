/** Scaler set-up: the per-job factor tables and the per-stripe row window. */
module ScalerConfiguration {
  import opened Common
  import opened FixedPoint
  import opened ScalerWindow

  datatype ScaleMode = ScaleUp | ScaleDown | MixedXUp | MixedYUp

  function ModeFor(srcWidth: nat, srcHeight: nat, outWidth: nat, outHeight: nat): ScaleMode {
    if srcWidth >= outWidth && srcHeight >= outHeight then ScaleDown
    else if srcWidth <= outWidth && srcHeight <= outHeight then ScaleUp
    else if srcWidth > outWidth then MixedYUp
    else MixedXUp
  }

  predicate UpsX(mode: ScaleMode) {
    mode == ScaleUp || mode == MixedXUp
  }

  predicate UpsY(mode: ScaleMode) {
    mode == ScaleUp || mode == MixedYUp
  }

  /** An axis that grows is scaled up, and one that shrinks is scaled down; a picture is scaled up if it grows and
      does not shrink along the other axis, and scaled down if it does not grow. */
  ghost predicate RightMode(mode: ScaleMode, srcWidth: nat, srcHeight: nat, outWidth: nat, outHeight: nat) {
    && (outWidth > srcWidth ==> UpsX(mode)) && (outWidth < srcWidth ==> !UpsX(mode))
    && (outHeight > srcHeight ==> UpsY(mode)) && (outHeight < srcHeight ==> !UpsY(mode))
    && (mode == ScaleUp <==> UpsX(mode) && UpsY(mode)) && (mode == ScaleDown <==> !UpsX(mode) && !UpsY(mode))
    && (outWidth <= srcWidth && outHeight <= srcHeight ==> mode == ScaleDown)
    && (outWidth >= srcWidth && outHeight >= srcHeight && (outWidth > srcWidth || outHeight > srcHeight) ==> mode == ScaleUp)
  }

  /** An axis that is scaled up maps first line to first and last to last, so it counts steps
      (dimension - 1); an axis that is scaled down counts cells. */
  function Extent(dimension: nat, ups: bool): nat
    requires ups ==> dimension > 0
  {
    if ups then dimension - 1 else dimension
  }

  /** The divisions by the extents of an axis are defined: no dimension is zero, and an axis that is scaled up
      has at least two lines on both sides. */
  predicate Divides(src: nat, out: nat, ups: bool) {
    src > 0 && out > 0 && (ups ==> src >= 2 && out >= 2)
  }

  /** f is the ratio src / out as the scaler rounds it. */
  ghost predicate Reciprocal(f: Fixed, src: nat, out: nat) {
    out > 0 && Word(f) == 256 * RoundUp24(src, out)
  }

  /** First output row of a stripe, and the last one it was asked for: a one-row request is widened
      backwards, or forwards at the top of the page, and clipped to the page. */
  function FirstRow(start: nat, end: nat): nat {
    if start == end && start > 0 then start - 1 else start
  }

  function LastRow(start: nat, end: nat, outHeight: nat): nat
    requires outHeight > 0
  {
    var last := if start == end == 0 then 1 else end;
    if last >= outHeight then outHeight - 1 else last
  }

  class ScalerConfig {
    var srcWidth: nat
    var srcHeight: nat
    var outWidth: nat
    var outHeight: nat
    var srcBufWidth: nat
    var outBufWidth: nat
    var fSrcStartRow: Fixed
    var srcStartRow: nat
    var srcEndRow: nat
    var outStartRow: nat
    var outEndRow: nat
    var xFactor: Fixed
    var xFactorInv: Fixed
    var yFactor: Fixed
    var yFactorInv: Fixed
    var scaleMode: ScaleMode
    var ready: bool // the set-up came to its end: it divided by no zero

    /** The divisions of the factor set-up are defined. */
    ghost predicate Defined()
      reads this
    {
      && srcWidth < UINT16 && srcHeight < UINT16 && outWidth < UINT16 && outHeight < UINT16
      && Divides(srcWidth, outWidth, UpsX(scaleMode)) && Divides(srcHeight, outHeight, UpsY(scaleMode))
    }

    /** The reciprocals that drive the sample loops are the rounded-up exact ratios. */
    ghost predicate FactorsReady()
      reads this
    {
      && Defined()
      && scaleMode == ModeFor(srcWidth, srcHeight, outWidth, outHeight)
      && Reciprocal(xFactorInv, Extent(srcWidth, UpsX(scaleMode)), Extent(outWidth, UpsX(scaleMode)))
      && Reciprocal(yFactorInv, Extent(srcHeight, UpsY(scaleMode)), Extent(outHeight, UpsY(scaleMode)))
    }

    /** `scaler_make_image_scaler_tables`, for a picture that is not empty.  The set-up divides by zero, and
        comes to no end, exactly when nothing is to be output or an axis of a single line is to be scaled up. */
    constructor (inWidth: nat, inBufWidth: nat, toWidth: nat, outputBufWidth: nat,
                 inHeight: nat, toHeight: nat)
      requires 0 < inWidth < UINT16 && 0 < inHeight < UINT16
      requires toWidth < UINT16 && toHeight < UINT16
      requires inBufWidth < UINT16 && outputBufWidth < UINT16
      ensures var mode := ModeFor(inWidth, inHeight, toWidth, toHeight);
              ready <==> && toWidth > 0 && (UpsX(mode) ==> inWidth >= 2)
                         && toHeight > 0 && (UpsY(mode) ==> inHeight >= 2)
      ensures ready ==>
                && srcWidth == inWidth && srcHeight == inHeight && outWidth == toWidth && outHeight == toHeight
                && srcBufWidth == inBufWidth && outBufWidth == outputBufWidth
                && scaleMode == ModeFor(inWidth, inHeight, toWidth, toHeight) && FactorsReady()
      ensures RightMode(scaleMode, inWidth, inHeight, toWidth, toHeight)
    {
      srcWidth, srcHeight := inWidth, inHeight;
      outWidth, outHeight := toWidth, toHeight;
      scaleMode := ModeFor(inWidth, inHeight, toWidth, toHeight);
      fSrcStartRow := Fixed(0, 0);
      srcStartRow, srcEndRow := 0, inHeight;
      srcBufWidth := inBufWidth;
      outStartRow, outEndRow := 0, toHeight;
      outBufWidth := outputBufWidth;
      ready := false;
      new;
      ready := CalculateFactors();
    }

    /** `_calculate_factors`: the dimensions are decremented for the axes that scale up and restored
        afterwards. */
    method CalculateFactors() returns (ok: bool)
      requires 0 < srcWidth < UINT16 && 0 < srcHeight < UINT16 && outWidth < UINT16 && outHeight < UINT16
      requires scaleMode == ModeFor(srcWidth, srcHeight, outWidth, outHeight)
      modifies this`srcWidth, this`srcHeight, this`outWidth, this`outHeight
      modifies this`xFactor, this`xFactorInv, this`yFactor, this`yFactorInv
      ensures ok <==> old(Divides(srcWidth, outWidth, UpsX(scaleMode)) && Divides(srcHeight, outHeight, UpsY(scaleMode)))
      ensures ok ==> srcWidth == old(srcWidth) && srcHeight == old(srcHeight)
      ensures ok ==> outWidth == old(outWidth) && outHeight == old(outHeight)
      ensures ok ==> FactorsReady()
    {
      hide RoundUp24, Word;
      ghost var xs, xo := Extent(srcWidth, UpsX(scaleMode)), Extent(outWidth, UpsX(scaleMode));
      ghost var ys, yo := Extent(srcHeight, UpsY(scaleMode)), Extent(outHeight, UpsY(scaleMode));
      if UpsY(scaleMode) {
        srcHeight, outHeight := srcHeight - 1, outHeight - 1;
      }
      if UpsX(scaleMode) {
        srcWidth, outWidth := srcWidth - 1, outWidth - 1;
      }
      assert srcWidth == xs && outWidth == xo && srcHeight == ys && outHeight == yo;

      if srcWidth == 0 || outWidth == 0 || srcHeight == 0 || outHeight == 0 {
        return false;
      }
      xFactor, xFactorInv := AxisFactors(srcWidth, outWidth);
      yFactor, yFactorInv := AxisFactors(srcHeight, outHeight);
      ok := true;

      if UpsY(scaleMode) {
        srcHeight, outHeight := srcHeight + 1, outHeight + 1;
      }
      if UpsX(scaleMode) {
        srcWidth, outWidth := srcWidth + 1, outWidth + 1;
      }
    }

    /** The row window of the current stripe is the exact one for output rows first..last:
        its start is the rounded-up position of row `first`, its end the last source row that the
        exact ratio needs for row `last`. */
    ghost predicate WindowFor(first: nat, last: nat)
      reads this
    {
      && FactorsReady()
      && outStartRow == first <= last < outHeight
      && StartsAt(fSrcStartRow, srcStartRow, first, Extent(srcHeight, UpsY(scaleMode)),
                  Extent(outHeight, UpsY(scaleMode)))
      && (if UpsY(scaleMode) then UpEnd(srcEndRow, outEndRow, last, srcHeight - 1, outHeight - 1)
          else DownEnd(srcEndRow, last, srcHeight, outHeight) && outEndRow == last)
      && srcEndRow < srcHeight && outEndRow < outHeight
    }

    /** The output rows of the stripe; the scaler never outputs a single row. */
    method ChooseRows(start: nat, end: nat) returns (rowOffset: nat)
      requires start < outHeight && start <= end
      modifies this`outStartRow, this`outEndRow
      ensures outStartRow == FirstRow(start, end) && outEndRow == LastRow(start, end, outHeight)
      ensures outStartRow <= start && Min(end, outHeight - 1) <= outEndRow < outHeight
      ensures start < end ==> outStartRow == start && outEndRow == Min(end, outHeight - 1)
      ensures start == end && outHeight >= 2 ==> outEndRow == outStartRow + 1 && (start > 0 ==> outEndRow == start)
      ensures rowOffset == start - outStartRow
    {
      if end == start {
        if start == 0 {
          outStartRow, outEndRow, rowOffset := start, end + 1, 0;
        } else {
          outStartRow, outEndRow, rowOffset := start - 1, end, 1;
        }
      } else {
        outStartRow, outEndRow, rowOffset := start, end, 0;
      }
      if outEndRow >= outHeight {
        outEndRow := outHeight - 1;
      }
    }

    /** `scaler_calculate_scaling_rows`, without the temporary-buffer size for mixed axes. */
    method CalculateScalingRows(start: nat, end: nat)
      returns (firstIn: nat, lastIn: nat, generated: nat, rowOffset: nat)
      requires FactorsReady()
      requires start < outHeight && start <= end < UINT16
      modifies this`srcHeight, this`outHeight
      modifies this`fSrcStartRow, this`srcStartRow, this`srcEndRow
      modifies this`outStartRow, this`outEndRow
      ensures srcHeight == old(srcHeight) && outHeight == old(outHeight)
      ensures WindowFor(FirstRow(start, end), LastRow(start, end, outHeight))
      ensures firstIn == srcStartRow && lastIn == srcEndRow
      ensures rowOffset == start - FirstRow(start, end)
      ensures generated == outEndRow - outStartRow + 2
    {
      rowOffset := ChooseRows(start, end);
      PlaceWindow();
      firstIn, lastIn := srcStartRow, srcEndRow;
      generated := outEndRow - outStartRow + 1;
      generated := generated + 1;
    }

    /** The source rows of the stripe, with the dimensions decremented while scaling up. */
    method PlaceWindow()
      requires FactorsReady()
      requires outStartRow <= outEndRow < outHeight
      modifies this`srcHeight, this`outHeight
      modifies this`fSrcStartRow, this`srcStartRow, this`srcEndRow, this`outEndRow
      ensures srcHeight == old(srcHeight) && outHeight == old(outHeight)
      ensures WindowFor(outStartRow, old(outEndRow))
    {
      hide RoundUp24, Word, Ceil, ModeFor;
      ghost var ys, yo := Extent(srcHeight, UpsY(scaleMode)), Extent(outHeight, UpsY(scaleMode));
      if UpsY(scaleMode) {
        srcHeight, outHeight := srcHeight - 1, outHeight - 1;
      }
      assert srcHeight == ys && outHeight == yo;
      fSrcStartRow, srcStartRow := StartPosition(outStartRow, srcHeight, outHeight);
      if UpsY(scaleMode) {
        srcEndRow, outEndRow := LastSourceRowUp(outEndRow, srcHeight, outHeight);
        srcHeight, outHeight := srcHeight + 1, outHeight + 1;
      } else {
        srcEndRow := LastSourceRowDown(outEndRow, srcHeight, outHeight);
      }
      // the source clips srcEndRow to the image here, which never changes it
      assert srcEndRow < srcHeight;
    }
  }

  /** The two factors of one axis. */
  method AxisFactors(src: nat, out: nat) returns (factor: Fixed, inverse: Fixed)
    requires 0 < src < UINT16 && 0 < out < UINT16
    ensures Word(factor) == 256 * Trunc24(out, src)
    ensures Reciprocal(inverse, src, out)
  {
    factor := TruncatedRatio(out, src);
    inverse := RoundedRatio(src, out);
  }

  ghost predicate StartsAt(f: Fixed, row: nat, first: nat, src: nat, out: nat)
    requires out > 0
  {
    && f.fraction < UINT32
    && Word(f) == 256 * RoundUp24(first * src, out)
    && row == f.decimal
  }

  ghost predicate UpEnd(srcEnd: nat, outEnd: nat, last: nat, src: nat, out: nat)
    requires out > 0
  {
    && srcEnd == Ceil(last * src, out)
    && outEnd == last + (if last * src % out == 0 then 0 else 1)
  }

  ghost predicate DownEnd(srcEnd: nat, last: nat, src: nat, out: nat)
    requires out > 0
  {
    srcEnd + 1 == Ceil((last + 1) * src, out)
  }

  method RoundedStart(first: nat, src: nat, out: nat) returns (f: Fixed)
    requires 0 <= first * src < UINT32 && 0 < out < UINT16
    ensures f.fraction < UINT32 && Word(f) == 256 * RoundUp24(first * src, out)
  {
    hide RoundUp24, Word;
    f := RoundedRatio(first * src, out);
  }

  method StartPosition(first: nat, src: nat, out: nat) returns (f: Fixed, row: nat)
    requires first < UINT16 && src < UINT16 && 0 < out < UINT16
    ensures StartsAt(f, row, first, src, out)
  {
    hide RoundUp24, Word;
    ProductBound(first, src);
    f := RoundedStart(first, src, out);
    row := f.decimal;
  }

  /** The fraction of the end position is only tested for zero, which decides divisibility exactly
      because the denominator is below 2^24. */
  method LastSourceRowUp(last: nat, src: nat, out: nat) returns (srcEnd: nat, outEnd: nat)
    requires src < UINT16 && 0 < out < UINT16 && last <= out
    ensures UpEnd(srcEnd, outEnd, last, src, out)
    ensures srcEnd <= src && outEnd <= out
  {
    hide Ceil;
    ProductBound(last, src);
    EndBounds(last, src, out);
    var partial;
    srcEnd, partial := EndPosition(last * src, out);
    outEnd := last;
    if partial {
      outEnd := outEnd + 1;
    }
  }

  /** The end position, and whether it is a partial step. */
  method EndPosition(n: nat, out: nat) returns (end: nat, partial: bool)
    requires n < UINT32 && 0 < out < UINT16
    ensures end == Ceil(n, out) && (partial <==> n % out != 0)
  {
    hide Ceil;
    ZeroFractionIff(n, out);
    CeilBounds(n, out);
    var fraction, overflow := FractionPart(n, out, FractionTruncate);
    end := n / out;
    partial := 0 != fraction;
    if partial {
      end := end + 1;
    }
  }

  lemma EndBounds(last: nat, src: nat, out: nat)
    requires 0 < out && last <= out
    ensures last * src >= 0 && Ceil(last * src, out) <= src
    ensures last == out ==> last * src % out == 0
  {
    hide Ceil;
    NatProduct(last, src);
    QuotientBound(last, src, out);
    WholeEnd(src, out);
  }

  lemma WholeEnd(src: nat, out: nat)
    requires out > 0
    ensures out * src >= 0 && out * src % out == 0
  {
    DivMul(src, out, 0);
    assert out * src == src * out + 0;
  }

  method LastSourceRowDown(last: nat, src: nat, out: nat) returns (srcEnd: nat)
    requires 0 < src < UINT16 && last < out < UINT16
    ensures DownEnd(srcEnd, last, src, out)
    ensures srcEnd < src
  {
    ProductBound(last + 1, src);
    var fraction, overflow := FractionPart((last + 1) * src, out, FractionTruncate);
    ZeroFractionIff((last + 1) * src, out);
    CeilBounds((last + 1) * src, out);
    QuotientBound(last + 1, src, out);
    PositiveCeil((last + 1) * src, out);
    srcEnd := (last + 1) * src / out;
    if 0 == fraction {
      srcEnd := srcEnd - 1;
    }
  }

  lemma ProductBound(rows: nat, height: nat)
    requires rows < UINT16 && height < UINT16
    ensures 0 <= rows * height < UINT32
  {
    MulBetween(rows, 0, height, 0xffff);
    MulBetween(0xffff, 0, rows, 0xffff);
  }

  lemma ZeroFractionIff(n: nat, d: nat)
    requires 0 < d < UINT16
    ensures n % d * ONE24 / d == 0 <==> n % d == 0
  {
    var x := n % d * ONE24;
    assert x == x / d * d + x % d;
    MulMonotone(-(x / d), d);
  }

  lemma QuotientBound(k: nat, src: nat, out: nat)
    requires 0 < out && k <= out
    ensures Ceil(k * src, out) <= src
  {
    MulBetween(src, k, out, out);
    CeilAtMost(k * src, src, out);
  }

  lemma PositiveCeil(n: nat, d: nat)
    requires d > 0 && n > 0
    ensures Ceil(n, d) >= 1
  {
    CeilBounds(n, d);
  }
}
