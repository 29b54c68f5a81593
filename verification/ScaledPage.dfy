/** Scaled pages: how the caller sizes its buffer of source rows, which stripes it then scales, and what it loads
    into the buffer for each of them. */
module ScaledPage {
  import opened Common
  import opened FixedPoint
  import opened ScalerWindow
  import opened ScalerConfiguration
  import opened ScalerPlane

  /** A picture of inWidth by inHeight pixels, scaled to outWidth by outHeight and printed in strips of `step`
      rows; of the scaled rows, at most `printable` are shown, below padTop and above padBottom white ones. */
  datatype Job = Job(inWidth: nat, inHeight: nat, outWidth: nat, outHeight: nat, printable: nat, step: nat,
                     padTop: nat, padBottom: nat)
  {
    predicate Valid() {
      && inWidth < UINT16 && inHeight < UINT16 && outWidth < UINT16 && outHeight < UINT16
      && Divides(inWidth, outWidth, UpsX(Mode())) && Divides(inHeight, outHeight, UpsY(Mode()))
      && 0 < printable < UINT16 && 0 < step < UINT16
      && 3 * inWidth < UINT16 && 3 * outWidth < UINT16
    }

    function Mode(): ScaleMode { ModeFor(inWidth, inHeight, outWidth, outHeight) }

    function Ups(): bool { UpsY(Mode()) }

    function YSrc(): nat
      requires Valid()
    {
      Extent(inHeight, Ups())
    }

    function YOut(): (n: nat)
      requires Valid()
      ensures 0 < n < UINT16
    {
      Extent(outHeight, Ups())
    }

    /** First source line of a window for scaled rows from `first` on. */
    function Base(first: nat): nat
      requires Valid()
    {
      RoundUp24(first * YSrc(), YOut()) / ONE24
    }

    /** The line behind a window for scaled rows up to `last`. */
    function End(last: nat): nat
      requires Valid()
    {
      if Ups() then Ceil(last * YSrc(), YOut()) + 1 else Ceil((last + 1) * YSrc(), YOut())
    }

    /** How many source rows the scaler asks for to deliver scaled rows lo..hi. */
    function Rows(lo: nat, hi: nat): int
      requires Valid()
    {
      End(LastRow(lo, hi, outHeight)) - Base(FirstRow(lo, hi))
    }

    /** The last row that the scaler generates for them: going up, a partial step brings one more. */
    function LastGenerated(lo: nat, hi: nat): nat
      requires Valid()
    {
      var last := LastRow(lo, hi, outHeight);
      NatProduct(last, YSrc());
      if Ups() && last * YSrc() % YOut() != 0 then last + 1 else last
    }

    /** How many source lines they begin in, as the accumulated position has it. */
    function Lines(lo: nat, hi: nat): int
      requires Valid() && lo <= hi < outHeight
    {
      var first := FirstRow(lo, hi);
      Position(first, LastGenerated(lo, hi) - first, YSrc(), YOut()) / ONE24 - Base(first) + 1
    }

    /** ... and as the exact position has it. */
    function Reach(lo: nat, hi: nat): int
      requires Valid() && lo <= hi < outHeight
    {
      NatProduct(FirstRow(lo, hi), YSrc());
      NatProduct(LastGenerated(lo, hi), YSrc());
      LastGenerated(lo, hi) * YSrc() / YOut() - FirstRow(lo, hi) * YSrc() / YOut() + 1
    }

    /** Bytes of the buffer that scaling rows lo..hi touches.  Going up, the last pixel looks one row down and one
        pixel on; going down, the row behind the window is read with weight zero. */
    function Touched(lo: nat, hi: nat): int
      requires Valid() && lo <= hi < outHeight
    {
      if Ups() then 3 * (inWidth * (Lines(lo, hi) + 1)) + 3 else 3 * (inWidth * (Rows(lo, hi) + 1))
    }

    // ----- the size of the buffer -----

    /** The k-th stripe that the caller measures. */
    function Measured(k: nat): int
      requires Valid()
    {
      NatProduct(k, step);
      Rows(k * step, Min(k * step + step - 1, outHeight - 1))
    }

    /** The most rows that one of the first k measured stripes needs. */
    function MostRows(k: nat): nat
      requires Valid()
    {
      if k == 0 then 0 else Max(MostRows(k - 1), Measured(k - 1))
    }

    /** How many stripes are measured. */
    function Measurements(): nat
      requires Valid()
    {
      Ceil(Min(printable, outHeight), step)
    }

    function SizedRows(): nat
      requires Valid()
    {
      MostRows(Measurements())
    }

    /** The size of the buffer in bytes. */
    function BufferBytes(): nat
      requires Valid()
    {
      NatProduct(Max(inWidth, inHeight), SizedRows() + 2);
      3 * (Max(inWidth, inHeight) * (SizedRows() + 2))
    }

    // ----- the stripes that are scaled -----

    function ImageHeight(): nat { Min(outHeight, printable) }

    function PageHeight(): nat { padTop + ImageHeight() + padBottom }

    /** Scaled rows that are cropped above. */
    function Cropped(): nat { if outHeight > printable then (outHeight - printable) / 2 else 0 }

    /** Rows of a request that lie in the padding before the picture, or all of them behind it. */
    function BlankRows(start: nat, height: nat): nat {
      if start < padTop then Min(height, padTop - start)
      else if start >= padTop + ImageHeight() then Min(height, if start < PageHeight() then PageHeight() - start else 0)
      else 0
    }

    /** The scaled row that a page row shows. */
    function ScaledRow(y: nat): nat
      requires y >= padTop
    {
      y - padTop + Cropped()
    }

    /** How many rows a request has the scaler deliver. */
    function ScaledRows(start: nat, height: nat): nat {
      var y, n := start + BlankRows(start, height), height - BlankRows(start, height);
      if n == 0 || y < padTop || ScaledRow(y) >= outHeight then 0 else Min(n, outHeight - ScaledRow(y))
    }

    /** Stripe by stripe. */
    function Stripes(lo: nat, n: nat): seq<(nat, nat)>
      requires step > 0
      decreases n
    {
      if n == 0 then [] else
      var h := Min(n, step);
      [(lo, lo + h - 1)] + Stripes(lo + h, n - h)
    }

    function RequestStripes(start: nat, height: nat): seq<(nat, nat)>
      requires step > 0
    {
      var n := ScaledRows(start, height);
      if n == 0 then [] else Stripes(ScaledRow(start + BlankRows(start, height)), n)
    }

    /** A stripe of scaled rows, no higher than a strip. */
    predicate Fine(lo: nat, hi: nat) {
      lo <= hi < outHeight && hi - lo < step
    }
  }

  lemma {:induction false} StripesAreFine(job: Job, lo: nat, n: nat, k: nat)
    requires job.step > 0 && lo + n <= job.outHeight && k < |job.Stripes(lo, n)|
    ensures var s := job.Stripes(lo, n)[k]; job.Fine(s.0, s.1) && lo <= s.0
    ensures k > 0 ==> job.Stripes(lo, n)[k - 1].1 < job.Stripes(lo, n)[k].0
    decreases n
  {
    var h := Min(n, job.step);
    if k > 0 {
      StripesAreFine(job, lo + h, n - h, k - 1);
    }
  }

  /** Whatever the request, every stripe it is cut into is fine, and they follow one another. */
  lemma RequestsAreFine(job: Job, start: nat, height: nat, k: nat)
    requires job.step > 0 && k < |job.RequestStripes(start, height)|
    ensures var s := job.RequestStripes(start, height)[k]; job.Fine(s.0, s.1)
    ensures k > 0 ==> job.RequestStripes(start, height)[k - 1].1 < job.RequestStripes(start, height)[k].0
  {
    StripesAreFine(job, job.ScaledRow(start + job.BlankRows(start, height)), job.ScaledRows(start, height), k);
  }

  // ----- windows -----

  lemma FloorOfSum(a: nat, b: nat, d: nat)
    requires d > 0
    ensures Ceil(a + b, d) <= a / d + 1 + Ceil(b, d)
  {
    CeilBounds(b, d);
    assert a == a / d * d + a % d;
    assert (a / d + 1 + Ceil(b, d)) * d == a / d * d + d + Ceil(b, d) * d;
    CeilAtMost(a + b, a / d + 1 + Ceil(b, d), d);
  }

  /** No stripe needs more than one row more than a stripe of the same height from the first row on. */
  lemma FirstStripeIsLargest(job: Job, lo: nat, hi: nat)
    requires job.Valid() && job.Fine(lo, hi)
    ensures 1 <= job.Rows(lo, hi) <= job.Measured(0) + 1
  {
    var a, b := FirstRow(lo, hi), LastRow(lo, hi, job.outHeight);
    var top := LastRow(0, Min(job.step - 1, job.outHeight - 1), job.outHeight);
    assert 0 * job.step == 0 && a <= b && b - a <= top;
    WindowGrows(job, a, b, top);
    WindowIsNotEmpty(job, a, b);
  }

  lemma WindowGrows(job: Job, a: nat, b: nat, top: nat)
    requires job.Valid() && a <= b && b - a <= top
    ensures job.End(b) - job.Base(a) <= job.End(top) - job.Base(0) + 1
  {
    hide RoundUp24, Ceil, Job.Valid, Job.YSrc, Job.YOut;
    var ys, yo := job.YSrc(), job.YOut();
    RoundedWhole(a * ys, yo);
    StartAtZero(ys, yo);
    if job.Ups() {
      FloorOfSum(a * ys, (b - a) * ys, yo);
      SplitProduct(a, b - a, ys);
      CeilMonotone((b - a) * ys, top * ys, yo) by { MulBetween(ys, b - a, top, top); }
    } else {
      FloorOfSum(a * ys, (b + 1 - a) * ys, yo);
      SplitProduct(a, b + 1 - a, ys);
      CeilMonotone((b + 1 - a) * ys, (top + 1) * ys, yo) by { MulBetween(ys, b + 1 - a, top + 1, top + 1); }
    }
  }

  lemma WindowIsNotEmpty(job: Job, a: nat, b: nat)
    requires job.Valid() && a <= b
    ensures job.End(b) - job.Base(a) >= 1
  {
    hide RoundUp24, Ceil, Job.Valid, Job.YSrc, Job.YOut;
    var ys, yo := job.YSrc(), job.YOut();
    RoundedWhole(a * ys, yo);
    if job.Ups() {
      FloorBelowCeil(a * ys, b * ys, yo) by { MulBetween(ys, a, b, b); }
    } else {
      HasLines(job);
      NextMultiple(a, ys);
      MulBetween(ys, a + 1, b + 1, b + 1);
      FloorBelowCeil(a * ys, (b + 1) * ys, yo);
    }
  }

  lemma HasLines(job: Job)
    requires job.Valid()
    ensures job.YSrc() > 0
  {
  }

  lemma FloorBelowCeil(m: nat, n: nat, d: nat)
    requires d > 0 && m <= n
    ensures m / d <= Ceil(n, d)
    ensures m < n ==> m / d < Ceil(n, d)
  {
    CeilBounds(n, d);
    assert m == m / d * d + m % d;
    BelowQuotient(m / d, Ceil(n, d), d);
  }

  lemma BelowQuotient(a: nat, b: nat, d: nat)
    requires d > 0
    ensures a * d <= b * d ==> a <= b
    ensures a * d < b * d ==> a < b
  {
    if a > b {
      MulMonotone(a - b, d);
      assert (a - b) * d == a * d - b * d;
    }
  }

  lemma CeilMonotone(m: nat, n: nat, d: nat)
    requires d > 0 && m <= n
    ensures Ceil(m, d) <= Ceil(n, d)
  {
    CeilBounds(n, d);
    CeilAtMost(m, Ceil(n, d), d);
  }

  // ----- what the buffer holds -----

  lemma {:induction false} MostRowsBounds(job: Job, k: nat, j: nat)
    requires job.Valid() && j < k
    ensures job.Measured(j) <= job.MostRows(k)
  {
    if j < k - 1 {
      MostRowsBounds(job, k - 1, j);
    }
  }

  lemma MeasuredIff(job: Job, k: nat)
    requires job.Valid()
    ensures k < job.Measurements() <==> k * job.step < job.printable && k * job.step < job.outHeight
  {
    BelowCeil(k, Min(job.printable, job.outHeight), job.step);
  }

  lemma BelowCeil(k: nat, n: nat, d: nat)
    requires d > 0
    ensures k < Ceil(n, d) <==> k * d < n
  {
    CeilBounds(n, d);
    if k < Ceil(n, d) {
      MulBetween(d, k + 1, Ceil(n, d), Ceil(n, d));
      NextMultiple(k, d);
    } else {
      MulBetween(d, Ceil(n, d), k, k);
    }
  }

  /** Every stripe needs at most one row more than the buffer was sized for, so it can be decoded into the
      buffer. */
  lemma DecodedRowsFit(job: Job, lo: nat, hi: nat)
    requires job.Valid() && job.Fine(lo, hi)
    ensures 1 <= job.Rows(lo, hi) <= job.SizedRows() + 1
    ensures 3 * (job.inWidth * job.Rows(lo, hi)) <= job.BufferBytes()
  {
    hide Job.Rows, Job.Measured, Job.SizedRows;
    FirstStripeIsLargest(job, lo, hi);
    SizedAtLeastFirst(job);
    BufferAtLeast(job, job.Rows(lo, hi));
  }

  lemma SizedAtLeastFirst(job: Job)
    requires job.Valid()
    ensures job.Measured(0) <= job.SizedRows()
  {
    hide Job.Measured;
    assert 0 * job.step == 0;
    MeasuredIff(job, 0);
    MostRowsBounds(job, job.Measurements(), 0);
  }

  lemma BufferAtLeast(job: Job, n: nat)
    requires job.Valid() && n <= job.SizedRows() + 2
    ensures 3 * (job.inWidth * n) <= job.BufferBytes()
  {
    hide Job.SizedRows;
    MulBetween(job.inWidth, n, job.SizedRows() + 2, job.SizedRows() + 2);
    MulBetween(job.SizedRows() + 2, job.inWidth, Max(job.inWidth, job.inHeight), Max(job.inWidth, job.inHeight));
  }

  /** Going down, the buffer holds whatever a stripe touches. */
  lemma DownFits(job: Job, lo: nat, hi: nat)
    requires job.Valid() && job.Fine(lo, hi) && job.Mode() == ScaleDown
    ensures job.Touched(lo, hi) <= job.BufferBytes()
  {
    hide Job.Rows, Job.SizedRows, Job.BufferBytes;
    DecodedRowsFit(job, lo, hi);
    BufferAtLeast(job, job.Rows(lo, hi) + 1);
  }

  /** Going up, a stripe begins in at most two lines more than the buffer was sized for. */
  lemma LinesBound(job: Job, lo: nat, hi: nat)
    requires job.Valid() && job.Fine(lo, hi) && job.Ups()
    ensures job.Lines(lo, hi) <= job.Rows(lo, hi) + 1 <= job.SizedRows() + 2
  {
    DecodedRowsFit(job, lo, hi);
    GoesUp(job);
    hide RoundUp24, Ceil, Position, Roundings, Job.Valid, Job.YSrc, Job.YOut, Job.SizedRows, Job.BufferBytes;
    GeneratedLine(FirstRow(lo, hi), job.LastGenerated(lo, hi), LastRow(lo, hi, job.outHeight), job.YSrc(), job.YOut());
  }

  lemma GeneratedLine(first: nat, g: nat, last: nat, src: nat, out: nat)
    requires first <= g <= last + 1 <= UINT16 && src <= out && out > 0
    ensures last * src >= 0 && Position(first, g - first, src, out) / ONE24 <= Ceil(last * src, out) + 1
  {
    hide RoundUp24, Ceil, Position;
    NatProduct(last, src);
    NatProduct(g, src);
    PositionCeiling(first, g - first, g, src, out);
    CeilStep(last, g, src, out);
    PartOfLine(Position(first, g - first, src, out), Ceil(g * src, out), Roundings(first, g - first));
  }

  lemma GoesUp(job: Job)
    requires job.Valid() && job.Ups()
    ensures job.YSrc() <= job.YOut() < UINT16
  {
  }

  lemma PartOfLine(p: nat, c: nat, roundings: nat)
    requires p <= c * ONE24 + roundings && roundings < ONE24
    ensures p / ONE24 <= c
  {
  }

  /** Exactly when it holds what a stripe touches: the stripe begins in no more lines than were sized, or in one
      more of a picture that is higher than wide, or in two more of one that is so by far. */
  lemma UpFitsIff(job: Job, lo: nat, hi: nat)
    requires job.Valid() && job.Fine(lo, hi) && job.Mode() == ScaleUp
    ensures var n, w, h, k := job.Lines(lo, hi), job.inWidth, job.inHeight, job.SizedRows();
            (job.Touched(lo, hi) <= job.BufferBytes()
             <==> n <= k || (n == k + 1 && w < h) || (n == k + 2 && w < (h - w) * (k + 2)))
  {
    hide Job.Lines, Job.SizedRows;
    LinesBound(job, lo, hi);
    RoomIff(job.Lines(lo, hi), job.inWidth, job.inHeight, job.SizedRows());
  }

  lemma RoomIff(n: int, w: nat, h: nat, k: nat)
    requires n <= k + 2 && 0 < w
    ensures w * (n + 1) < Max(w, h) * (k + 2)
       <==> n <= k || (n == k + 1 && w < h) || (n == k + 2 && w < (h - w) * (k + 2))
  {
    if n <= k {
      Enough(w, n + 1, Max(w, h), k + 2);
    } else if w < h {
      Remainder(w, h, k + 2);
      MulMonotone(h - w, k + 2);
      NextMultiple(k + 2, w);
    } else {
      TooMuch(w, h, n + 1, k + 2);
    }
  }

  lemma Enough(w: nat, n: int, l: nat, k: nat)
    requires 0 < w <= l && n < k
    ensures w * n < l * k
  {
    MulBetween(w, n + 1, k, k);
    assert w * (n + 1) == w * n + w;
    MulBetween(k, w, l, l);
  }

  lemma Remainder(w: nat, h: nat, k: nat)
    requires w <= h
    ensures h * k == w * k + (h - w) * k
  {
  }

  lemma TooMuch(w: nat, h: nat, n: int, k: nat)
    requires h <= w && k <= n
    ensures w * k <= w * n && (h - w) * k <= 0
  {
    MulBetween(w, k, n, n);
    MulBetween(k, h - w, 0, 0);
  }

  /** In strips that are not too high for the picture, up to 253 rows for any, the drift of a stripe stays below
      one part of a line. */
  predicate ShortStrips(job: Job)
    requires job.Valid()
  {
    (job.step + 2) * job.YOut() < ONE24
  }

  lemma StripsTo253AreShort(job: Job)
    requires job.Valid() && job.step <= 253
    ensures ShortStrips(job)
  {
    MulBetween(job.YOut(), job.step + 2, 255, 255);
  }

  /** Then the accumulated position has every row begin in the line in which it exactly begins, and a stripe is
      held if and only if the picture is higher than wide or the stripe reaches no more lines than were sized. */
  lemma ShortStripFitsIff(job: Job, lo: nat, hi: nat)
    requires job.Valid() && job.Fine(lo, hi) && job.Mode() == ScaleUp && ShortStrips(job)
    ensures job.Lines(lo, hi) == job.Reach(lo, hi) <= job.SizedRows() + 1
    ensures job.Touched(lo, hi) <= job.BufferBytes()
       <==> job.inHeight > job.inWidth || job.Reach(lo, hi) <= job.SizedRows()
  {
    hide Job.SizedRows, Job.Touched;
    LinesAreExact(job, lo, hi);
    ReachIsInWindow(job, lo, hi);
    DecodedRowsFit(job, lo, hi);
    UpFitsIff(job, lo, hi);
  }

  lemma LinesAreExact(job: Job, lo: nat, hi: nat)
    requires job.Valid() && job.Fine(lo, hi) && job.Ups() && ShortStrips(job)
    ensures job.Lines(lo, hi) == job.Reach(lo, hi)
  {
    var first, g := FirstRow(lo, hi), job.LastGenerated(lo, hi);
    hide RoundUp24, Position, Job.Valid, Job.YSrc, Job.YOut;
    ExactLine(first, g - first, job.YSrc(), job.YOut(), job.step + 2);
    NatProduct(first, job.YSrc());
    RoundedWhole(first * job.YSrc(), job.YOut());
    assert first + (g - first) == g;
  }

  lemma ExactLine(a: nat, r: nat, src: nat, out: nat, limit: nat)
    requires out > 0 && Roundings(a, r) <= limit && limit * out < ONE24
    ensures (a + r) * src >= 0 && Position(a, r, src, out) / ONE24 == (a + r) * src / out
  {
    hide RoundUp24, Position, Roundings;
    PositionDrift(a, r, src, out);
    MulBetween(out, Roundings(a, r), limit, limit);
    NatProduct(a + r, src);
    NatProduct(Roundings(a, r), out);
    WholePart(Position(a, r, src, out), (a + r) * src, out, Roundings(a, r) * out);
  }

  lemma ReachIsInWindow(job: Job, lo: nat, hi: nat)
    requires job.Valid() && job.Fine(lo, hi) && job.Ups()
    ensures job.Reach(lo, hi) <= job.Rows(lo, hi)
  {
    var first, last, g := FirstRow(lo, hi), LastRow(lo, hi, job.outHeight), job.LastGenerated(lo, hi);
    var ys, yo := job.YSrc(), job.YOut();
    GoesUp(job);
    hide RoundUp24, Ceil, Job.Valid, Job.YSrc, Job.YOut, LastRow, FirstRow;
    NatProduct(first, ys);
    RoundedWhole(first * ys, yo);
    GeneratedBelow(last, g, ys, yo);
  }

  /** The extra row is generated only behind a partial step, so that it begins in the window. */
  lemma GeneratedBelow(last: nat, g: nat, src: nat, out: nat)
    requires 0 < src <= out && g == (if last * src % out != 0 then last + 1 else last)
    ensures g * src / out <= Ceil(last * src, out)
  {
    CeilBounds(last * src, out);
    NextMultiple(last, src);
    NextMultiple(Ceil(last * src, out), out);
    var c := Ceil(last * src, out);
    assert g * src < (c + 1) * out;
    assert g * src == g * src / out * out + g * src % out;
    BelowQuotient(g * src / out, c + 1, out);
  }

  /** The buffer holds all that the stripes of these requests touch. */
  ghost predicate Holds(job: Job, requests: seq<(nat, nat)>)
    requires job.Valid()
  {
    forall i, k | 0 <= i < |requests| && 0 <= k < |job.RequestStripes(requests[i].0, requests[i].1)| ::
      StripeHeld(job, job.RequestStripes(requests[i].0, requests[i].1)[k])
  }

  predicate StripeHeld(job: Job, stripe: (nat, nat))
    requires job.Valid()
  {
    stripe.0 <= stripe.1 < job.outHeight && job.Touched(stripe.0, stripe.1) <= job.BufferBytes()
  }

  predicate ReachIsSized(job: Job, stripe: (nat, nat))
    requires job.Valid()
  {
    stripe.0 <= stripe.1 < job.outHeight && job.Reach(stripe.0, stripe.1) <= job.SizedRows()
  }

  /** For whole jobs, with whatever offset and padding, and however its page is asked for: the buffer holds what is
      touched if and only if the picture is higher than wide, or no stripe asked for reaches more lines than one of
      the stripes measured from the top of the picture needed rows. */
  lemma JobFitsIff(job: Job, requests: seq<(nat, nat)>)
    requires job.Valid() && job.Mode() == ScaleUp && ShortStrips(job)
    ensures Holds(job, requests)
       <==> || job.inHeight > job.inWidth
            || forall i, k | 0 <= i < |requests| && 0 <= k < |job.RequestStripes(requests[i].0, requests[i].1)| ::
                 ReachIsSized(job, job.RequestStripes(requests[i].0, requests[i].1)[k])
  {
    HasStep(job);
    hide Job.RequestStripes, Job.Touched, Job.BufferBytes, Job.SizedRows, Job.Reach, Job.Valid;
    forall i, k | 0 <= i < |requests| && 0 <= k < |job.RequestStripes(requests[i].0, requests[i].1)|
      ensures var stripe := job.RequestStripes(requests[i].0, requests[i].1)[k];
              StripeHeld(job, stripe) <==> job.inHeight > job.inWidth || ReachIsSized(job, stripe)
    {
      RequestsAreFine(job, requests[i].0, requests[i].1, k);
      var stripe := job.RequestStripes(requests[i].0, requests[i].1)[k];
      ShortStripFitsIff(job, stripe.0, stripe.1);
    }
  }

  lemma HasStep(job: Job)
    requires job.Valid()
    ensures job.step > 0
  {
  }

  /** A picture that is not cropped, under padding of whole strips, is asked for in the stripes that were measured,
      so the buffer holds all of its page. */
  lemma AlignedPagesFit(job: Job, k: nat)
    requires job.Valid() && job.Mode() == ScaleUp && ShortStrips(job)
    requires job.outHeight <= job.printable && job.padTop % job.step == 0
    requires k * job.step < job.PageHeight()
    ensures k * job.step >= 0 && Holds(job, [(k * job.step, Min(job.step, job.PageHeight() - k * job.step))])
  {
    var start, height := k * job.step, Min(job.step, job.PageHeight() - k * job.step);
    var j := k - job.padTop / job.step;
    StripIndex(k, job.padTop, job.step);
    hide Job.RequestStripes, Job.Valid, Job.PageHeight, ShortStrips, StripeHeld;
    if job.RequestStripes(start, height) != [] {
      MeasuredStripe(job, j, start, height);
    }
    OneRequest(job, start, height);
  }

  lemma StripIndex(k: nat, pad: nat, step: nat)
    requires step > 0 && pad % step == 0
    ensures (k - pad / step) * step == k * step - pad
  {
    assert pad == pad / step * step;
  }

  lemma OneRequest(job: Job, start: nat, height: nat)
    requires job.Valid()
    requires var stripes := job.RequestStripes(start, height);
             stripes == [] || (|stripes| == 1 && StripeHeld(job, stripes[0]))
    ensures Holds(job, [(start, height)])
  {
    hide Job.RequestStripes, Job.Valid, StripeHeld;
  }

  lemma MeasuredStripe(job: Job, j: int, start: nat, height: nat)
    requires job.Valid() && job.Mode() == ScaleUp && ShortStrips(job) && job.outHeight <= job.printable
    requires j * job.step == start - job.padTop && height == Min(job.step, job.PageHeight() - start) > 0
    requires job.RequestStripes(start, height) != []
    ensures |job.RequestStripes(start, height)| == 1 && StripeHeld(job, job.RequestStripes(start, height)[0])
  {
    hide ShortStrips;
    MeasuredRequest(job, j, start, height);
    MeasuredFits(job, j);
  }

  lemma MeasuredRequest(job: Job, j: int, start: nat, height: nat)
    requires 0 < job.step && 0 < job.outHeight <= job.printable
    requires j * job.step == start - job.padTop && height == Min(job.step, job.PageHeight() - start) > 0
    requires job.RequestStripes(start, height) != []
    ensures 0 <= j && 0 <= j * job.step < job.outHeight
    ensures job.RequestStripes(start, height) == [(j * job.step, Min(j * job.step + job.step - 1, job.outHeight - 1))]
  {
    if j < 0 {
      MulMonotone(j, job.step);
    } else {
      NatProduct(j, job.step);
      var lo := j * job.step;
      var n := Min(job.step, job.outHeight - lo);
      assert job.ScaledRows(start, height) == n;
      assert job.Stripes(lo, n) == [(lo, lo + n - 1)] + job.Stripes(lo + n, 0);
    }
  }

  lemma MeasuredFits(job: Job, j: nat)
    requires job.Valid() && job.Mode() == ScaleUp && ShortStrips(job) && job.outHeight <= job.printable
    requires 0 <= j * job.step < job.outHeight
    ensures StripeHeld(job, (j * job.step, Min(j * job.step + job.step - 1, job.outHeight - 1)))
  {
    var lo := j * job.step;
    var hi := Min(lo + job.step - 1, job.outHeight - 1);
    hide ShortStrips, Job.Valid, Job.Touched, Job.BufferBytes, Job.Reach, Job.Rows;
    HasStep(job);
    MeasuredIff(job, j);
    MostRowsBounds(job, job.Measurements(), j);
    ReachIsInWindow(job, lo, hi);
    ShortStripFitsIff(job, lo, hi);
  }

  /** A picture of 400 by 200 pixels scaled to 424 by 212, of which 106 rows are printed in strips of 16 rows. */
  const CROPPED: Job := Job(400, 200, 424, 212, 106, 16, 0, 0)

  /** Its buffer is sized for 16 rows and two more, the first stripe is 53 rows down, and its last pixel reads three
      bytes behind the buffer. */
  lemma CroppedJobFails()
    ensures CROPPED.Valid() && CROPPED.Mode() == ScaleUp && ShortStrips(CROPPED)
    ensures CROPPED.SizedRows() == 16 && CROPPED.BufferBytes() == 21600
    ensures CROPPED.RequestStripes(0, 16) == [(53, 68)]
    ensures CROPPED.Reach(53, 68) == 17 && CROPPED.Touched(53, 68) == 21603
    ensures !Holds(CROPPED, [(0, 16)])
  {
    CroppedExtents();
    CroppedReach();
    CroppedRequest();
    SixteenAtMost(7);
    hide *;
    LinesAreExact(CROPPED, 53, 68);
    CroppedBytes();
    OneTooMany(CROPPED, [(0, 16)]);
  }

  lemma CroppedExtents()
    ensures CROPPED.Valid() && CROPPED.Mode() == ScaleUp && CROPPED.Ups() && ShortStrips(CROPPED)
    ensures CROPPED.Fine(53, 68) && CROPPED.YSrc() == 199 && CROPPED.YOut() == 211 && CROPPED.Measurements() == 7
  {
  }

  lemma CroppedReach()
    ensures CROPPED.Valid() && CROPPED.Reach(53, 68) == 17
  {
    CroppedExtents();
    hide Job.Valid, Job.YSrc, Job.YOut, Job.Ups;
  }

  lemma CroppedRequest()
    ensures CROPPED.RequestStripes(0, 16) == [(53, 68)]
  {
    var job := CROPPED;
    assert job.ScaledRows(0, 16) == 16 && job.ScaledRow(0) == 53 && job.BlankRows(0, 16) == 0;
    hide Job.ScaledRows, Job.ScaledRow, Job.BlankRows;
    assert job.Stripes(69, 0) == [];
  }

  lemma CroppedBytes()
    requires CROPPED.Valid() && CROPPED.Ups() && CROPPED.Fine(53, 68)
    requires CROPPED.SizedRows() == 16 && CROPPED.Lines(53, 68) == 17
    ensures CROPPED.BufferBytes() == 21600 && CROPPED.Touched(53, 68) == 21603
  {
    hide Job.Valid, Job.Ups, Job.Lines, Job.SizedRows;
  }

  lemma OneTooMany(job: Job, requests: seq<(nat, nat)>)
    requires job.Valid() && |requests| == 1
    requires var stripes := job.RequestStripes(requests[0].0, requests[0].1); stripes != [] && !StripeHeld(job, stripes[0])
    ensures !Holds(job, requests)
  {
    hide Job.Valid, Job.RequestStripes, StripeHeld;
  }

  lemma {:induction false} SixteenAtMost(k: nat)
    requires 0 < k <= 7
    ensures CROPPED.Valid() && CROPPED.MostRows(k) == 16
  {
    hide Job.Measured;
    SixteenRows(k - 1);
    if k > 1 {
      SixteenAtMost(k - 1);
    }
  }

  lemma SixteenRows(k: nat)
    requires k < 7
    ensures CROPPED.Valid() && CROPPED.Measured(k) == 16
  {
    CroppedExtents();
    RoundedWhole(k * 16 * 199, 211);
    DivMul(15 * k, 211, 19 * k);
    DivMul(15 * k + 15, 211, 19 * k + 30);
    assert Ceil((k * 16 + 15) * 199, 211) == 15 * k + 15;
    hide RoundUp24, Ceil, Job.Valid, Job.YSrc, Job.YOut, Job.Ups;
  }

  // ----- the configured scaler -----

  /** The scaler is set up for the job. */
  ghost predicate SetUpFor(config: ScalerConfig, job: Job)
    reads config
  {
    && job.Valid() && config.FactorsReady()
    && config.srcWidth == job.inWidth && config.srcHeight == job.inHeight
    && config.outWidth == job.outWidth && config.outHeight == job.outHeight
    && config.srcBufWidth == 3 * job.inWidth && config.outBufWidth == 3 * job.outWidth
  }

  /** The scaler has been asked for rows lo..hi. */
  ghost predicate PlacedAt(config: ScalerConfig, job: Job, lo: nat, hi: nat)
    requires lo <= hi < job.outHeight
    reads config
  {
    SetUpFor(config, job) && config.WindowFor(FirstRow(lo, hi), LastRow(lo, hi, job.outHeight))
  }

  lemma WindowOfJob(config: ScalerConfig, job: Job, lo: nat, hi: nat)
    requires lo <= hi < job.outHeight && PlacedAt(config, job, lo, hi)
    ensures config.srcStartRow == job.Base(FirstRow(lo, hi))
    ensures config.srcEndRow + 1 == job.End(LastRow(lo, hi, job.outHeight))
    ensures config.outStartRow == FirstRow(lo, hi) && config.outEndRow == job.LastGenerated(lo, hi)
    ensures config.srcEndRow < job.inHeight && config.srcStartRow <= config.srcEndRow
  {
    hide RoundUp24, Ceil;
    NatProduct(FirstRow(lo, hi), job.YSrc());
    WordParts(config.fSrcStartRow, RoundUp24(FirstRow(lo, hi) * job.YSrc(), job.YOut()));
    WindowIsNotEmpty(job, FirstRow(lo, hi), LastRow(lo, hi, job.outHeight));
  }

  /** What a job's stripe touches is what the plane loops need. */
  lemma TouchedByLoops(config: ScalerConfig, job: Job, lo: nat, hi: nat)
    requires lo <= hi < job.outHeight && PlacedAt(config, job, lo, hi)
    requires job.Mode() == ScaleUp || job.Mode() == ScaleDown
    ensures config.srcStartRow <= config.srcEndRow && config.outStartRow <= config.outEndRow
    ensures var s := StripeOf(config);
            && s.yOut > 0
            && job.Touched(lo, hi) == if job.Ups() then UpBytes(s) else s.rows * s.ofs + 3 * s.width
  {
    hide RoundUp24, Ceil;
    WindowOfJob(config, job, lo, hi);
    var s := StripeOf(config);
    if job.Ups() {
      RelIsPosition(s, s.outRows - 1);
      ShiftWhole(s.Base(), s.Rel(s.outRows - 1));
      Triples(job.Lines(lo, hi), s.width);
    } else {
      Triples(s.rows, s.width);
    }
  }

  lemma Triples(n: int, w: int)
    ensures n * (3 * w) + 3 * w == 3 * (w * (n + 1))
  {
  }

  /** The loop that measures the stripes: the caller allocates two rows more than the largest needs. */
  method UnscaledRowsNeeded(config: ScalerConfig, job: Job) returns (needed: nat)
    requires SetUpFor(config, job)
    modifies config
    ensures SetUpFor(config, job)
    ensures needed == job.SizedRows() + 2
  {
    needed := 0;
    var i := 0;
    ghost var k := 0;
    while i < job.printable
      invariant i == k * job.step && SetUpFor(config, job)
      invariant k <= job.Measurements()
      invariant needed == (if k == 0 then 0 else job.MostRows(k) + 2)
      decreases job.printable - i
    {
      MeasuredIff(job, k);
      if i >= job.outHeight {
        break;
      }
      var rows := MeasureStripe(config, job, i, k);
      needed := Max(needed, rows + 2);
      NextMultiple(k, job.step);
      i := i + job.step;
      k := k + 1;
    }
    MeasuredIff(job, k);
    MeasuredIff(job, 0);
  }

  /** One measurement. */
  method MeasureStripe(config: ScalerConfig, job: Job, row: nat, ghost k: nat) returns (rows: nat)
    requires SetUpFor(config, job) && row == k * job.step < job.outHeight
    modifies config
    ensures SetUpFor(config, job)
    ensures rows == job.Measured(k)
  {
    hide RoundUp24, Ceil;
    var hi := Min(row + job.step - 1, job.outHeight - 1);
    var firstIn, lastIn, generated, offset := config.CalculateScalingRows(row, hi);
    WindowOfJob(config, job, row, hi);
    rows := lastIn - firstIn + 1;
  }

  // ----- what a page shows -----

  /** What row y of the page shows: a row of the scaled picture, or white. */
  function PageRow(job: Job, y: nat): Option<nat> {
    if job.padTop <= y < job.padTop + job.ImageHeight() then Some(job.ScaledRow(y)) else None
  }

  /** The rows that a request inside the page is answered with: white ones, scaled ones, and white ones again. */
  function Answer(job: Job, start: nat, height: nat): (rows: seq<Option<nat>>)
    requires start + height <= job.PageHeight()
    ensures |rows| == height
  {
    var blank, scaled := job.BlankRows(start, height), job.ScaledRows(start, height);
    seq(blank, _ => None)
    + seq(scaled, i requires 0 <= i < scaled => Some(job.ScaledRow(start + blank + i)))
    + seq(height - blank - scaled, _ => None)
  }

  ghost predicate AnswersRight(job: Job, start: nat, height: nat)
    requires start + height <= job.PageHeight()
  {
    forall i | 0 <= i < height :: Answer(job, start, height)[i] == PageRow(job, start + i)
  }

  /** A request shows what the page shows there, unless the picture is cropped and the request goes on below it:
      then its white rows show the picture's cropped rows. */
  lemma AnswersRightIff(job: Job, start: nat, height: nat)
    requires start + height <= job.PageHeight()
    ensures AnswersRight(job, start, height)
       <==> !(job.outHeight > job.printable && start < job.padTop + job.ImageHeight() < start + height)
  {
    var bottom := job.padTop + job.ImageHeight();
    if job.outHeight > job.printable && start < bottom < start + height {
      assert Answer(job, start, height)[bottom - start] == Some(job.ScaledRow(bottom));
    } else {
      forall i | 0 <= i < height
        ensures Answer(job, start, height)[i] == PageRow(job, start + i)
      {
      }
    }
  }

  /** The k-th strip of the page. */
  ghost predicate StripRight(job: Job, k: nat)
    requires 0 <= k * job.step < job.PageHeight()
  {
    AnswersRight(job, k * job.step, Min(job.step, job.PageHeight() - k * job.step))
  }

  lemma StripRightIff(job: Job, k: nat)
    requires job.step > 0 && 0 <= k * job.step < job.PageHeight()
    ensures var bottom := job.padTop + job.ImageHeight();
            (StripRight(job, k)
             <==> !(job.outHeight > job.printable && job.padBottom > 0 && k * job.step < bottom < k * job.step + job.step))
  {
    AnswersRightIff(job, k * job.step, Min(job.step, job.PageHeight() - k * job.step));
  }

  /** A page printed strip by strip comes out right if and only if the picture is not cropped, nothing lies below
      it, or it ends with a strip. */
  lemma StripsRightIff(job: Job)
    requires job.step > 0 && job.printable > 0
    ensures (forall k: nat {:trigger StripRight(job, k)} | 0 <= k * job.step < job.PageHeight() :: StripRight(job, k))
       <==> job.outHeight <= job.printable || job.padBottom == 0 || (job.padTop + job.printable) % job.step == 0
  {
    hide StripRight;
    var bottom := job.padTop + job.ImageHeight();
    forall k: nat | 0 <= k * job.step < job.PageHeight()
      ensures job.outHeight <= job.printable || job.padBottom == 0 || bottom % job.step == 0 ==> StripRight(job, k)
    {
      StripRightIff(job, k);
      if bottom % job.step == 0 {
        NotInside(bottom, job.step, k);
      }
    }
    if job.outHeight > job.printable && job.padBottom > 0 && bottom % job.step != 0 {
      var k := bottom / job.step;
      InsideStrip(bottom, job.step);
      StripRightIff(job, k);
    }
  }

  lemma InsideStrip(n: nat, d: nat)
    requires d > 0 && n % d != 0
    ensures 0 <= n / d * d < n < n / d * d + d
  {
    assert n == n / d * d + n % d;
  }

  lemma NotInside(n: nat, d: nat, k: nat)
    requires d > 0 && n % d == 0
    ensures !(k * d < n < k * d + d)
  {
    BelowQuotient(k, n / d, d);
    BelowQuotient(n / d, k + 1, d);
    NextMultiple(k, d);
  }

  /** With six white rows below the cropped picture, the first of them shows a picture row. */
  lemma SpillFails()
    ensures var job := CROPPED.(padBottom := 6);
            && job.PageHeight() == 112 && PageRow(job, 106) == None
            && Answer(job, 96, 16)[10] == Some(159) && !StripRight(job, 6)
  {
    var job := CROPPED.(padBottom := 6);
    SpillingStrip(job);
    StripRightIff(job, 6);
    hide StripRight, Job.BlankRows, Job.ScaledRows, Job.ScaledRow;
  }

  lemma SpillingStrip(job: Job)
    requires job == CROPPED.(padBottom := 6)
    ensures job.PageHeight() == 112 && job.ImageHeight() == 106
    ensures job.BlankRows(96, 16) == 0 && job.ScaledRows(96, 16) == 16
    ensures job.ScaledRow(96) == 149 && job.ScaledRow(106) == 159
  {
  }
}
