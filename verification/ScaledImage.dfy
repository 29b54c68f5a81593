/** Source rows from stripe to stripe: how the caller of the scaler keeps and decodes them. */
module ScaledImages {
  import opened Common
  import opened FixedPoint
  import opened ScalerWindow
  import opened AreaWeights
  import opened ScalerConfiguration
  import opened ScalerPlane
  import opened ScaledPage
  import opened UpSamples

  /** n rows of a picture, `pitch` bytes each. */
  function PictureRows(picture: seq<Byte>, pitch: nat, first: nat, n: nat): (s: seq<Byte>)
    requires 0 <= (first + n) * pitch <= |picture|
    ensures |s| == n * pitch
  {
    SplitProduct(first, n, pitch);
    picture[first * pitch..first * pitch + n * pitch]
  }

  /** Bytes from `at` on hold the picture's rows from `first` on. */
  ghost predicate HasRows(s: seq<Byte>, at: nat, picture: seq<Byte>, pitch: nat, first: nat, n: nat) {
    && 0 <= (first + n) * pitch <= |picture|
    && 0 <= at + n * pitch <= |s|
    && s[at..at + n * pitch] == PictureRows(picture, pitch, first, n)
  }

  lemma NoRows(s: seq<Byte>, at: nat, picture: seq<Byte>, pitch: nat, first: nat)
    requires at <= |s| && 0 <= first * pitch <= |picture|
    ensures HasRows(s, at, picture, pitch, first, 0)
  {
    assert 0 * pitch == 0;
  }

  /** Some of the rows. */
  lemma PartOfRows(s: seq<Byte>, at: nat, picture: seq<Byte>, pitch: nat, first: nat, n: nat, skip: nat, k: nat)
    requires HasRows(s, at, picture, pitch, first, n) && skip + k <= n
    ensures skip * pitch >= 0 && k * pitch >= 0 && at + skip * pitch + k * pitch <= |s|
    ensures HasRows(s, at + skip * pitch, picture, pitch, first + skip, k)
  {
    SplitProduct(first, skip, pitch);
    SplitProduct(first + skip, k, pitch);
    SplitProduct(first, n, pitch);
    SplitProduct(skip, k, pitch);
    MulBetween(pitch, skip + k, n, n);
    var a, b := skip * pitch, k * pitch;
    SubSlice(s, at, n * pitch, a, b);
    SubSlice(picture, first * pitch, n * pitch, a, b);
  }

  /** Rows behind rows. */
  lemma RowsJoin(s: seq<Byte>, at: nat, picture: seq<Byte>, pitch: nat, first: nat, n: nat, k: nat)
    requires HasRows(s, at, picture, pitch, first, n)
    requires n * pitch >= 0 && HasRows(s, at + n * pitch, picture, pitch, first + n, k)
    ensures HasRows(s, at, picture, pitch, first, n + k)
  {
    SplitProduct(first, n, pitch);
    SplitProduct(first + n, k, pitch);
    SplitProduct(n, k, pitch);
    SplitProduct(first, n + k, pitch);
    var a, b := n * pitch, k * pitch;
    assert s[at..at + (a + b)] == s[at..at + a] + s[at + a..at + a + b];
    assert PictureRows(picture, pitch, first, n + k)
        == PictureRows(picture, pitch, first, n) + PictureRows(picture, pitch, first + n, k);
  }

  lemma RowsKept(now: seq<Byte>, before: seq<Byte>, at: nat, picture: seq<Byte>, pitch: nat, first: nat, n: nat, to: nat)
    requires HasRows(before, at, picture, pitch, first, n) && at + n * pitch <= to <= |before| == |now|
    requires now[..to] == before[..to]
    ensures HasRows(now, at, picture, pitch, first, n)
  {
    NatProduct(n, pitch);
    assert now[at..at + n * pitch] == now[..to][at..at + n * pitch];
    assert before[at..at + n * pitch] == before[..to][at..at + n * pitch];
  }

  lemma RowsMoved(now: seq<Byte>, before: seq<Byte>, from: nat, picture: seq<Byte>, pitch: nat, first: nat, n: nat,
                  size: nat)
    requires HasRows(before, from, picture, pitch, first, n) && |now| == |before|
    requires size == n * pitch && from + size <= |before| && now[..size] == before[from..from + size]
    ensures HasRows(now, 0, picture, pitch, first, n)
  {
    hide PictureRows;
  }

  /** The part of the decoder that keeps source rows from stripe to stripe.  `picture` is what the picture's rows
      decode to, `pitch` bytes each; the rows in `bad` cannot be decoded. */
  class ScaledImage {
    const picture: seq<Byte>
    const pitch: nat
    const bad: set<nat>
    const buffer: array<Byte>
    var startRow: int // first and last source row in the buffer, -1 before the first stripe
    var endRow: int

    /** The buffer begins with source rows startRow..endRow. */
    ghost predicate Valid()
      reads this, buffer
    {
      endRow >= 0 ==> 0 <= startRow <= endRow && HasRows(buffer[..], 0, picture, pitch, startRow, endRow - startRow + 1)
    }

    constructor (picture: seq<Byte>, pitch: nat, bad: set<nat>, size: nat)
      ensures Valid() && fresh(buffer) && buffer.Length == size && endRow == -1
      ensures this.picture == picture && this.pitch == pitch && this.bad == bad
    {
      this.picture, this.pitch, this.bad := picture, pitch, bad;
      buffer := new Byte[size](_ => 255);
      startRow, endRow := -1, -1;
    }

    /** `memmove` of n bytes to the front of the buffer. */
    method MoveToFront(from: nat, n: nat)
      requires from + n <= buffer.Length
      modifies buffer
      ensures buffer[..n] == old(buffer[from..from + n])
    {
      var i := 0;
      while i < n
        invariant 0 <= i <= n
        invariant forall k | 0 <= k < i :: buffer[k] == old(buffer[from + k])
        invariant forall k | i <= k < buffer.Length :: buffer[k] == old(buffer[k])
      {
        buffer[i] := buffer[from + i];
        i := i + 1;
      }
    }

    /** `_decode_stripe` without padding: n source rows from `first` on, to offset `at` of the buffer. */
    method DecodeRows(first: nat, n: nat, at: nat) returns (ok: bool)
      requires 0 <= (first + n) * pitch <= |picture| && 0 <= at + n * pitch <= buffer.Length
      modifies buffer
      ensures ok <==> forall r: nat | first <= r < first + n :: r !in bad
      ensures buffer[..at] == old(buffer[..at])
      ensures ok ==> HasRows(buffer[..], at, picture, pitch, first, n)
    {
      hide HasRows;
      var k := 0;
      RowsUpTo(first, 0, n, pitch);
      RowsUpTo(0, 0, n, pitch);
      NoRows(buffer[..], at, picture, pitch, first);
      while k < n && first + k !in bad
        invariant 0 <= k <= n
        invariant forall r: nat | first <= r < first + k :: r !in bad
        invariant buffer[..at] == old(buffer[..at])
        invariant HasRows(buffer[..], at, picture, pitch, first, k)
      {
        RowsUpTo(first, k, n, pitch);
        RowsUpTo(0, k, n, pitch);
        AppendRow(first, k, at, at + k * pitch);
        k := k + 1;
      }
      ok := k == n;
    }

    method AppendRow(first: nat, k: nat, ghost at: nat, q: nat)
      requires 0 <= (first + k) * pitch <= (first + k) * pitch + pitch <= |picture|
      requires q == at + k * pitch && at <= q && q + pitch <= buffer.Length
      requires HasRows(buffer[..], at, picture, pitch, first, k)
      modifies buffer
      ensures buffer[..at] == old(buffer[..at])
      ensures HasRows(buffer[..], at, picture, pitch, first, k + 1)
    {
      hide HasRows;
      ghost var before := buffer[..];
      CopyRow(first + k, q);
      assert buffer[..at] == buffer[..q][..at] == before[..q][..at];
      RowsKept(buffer[..], before, at, picture, pitch, first, k, q);
      RowsJoin(buffer[..], at, picture, pitch, first, k, 1);
    }

    method CopyRow(row: nat, q: nat)
      requires 0 <= row * pitch <= row * pitch + pitch <= |picture| && q + pitch <= buffer.Length
      modifies buffer
      ensures buffer[..q] == old(buffer[..q])
      ensures HasRows(buffer[..], q, picture, pitch, row, 1)
    {
      NextMultiple(row, pitch);
      forall i | 0 <= i < pitch {
        buffer[q + i] := picture[row * pitch + i];
      }
      assert 1 * pitch == pitch;
      assert buffer[q..q + pitch] == picture[row * pitch..row * pitch + pitch];
    }

    /** Moves n rows that are in the buffer, behind `skip` others, to the front. */
    method ShiftRows(ghost first: nat, ghost rows: nat, skip: nat, n: nat)
      requires HasRows(buffer[..], 0, picture, pitch, first, rows) && skip + n <= rows
      modifies buffer
      ensures HasRows(buffer[..], 0, picture, pitch, first + skip, n)
    {
      hide HasRows;
      ghost var before := buffer[..];
      PartOfRows(before, 0, picture, pitch, first, rows, skip, n);
      var from, size := skip * pitch, n * pitch;
      MoveToFront(from, size);
      RowsMoved(buffer[..], before, from, picture, pitch, first + skip, n, size);
    }

    /** Keeps the rows that were decoded for the stripe before, from firstRow on. */
    method KeepRows(firstRow: nat) returns (predecoded: nat)
      requires Valid() && (0 <= endRow ==> startRow <= firstRow) && 0 <= firstRow * pitch <= |picture|
      modifies buffer
      ensures predecoded == if firstRow <= endRow then endRow - firstRow + 1 else 0
      ensures HasRows(buffer[..], 0, picture, pitch, firstRow, predecoded)
    {
      hide HasRows;
      predecoded := 0;
      if firstRow <= endRow {
        predecoded := endRow - firstRow + 1;
        ShiftRows(startRow, endRow - startRow + 1, firstRow - startRow, predecoded);
        assert startRow + (firstRow - startRow) == firstRow;
      } else {
        NoRows(buffer[..], 0, picture, pitch, firstRow);
      }
    }

    /** Loads the window firstRow..lastRow: the rows that were decoded for the stripe before are moved to the
        front, and the others decoded behind them. */
    method LoadWindow(firstRow: nat, lastRow: nat) returns (ok: bool)
      requires Valid() && firstRow <= lastRow
      requires 0 <= endRow ==> startRow <= firstRow
      requires 0 <= (lastRow + 1) * pitch <= |picture|
      requires 0 <= (lastRow - firstRow + 1) * pitch <= buffer.Length
      modifies this`startRow, this`endRow, buffer
      ensures startRow == firstRow && endRow == lastRow
      ensures ok <==> forall r: nat | firstRow <= r <= lastRow && old(endRow) < r :: r !in bad
      ensures ok ==> Valid()
    {
      hide HasRows;
      var n := lastRow - firstRow + 1;
      RowsUpTo(0, firstRow, lastRow + 1, pitch);
      var predecoded := KeepRows(firstRow);
      startRow, endRow := firstRow, lastRow;
      ok := true;
      if predecoded < n {
        RowsUpTo(0, predecoded, n, pitch);
        SplitProduct(predecoded, n - predecoded, pitch);
        ghost var before := buffer[..];
        ok := DecodeRows(firstRow + predecoded, n - predecoded, predecoded * pitch);
        if ok {
          RowsKept(buffer[..], before, 0, picture, pitch, firstRow, predecoded, predecoded * pitch);
          RowsJoin(buffer[..], 0, picture, pitch, firstRow, predecoded, n - predecoded);
        }
      } else {
        PartOfRows(buffer[..], 0, picture, pitch, firstRow, predecoded, 0, n);
      }
    }
  }

  lemma RowsUpTo(first: nat, k: nat, n: nat, pitch: nat)
    requires k <= n
    ensures 0 <= first * pitch <= (first + k) * pitch <= (first + n) * pitch
    ensures k < n ==> (first + k) * pitch + pitch <= (first + n) * pitch
    ensures (first + (k + 1)) * pitch == (first + k) * pitch + pitch
  {
    NatProduct(first, pitch);
    MulBetween(pitch, first, first + k, first + n);
    NextMultiple(first + k, pitch);
    if k < n {
      MulBetween(pitch, first + k + 1, first + n, first + n);
    }
  }

  /** Windows only go on: a stripe's window begins no earlier than that of the stripe before. */
  lemma WindowsAdvance(job: Job, lo: nat, hi: nat, lo': nat, hi': nat)
    requires job.Valid() && lo <= hi < lo' <= hi'
    ensures job.Base(FirstRow(lo, hi)) <= job.Base(FirstRow(lo', hi'))
  {
    hide RoundUp24, Job.Valid, Job.YSrc, Job.YOut;
    var a, b := FirstRow(lo, hi), FirstRow(lo', hi');
    RoundedWhole(a * job.YSrc(), job.YOut());
    RoundedWhole(b * job.YSrc(), job.YOut());
    MulBetween(job.YSrc(), a, b, b);
    QuotientMonotone(a * job.YSrc(), b * job.YSrc(), job.YOut());
  }

  lemma QuotientMonotone(m: nat, n: nat, d: nat)
    requires d > 0 && m <= n
    ensures m / d <= n / d
  {
    assert m == m / d * d + m % d && n == n / d * d + n % d;
    BelowQuotient(m / d, n / d + 1, d);
    NextMultiple(n / d, d);
  }

  /** The scaled rows lo..hi are in the output buffer, made from the rows that the source buffer holds. */
  ghost predicate StripeScaled(config: ScalerConfig, src: seq<Byte>, out: seq<Byte>, before: seq<Byte>)
    requires config.Defined() && config.outStartRow <= config.outEndRow && config.srcStartRow <= config.srcEndRow
    reads config
  {
    var s := StripeOf(config);
    && s.xOut > 0 && s.yOut > 0
    && (if config.scaleMode == ScaleUp then UpRowsScaled(s, src, s.outRows, out, config.outBufWidth)
        else TotalWeight(s) > 0 && RowsScaled(s, src, s.outRows, out, before, config.outBufWidth))
  }

  /** Places the window of rows lo..hi and loads it. */
  method LoadStripe(image: ScaledImage, config: ScalerConfig, job: Job, lo: nat, hi: nat) returns (ok: bool)
    requires SetUpFor(config, job) && job.Fine(lo, hi)
    requires image.Valid() && image.pitch == 3 * job.inWidth && |image.picture| == job.inHeight * image.pitch
    requires image.buffer.Length == job.BufferBytes()
    requires 0 <= image.endRow ==> image.startRow <= job.Base(FirstRow(lo, hi))
    modifies config, image`startRow, image`endRow, image.buffer
    ensures PlacedAt(config, job, lo, hi) && config.srcStartRow <= config.srcEndRow
    ensures image.startRow == config.srcStartRow == job.Base(FirstRow(lo, hi)) && image.endRow == config.srcEndRow
    ensures ok <==> forall r: nat | config.srcStartRow <= r <= config.srcEndRow && old(image.endRow) < r :: r !in image.bad
    ensures ok ==> image.Valid()
  {
    hide RoundUp24, Ceil, HasRows, Job.BufferBytes;
    var firstIn, lastIn, generated, offset := config.CalculateScalingRows(lo, hi);
    WindowOfJob(config, job, lo, hi);
    DecodedRowsFit(job, lo, hi);
    RowsUpTo(0, lastIn + 1, job.inHeight, image.pitch);
    NatProduct(lastIn - firstIn + 1, image.pitch);
    TriplePitch(lastIn - firstIn + 1, job.inWidth);
    ok := image.LoadWindow(firstIn, lastIn);
  }

  lemma TriplePitch(n: nat, w: nat)
    ensures n * (3 * w) == 3 * (w * n)
  {
  }

  /** Scales the rows that the source buffer holds. */
  method ScaleLoaded(config: ScalerConfig, job: Job, lo: nat, hi: nat, src: seq<Byte>, out: array<Byte>)
    returns (ok: bool)
    requires lo <= hi < job.outHeight && PlacedAt(config, job, lo, hi)
    requires job.Mode() == ScaleUp || job.Mode() == ScaleDown
    requires job.Touched(lo, hi) <= |src|
    requires BufferFits(job.LastGenerated(lo, hi) - FirstRow(lo, hi) + 1, 3 * job.outWidth, 3 * job.outWidth, out.Length)
    modifies out
    ensures config.srcStartRow <= config.srcEndRow && config.outStartRow <= config.outEndRow
    ensures ok <==> (job.Ups() ==> FineEnough(job.inWidth, job.outWidth) && FineEnough(job.inHeight, job.outHeight))
    ensures ok ==> StripeScaled(config, src, out[..], old(out[..]))
  {
    hide RoundUp24, Ceil, UpRowsScaled, RowsScaled, Job.Touched, TotalWeight, UpBytes;
    WindowOfJob(config, job, lo, hi);
    TouchedByLoops(config, job, lo, hi);
    ok := true;
    if config.scaleMode == ScaleUp {
      ok := ScalePlaneUp(config, src, out, FirstRow(lo, hi), LastRow(lo, hi, job.outHeight));
    } else {
      ScalePlaneDown(config, src, out, FirstRow(lo, hi), LastRow(lo, hi, job.outHeight));
    }
  }

  /** One stripe: its window is placed, loaded and scaled.  This fails exactly if a row that had to be decoded
      cannot be, or the picture is enlarged too much for the scaler's division. */
  method ScaleStripe(image: ScaledImage, config: ScalerConfig, job: Job, lo: nat, hi: nat, out: array<Byte>)
    returns (ok: bool)
    requires SetUpFor(config, job) && job.Fine(lo, hi) && (job.Mode() == ScaleUp || job.Mode() == ScaleDown)
    requires image.Valid() && image.pitch == 3 * job.inWidth && |image.picture| == job.inHeight * image.pitch
    requires image.buffer.Length == job.BufferBytes() && StripeHeld(job, (lo, hi)) && image.buffer != out
    requires 0 <= image.endRow ==> image.startRow <= job.Base(FirstRow(lo, hi))
    requires BufferFits(job.LastGenerated(lo, hi) - FirstRow(lo, hi) + 1, 3 * job.outWidth, 3 * job.outWidth, out.Length)
    modifies config, image`startRow, image`endRow, image.buffer, out
    ensures PlacedAt(config, job, lo, hi) && config.srcStartRow <= config.srcEndRow
    ensures image.startRow == config.srcStartRow == job.Base(FirstRow(lo, hi)) && image.endRow == config.srcEndRow
    ensures ok <==> && (forall r: nat | config.srcStartRow <= r <= config.srcEndRow && old(image.endRow) < r :: r !in image.bad)
                    && (job.Ups() ==> FineEnough(job.inWidth, job.outWidth) && FineEnough(job.inHeight, job.outHeight))
    ensures ok ==> image.Valid() && config.outStartRow <= config.outEndRow && StripeScaled(config, image.buffer[..], out[..], old(out[..]))
  {
    hide RoundUp24, Ceil, HasRows, StripeScaled, Job.Touched, Job.BufferBytes;
    ok := LoadStripe(image, config, job, lo, hi);
    if ok {
      ok := ScaleLoaded(config, job, lo, hi, image.buffer[..], out);
    }
  }

  /** What a loaded buffer shows as a window line is the picture's line, so the results about samples are results
      about the picture's pixels. */
  lemma BufferShowsPicture(buffer: seq<Byte>, picture: seq<Byte>, width: nat, first: nat, n: nat,
                           line: nat, column: nat, c: nat)
    requires HasRows(buffer, 0, picture, 3 * width, first, n)
    requires line < n && column < width && c < 3
    ensures ChannelOf(buffer, 3 * width, c)(line, column) == ChannelOf(picture, 3 * width, c)(first + line, column)
  {
    var pitch := 3 * width;
    hide HasRows;
    PartOfRows(buffer, 0, picture, pitch, first, n, line, 1);
    OneRow(buffer, line * pitch, picture, pitch, first + line, 3 * column + c);
  }

  lemma OneRow(s: seq<Byte>, at: nat, picture: seq<Byte>, pitch: nat, row: nat, i: nat)
    requires HasRows(s, at, picture, pitch, row, 1) && i < pitch
    ensures Px(s, at + i) == Px(picture, row * pitch + i)
  {
    NextMultiple(row, pitch);
    assert 1 * pitch == pitch;
    NatProduct(row, pitch);
    assert s[at + i] == s[at..at + pitch][i] == picture[row * pitch..row * pitch + pitch][i];
  }
}
