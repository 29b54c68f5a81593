/** Scale-up of one output row: bilinear interpolation with 10-bit weights. */
module ScaleUp {
  import opened Common
  import opened FixedPoint
  import opened ScalerWindow
  import opened AreaWeights
  import opened RowBuffer

  /** One interpolation step: an 18-bit value. */
  function Blend(a: int, b: int, weight: int): int {
    a * 1024 + weight * (b - a)
  }

  /** The sample computed from the four neighbours and the two 10-bit weights. */
  function Bilinear(p00: int, p01: int, p10: int, p11: int, wx: int, wy: int): int {
    var top := Blend(p00, p01, wx);
    var bottom := Blend(p10, p11, wx);
    (top * 1024 + wy * (bottom - top)) / 0x10_0000
  }

  /** m..M contains every neighbour that has weight. */
  predicate NeighboursWithin(p00: int, p01: int, p10: int, p11: int, wx: int, wy: int, m: int, M: int) {
    && m <= p00 <= M
    && (wx > 0 ==> m <= p01 <= M)
    && (wy > 0 ==> m <= p10 <= M)
    && (wx > 0 && wy > 0 ==> m <= p11 <= M)
  }

  lemma BlendRange(a: int, b: int, weight: int, m: int, M: int)
    requires 0 <= weight < 1024
    requires m <= a <= M && (weight > 0 ==> m <= b <= M)
    ensures m * 1024 <= Blend(a, b, weight) <= M * 1024
  {
    if weight > 0 {
      WeighBounds(weight, b - m, 0, M - m);
      WeighBounds(1024 - weight, a - m, 0, M - m);
      BlendAsMean(a, b, weight, m);
    }
  }

  lemma BlendAsMean(a: int, b: int, weight: int, m: int)
    ensures Blend(a, b, weight) == m * 1024 + (1024 - weight) * (a - m) + weight * (b - m)
  {
  }

  /** No range check is needed: a sample never leaves the range of its contributing neighbours.  With
      m = M this also says that equal neighbours are reproduced exactly, and with both weights zero
      that the source pixel is. */
  lemma BilinearInRange(p00: int, p01: int, p10: int, p11: int, wx: int, wy: int, m: int, M: int)
    requires 0 <= wx < 1024 && 0 <= wy < 1024
    requires NeighboursWithin(p00, p01, p10, p11, wx, wy, m, M)
    ensures m <= Bilinear(p00, p01, p10, p11, wx, wy) <= M
  {
    BlendRange(p00, p01, wx, m, M);
    var top, bottom := Blend(p00, p01, wx), Blend(p10, p11, wx);
    if wy > 0 {
      BlendRange(p10, p11, wx, m, M);
    }
    BlendRange(top, bottom, wy, m * 1024, M * 1024);
    var x := Blend(top, bottom, wy);
    assert m * 0x10_0000 <= x <= M * 0x10_0000;
    assert Bilinear(p00, p01, p10, p11, wx, wy) == x / 0x10_0000;
  }

  datatype Row = Row(src: seq<Byte>, at: nat, ofs: nat, weightY: nat, xInv: nat)
  {
    /** Column and weight of output pixel x. */
    function Column(x: nat): nat {
      x * xInv / UINT32
    }

    function WeightX(x: nat): nat {
      x * xInv % UINT32 / 0x40_0000
    }

    function Sample(x: nat, c: nat): (b: Byte)
      requires weightY < 1024
    {
      var p := at + 3 * Column(x) + c;
      var p00, p01, p10, p11 := Px(src, p), Px(src, p + 3), Px(src, p + ofs), Px(src, p + ofs + 3);
      BilinearInRange(p00, p01, p10, p11, WeightX(x), weightY, 0, 255);
      Bilinear(p00, p01, p10, p11, WeightX(x), weightY)
    }

    /** The first n pixels of the row stand in `out` from offset `at` on: channel c of pixel x is byte 3x + c. */
    ghost predicate ShownAt(out: seq<Byte>, at: nat, n: nat)
      requires weightY < 1024
    {
      && at + 3 * n <= |out|
      && forall x: nat, c: nat | x < n && c < 3 :: out[at + 3 * x + c] == Sample(x, c)
    }

    /** All reads are inside the source buffer.  The interpolation reads one column past the last one
        it needs. */
    ghost predicate Readable(outWidth: nat, width: nat) {
      && weightY < 1024
      && width > 0
      && at + ofs + 3 * width + 2 < |src|
      && (forall x: nat | x < outWidth :: Column(x) < width)
    }
  }

  method InterpolateChannel(row: Row, p: nat, wx: nat) returns (b: Byte)
    requires row.weightY < 1024 && wx < 1024
    requires p + row.ofs + 3 < |row.src|
    ensures b == Bilinear(row.src[p], row.src[p + 3], row.src[p + row.ofs], row.src[p + row.ofs + 3],
                          wx, row.weightY)
  {
    var topVal := row.src[p] * 1024 + wx * (row.src[p + 3] as int - row.src[p] as int);
    var botVal := row.src[p + row.ofs] * 1024 + wx * (row.src[p + row.ofs + 3] as int - row.src[p + row.ofs] as int);
    BilinearInRange(row.src[p], row.src[p + 3], row.src[p + row.ofs], row.src[p + row.ofs + 3],
                    wx, row.weightY, 0, 255);
    b := (topVal * 1024 + row.weightY * (botVal - topVal)) / 0x10_0000;
  }

  /** The three channels of a pixel. */
  method PixelAt(row: Row, ghost x: nat, position: nat, ghost outWidth: nat, ghost width: nat)
    returns (r: Byte, g: Byte, b: Byte)
    requires row.Readable(outWidth, width) && x < outWidth
    requires position == x * row.xInv
    ensures r == row.Sample(x, 0) && g == row.Sample(x, 1) && b == row.Sample(x, 2)
  {
    hide Bilinear;
    var column := position / UINT32;
    var weightX := position % UINT32 / 0x40_0000;
    assert column == row.Column(x) < width;
    var p := row.at + 3 * column;
    r := InterpolateChannel(row, p, weightX);
    g := InterpolateChannel(row, p + 1, weightX);
    b := InterpolateChannel(row, p + 2, weightX);
  }

  /** Red, green and blue are the pixel's bytes, in this order. */
  method OutputPixel(row: Row, out: array<Byte>, outAt: nat, x: nat, position: nat,
                     ghost outWidth: nat, ghost width: nat)
    requires row.Readable(outWidth, width) && x < outWidth
    requires position == x * row.xInv
    requires outAt + 3 * outWidth <= out.Length
    requires row.ShownAt(out[..], outAt, x)
    modifies out
    ensures row.ShownAt(out[..], outAt, x + 1)
    ensures SameOutside(out[..], old(out[..]), outAt + 3 * x, 3)
  {
    hide Row.Sample, Row.Readable;
    var q := outAt + 3 * x;
    var r, g, b := PixelAt(row, x, position, outWidth, width);
    out[q], out[q + 1], out[q + 2] := r, g, b;
  }

  /** `_scale_row_up`: writes the row's samples, three bytes a pixel, and nothing else. */
  method ScaleRowUp(row: Row, out: array<Byte>, outAt: nat, outWidth: nat, ghost width: nat)
    requires row.Readable(outWidth, width)
    requires outAt + 3 * outWidth <= out.Length
    modifies out
    ensures row.ShownAt(out[..], outAt, outWidth)
    ensures SameOutside(out[..], old(out[..]), outAt, 3 * outWidth)
  {
    hide SameOutside, Row.Column, Row.Sample;
    ghost var before := out[..];
    var position, x := 0, 0;
    NothingWritten(before, row, outAt);
    while x < outWidth
      invariant 0 <= x <= outWidth
      invariant position == x * row.xInv
      invariant row.ShownAt(out[..], outAt, x)
      invariant SameOutside(out[..], before, outAt, 3 * x)
    {
      ghost var mid := out[..];
      NatProduct(x, row.xInv);
      OutputPixel(row, out, outAt, x, position, outWidth, width);
      WrittenFurther(out[..], mid, before, outAt, 3 * x, 3);
      NextMultiple(x, row.xInv);
      position := position + row.xInv;
      x := x + 1;
    }
  }

  lemma NothingWritten(before: seq<Byte>, row: Row, outAt: nat)
    ensures 0 * row.xInv == 0 && SameOutside(before, before, outAt, 0)
  {
  }
}
