/** Scale-down of one output row: row weights, the unrolled kernels, and the generic loop. */
module ScaleDown {
  import opened Common
  import opened FixedPoint
  import opened ScalerWindow
  import opened AreaWeights
  import opened RowBuffer

  /** A `uint32` addition. */
  function Add32(a: nat, b: nat): nat {
    (a + b) % UINT32
  }

  /** The kernel parameters for a sample that covers [yLo, yHi): the first and last row have partial
      weights, every row between counts in full, and no later row carries weight. */
  ghost predicate RowPlan(inRows: nat, top: nat, bot: nat, yLo: nat, yHi: nat) {
    && inRows >= 2
    && top == Overlap(0, yLo, yHi) <= 256
    && bot == Overlap(inRows - 1, yLo, yHi) <= 256
    && (forall j: nat | 1 <= j < inRows - 1 :: Overlap(j, yLo, yHi) == 256)
    && (forall j: nat | inRows <= j :: Overlap(j, yLo, yHi) == 0)
  }

  /** How many rows a sample covering [lo, hi) reads, the zero-weight second row included. */
  function InRows(hi: nat): nat {
    if hi <= 512 then 2 else (hi + 255) / 256
  }

  /** The weight computation of `_scale_row_down`; its two assertions hold. */
  method PlanRows(posY: nat, yInv: nat) returns (inRows: nat, top: nat, bot: nat)
    ensures var lo := posY / ONE24 % 256; RowPlan(inRows, top, bot, lo, lo + yInv / ONE24)
    ensures inRows == InRows(posY / ONE24 % 256 + yInv / ONE24)
    ensures top + 256 * (inRows - 2) + bot == yInv / ONE24
  {
    hide RowPlan, InRows;
    ghost var lo, span := posY / ONE24 % 256, yInv / ONE24;
    var total: int := yInv / ONE24;
    top := 256 - posY / ONE24 % 256;
    if top > total {
      top := total;
    }
    total := total - top;
    ghost var rest := total;
    if total % 256 != 0 {
      bot := total % 256;
    } else if total > 255 {
      bot := 256;
    } else {
      bot := 0;
    }
    total := total - bot;
    assert total >= 0;
    assert total % 256 == 0;
    inRows := 2 + total / 256;
    RestMeans(rest, bot);
    PlanHolds(lo, span, top, rest, bot, inRows);
  }

  lemma RestMeans(rest: nat, bot: nat)
    requires bot == if rest % 256 != 0 then rest % 256 else if rest > 255 then 256 else 0
    ensures bot <= 256 && bot <= rest && (rest - bot) % 256 == 0 && (bot == 0 <==> rest == 0)
  {
  }

  lemma PlanHolds(lo: nat, span: nat, top: nat, rest: nat, bot: nat, inRows: nat)
    requires lo < 256 && top == Min(256 - lo, span) && rest == span - top
    requires bot <= 256 && bot <= rest && (rest - bot) % 256 == 0 && (bot == 0 <==> rest == 0)
    requires inRows == 2 + (rest - bot) / 256
    ensures RowPlan(inRows, top, bot, lo, lo + span) && inRows == InRows(lo + span)
    ensures top + 256 * (inRows - 2) + bot == span
  {
    var n := (rest - bot) / 256;
    assert rest == 256 * n + bot;
    if rest > 0 {
      assert lo + span == 256 + 256 * n + bot;
    }
  }

  /** Everything one output row depends on.  `at` is the byte offset of the first source row, `ofs`
      the row pitch, `width` the number of source columns. */
  datatype Row = Row(src: seq<Byte>, at: nat, ofs: nat, inRows: nat, yLo: nat, yHi: nat,
                     width: nat, xInv: nat, reciprocal: nat)
  {
    function XLow(x: nat): nat {
      x * xInv / ONE24
    }

    /** Reference value of channel c of output pixel x: the area-weighted sum over all columns. */
    function Sum(x: nat, c: nat): nat {
      AreaSum(src, at + c, ofs, inRows, yLo, yHi, width, XLow(x), XLow(x) + xInv / ONE24)
    }

    function Sample(x: nat, c: nat): Byte {
      Normalise(Sum(x, c) % UINT32, reciprocal) % 256
    }

    /** The first n pixels are right: channel c of pixel x is byte 3x + c behind `at`. */
    ghost predicate ShownAt(out: seq<Byte>, at: nat, n: nat) {
      && at + 3 * n <= |out|
      && forall x: nat, c: nat | x < n && c < 3 :: out[at + 3 * x + c] == Sample(x, c)
    }

    /** What the nine-row kernel leaves: it stores all three channels at the first byte of the pixel, so blue
        survives there and the other two bytes keep their previous contents. */
    ghost predicate BlueFirst(out: seq<Byte>, before: seq<Byte>, at: nat, n: nat) {
      && at + 3 * n <= |out| == |before|
      && forall x: nat | x < n ::
           && out[at + 3 * x] == Sample(x, 2)
           && out[at + 3 * x + 1] == before[at + 3 * x + 1]
           && out[at + 3 * x + 2] == before[at + 3 * x + 2]
    }

    /** What the kernels store: the first n pixels, and nothing else. */
    ghost predicate Stored(out: seq<Byte>, before: seq<Byte>, at: nat, n: nat) {
      && SameOutside(out, before, at, 3 * n)
      && (if inRows == 9 then BlueFirst(out, before, at, n) else ShownAt(out, at, n))
    }

    /** All reads of this row are inside the source buffer, and no sample reaches past the last
        column. */
    ghost predicate Readable(outWidth: nat, top: nat, bot: nat) {
      && RowPlan(inRows, top, bot, yLo, yHi)
      && width > 0
      && at + 3 * (width - 1) + 2 + (inRows - 1) * ofs < |src|
      && xInv / ONE24 >= 256
      && (forall x: nat | x < outWidth :: XLow(x) + xInv / ONE24 <= 256 * width)
    }
  }

  /** Where the nine-row kernel agrees with the reference: exactly where red happens to equal blue and
      the output buffer already held the right green and blue. */
  ghost predicate NineRowAccident(row: Row, before: seq<Byte>, at: nat, n: nat)
    requires at + 3 * n <= |before|
  {
    forall x: nat | x < n ::
      && row.Sample(x, 0) == row.Sample(x, 2)
      && before[at + 3 * x + 1] == row.Sample(x, 1)
      && before[at + 3 * x + 2] == row.Sample(x, 2)
  }

  lemma StoredIsReferenceIff(row: Row, out: seq<Byte>, before: seq<Byte>, at: nat, n: nat)
    requires row.Stored(out, before, at, n) && at + 3 * n <= |before|
    ensures row.ShownAt(out, at, n) <==> row.inRows != 9 || NineRowAccident(row, before, at, n)
  {
    hide Row.Sample;
    if row.inRows == 9 && row.ShownAt(out, at, n) {
      forall x: nat | x < n
        ensures row.Sample(x, 0) == row.Sample(x, 2)
        ensures before[at + 3 * x + 1] == row.Sample(x, 1) && before[at + 3 * x + 2] == row.Sample(x, 2)
      {
        assert out[at + 3 * x + 0] == row.Sample(x, 0);
        assert out[at + 3 * x + 1] == row.Sample(x, 1);
        assert out[at + 3 * x + 2] == row.Sample(x, 2);
      }
    }
  }

  /** A row of pixels comes out right whatever the output buffer held if and only if it does not span nine
      source rows. */
  lemma KernelIsRightIff(row: Row, n: nat)
    requires n > 0
    ensures (forall out: seq<Byte>, before: seq<Byte>, at: nat
               | at + 3 * n <= |before| && row.Stored(out, before, at, n) :: row.ShownAt(out, at, n))
        <==> row.inRows != 9
  {
    hide Row.Sample, Row.Stored, Row.ShownAt, NineRowAccident;
    if row.inRows == 9 {
      var out, before := SomeBuffer(row, n);
      StoredIsReferenceIff(row, out, before, 0, n);
      assert row.Stored(out, before, 0, n) && !row.ShownAt(out, 0, n);
    } else {
      forall out: seq<Byte>, before: seq<Byte>, at: nat | at + 3 * n <= |before| && row.Stored(out, before, at, n)
        ensures row.ShownAt(out, at, n)
      {
        StoredIsReferenceIff(row, out, before, at, n);
      }
    }
  }

  /** A buffer with another green byte than the row's first pixel, and what nine rows make of it. */
  lemma SomeBuffer(row: Row, n: nat) returns (out: seq<Byte>, before: seq<Byte>)
    requires n > 0 && row.inRows == 9
    ensures |before| == 3 * n && !NineRowAccident(row, before, 0, n) && row.Stored(out, before, 0, n)
  {
    hide Row.Sample;
    var other: Byte := if row.Sample(0, 1) == 0 then 1 else 0;
    before := seq(3 * n, _ => other);
    out := seq(3 * n, (i: nat) => if i % 3 == 0 then row.Sample(i / 3, 2) else other);
    assert before[0 + 3 * 0 + 1] == other;
  }

  /** One output pixel from nine rows of one white source pixel each. */
  function NineWhiteRows(): Row {
    Row(seq(27, _ => 255), 0, 3, 9, 0, 2304, 1, 256 * ONE24, UINT32 / (256 * 2304))
  }

  lemma WhiteSample()
    ensures NineWhiteRows().Sample(0, 1) == 255
  {
    var row := NineWhiteRows();
    WhiteSum();
    NormaliseInRange(255 * 589824, 589824, 255, 255);
    SmallMod(255 * 589824, UINT32);
    hide Row.Sum, Normalise;
  }

  /** The nine-row kernel turns a white page over a cleared buffer into one that is not white. */
  lemma NineRowKernelFails()
    ensures var row := NineWhiteRows();
            && RowPlan(9, 256, 256, row.yLo, row.yHi) && row.inRows == 9
            && row.Sample(0, 1) == 255
            && row.Stored([row.Sample(0, 2), 0, 0], [0, 0, 0], 0, 1)
            && forall out: seq<Byte> | row.Stored(out, [0, 0, 0], 0, 1) :: out[1] == 0 && !row.ShownAt(out, 0, 1)
  {
    WhiteSample();
    hide Row.Sample;
    var row := NineWhiteRows();
    forall out: seq<Byte> | row.Stored(out, [0, 0, 0], 0, 1)
      ensures out[1] == 0 && !row.ShownAt(out, 0, 1)
    {
      assert row.BlueFirst(out, [0, 0, 0], 0, 1);
      assert row.Sample(0, 2) == out[0 + 3 * 0];
      assert out[0 + 3 * 0 + 1] != row.Sample(0, 1);
    }
  }

  lemma WhiteColumns()
    ensures var row := NineWhiteRows();
            && row.XLow(0) == 0 && row.xInv / ONE24 == 256 && row.src == seq(27, _ => 255) && row.at == 0
            && row.ofs == 3 && row.inRows == 9 && row.yLo == 0 && row.yHi == 2304 && row.width == 1
            && CoveredWithin(row.src, 1, 3, 9, 0, 2304, 1, 0, 256, 255, 255)
  {
    hide Overlap;
  }

  lemma SumMeans(row: Row, c: nat)
    ensures row.Sum(0, c)
         == AreaSum(row.src, row.at + c, row.ofs, row.inRows, row.yLo, row.yHi, row.width, row.XLow(0),
                    row.XLow(0) + row.xInv / ONE24)
  {
    hide AreaSum;
  }

  lemma WhiteSum()
    ensures NineWhiteRows().Sum(0, 1) == 255 * 589824
  {
    hide *;
    var row := NineWhiteRows();
    WhiteColumns();
    SumMeans(row, 1);
    AreaSumBounds(row.src, 1, 3, 9, 0, 2304, 1, 0, 256, 255, 255);
    OverlapSumIsLength(9, 0, 2304);
    OverlapSumIsLength(1, 0, 256);
  }

  // ----- one column, all rows -----

  predicate HasRow(row: Row, at: nat, k: nat) {
    at + k * row.ofs < |row.src|
  }

  /** The source byte k rows below `at`. */
  function Tap(row: Row, at: nat, k: nat): (p: Byte)
    requires HasRow(row, at, k)
    ensures p == Px(row.src, at + k * row.ofs)
  {
    row.src[at + k * row.ofs]
  }

  function Weigh(p: nat, cw: nat, weight: nat): nat {
    p * cw * weight
  }

  lemma AddTap(acc: nat, cw: nat, tap: nat, weight: nat, p: nat)
    ensures Add32((acc + cw * tap) % UINT32, Weigh(p, cw, weight)) == (acc + cw * (tap + weight * p)) % UINT32
  {
    assert cw * (tap + weight * p) == cw * tap + p * cw * weight;
    ModAdd(acc + cw * tap, p * cw * weight, UINT32);
  }

  /** The column sum so far: rows 0..k-1 weighted by cw, added to acc. */
  ghost function Partial(row: Row, acc: nat, at: nat, cw: nat, k: nat): nat {
    (acc + cw * RowTap(row.src, at, row.ofs, k, row.yLo, row.yHi)) % UINT32
  }

  lemma PartialStep(row: Row, acc: nat, at: nat, cw: nat, k: nat, weight: nat)
    requires weight == Overlap(k, row.yLo, row.yHi) && HasRow(row, at, k)
    ensures Add32(Partial(row, acc, at, cw, k), Weigh(Tap(row, at, k), cw, weight))
         == Partial(row, acc, at, cw, k + 1)
  {
    AddTap(acc, cw, RowTap(row.src, at, row.ofs, k, row.yLo, row.yHi), weight, Tap(row, at, k));
  }

  lemma PartialStart(row: Row, acc: nat, at: nat, cw: nat)
    requires acc < UINT32
    ensures Partial(row, acc, at, cw, 0) == acc
  {
    assert cw * 0 == 0;
  }

  ghost predicate HasRows(row: Row, at: nat) {
    forall k: nat | k < row.inRows :: HasRow(row, at, k)
  }

  lemma RowsBelow(row: Row, at: nat)
    requires row.inRows >= 1 && at + (row.inRows - 1) * row.ofs < |row.src|
    ensures HasRows(row, at)
  {
    forall k: nat | k < row.inRows
      ensures HasRow(row, at, k)
    {
      MulBetween(row.ofs, k, row.inRows - 1, row.inRows - 1);
    }
  }

  /** The generic loop over any number of rows. */
  method LoopColumn(row: Row, acc0: nat, at: nat, cw: nat, top: nat, bot: nat) returns (acc: nat)
    requires acc0 < UINT32
    requires RowPlan(row.inRows, top, bot, row.yLo, row.yHi)
    requires HasRows(row, at)
    ensures acc == Partial(row, acc0, at, cw, row.inRows)
  {
    PartialStart(row, acc0, at, cw);
    PartialStep(row, acc0, at, cw, 0, top);
    acc := Add32(acc0, Weigh(Tap(row, at, 0), cw, top));
    var y := 1;
    while y < row.inRows - 1
      invariant 1 <= y <= row.inRows - 1
      invariant acc == Partial(row, acc0, at, cw, y)
    {
      PartialStep(row, acc0, at, cw, y, 256);
      acc := Add32(acc, Weigh(Tap(row, at, y), cw, 256));
      y := y + 1;
    }
    PartialStep(row, acc0, at, cw, y, bot);
    acc := Add32(acc, Weigh(Tap(row, at, y), cw, bot));
  }

  /** The accumulations of the kernels for 2 to 9 rows; the shift by 8 is the weight 256. */
  function UnrolledColumn(row: Row, acc: nat, at: nat, cw: nat, top: nat, bot: nat): nat
    requires 2 <= row.inRows <= 9
    requires HasRows(row, at)
  {
    var n := row.inRows;
    var a0 := Add32(acc, Weigh(Tap(row, at, 0), cw, top));
    if n == 2 then Add32(a0, Weigh(Tap(row, at, 1), cw, bot)) else
    var a1 := Add32(a0, Weigh(Tap(row, at, 1), cw, 256));
    if n == 3 then Add32(a1, Weigh(Tap(row, at, 2), cw, bot)) else
    var a2 := Add32(a1, Weigh(Tap(row, at, 2), cw, 256));
    if n == 4 then Add32(a2, Weigh(Tap(row, at, 3), cw, bot)) else
    var a3 := Add32(a2, Weigh(Tap(row, at, 3), cw, 256));
    if n == 5 then Add32(a3, Weigh(Tap(row, at, 4), cw, bot)) else
    var a4 := Add32(a3, Weigh(Tap(row, at, 4), cw, 256));
    if n == 6 then Add32(a4, Weigh(Tap(row, at, 5), cw, bot)) else
    var a5 := Add32(a4, Weigh(Tap(row, at, 5), cw, 256));
    if n == 7 then Add32(a5, Weigh(Tap(row, at, 6), cw, bot)) else
    var a6 := Add32(a5, Weigh(Tap(row, at, 6), cw, 256));
    if n == 8 then Add32(a6, Weigh(Tap(row, at, 7), cw, bot)) else
    var a7 := Add32(a6, Weigh(Tap(row, at, 7), cw, 256));
    Add32(a7, Weigh(Tap(row, at, 8), cw, bot))
  }

  /** The weights of the rows of a plan: partial at both ends, full in between. */
  lemma PlanWeights(row: Row, top: nat, bot: nat)
    requires row.inRows >= 2 && RowPlan(row.inRows, top, bot, row.yLo, row.yHi)
    ensures top == Overlap(0, row.yLo, row.yHi) && bot == Overlap(row.inRows - 1, row.yLo, row.yHi)
    ensures forall k | 0 < k < row.inRows - 1 :: Overlap(k, row.yLo, row.yHi) == 256
  {
  }

  lemma HasEachRow(row: Row, at: nat)
    requires HasRows(row, at)
    ensures forall k: nat | k < row.inRows :: HasRow(row, at, k)
  {
  }

  /** Every unrolled accumulation equals the generic loop, wrap-around included. */
  lemma UnrolledIsLoop(row: Row, acc: nat, at: nat, cw: nat, top: nat, bot: nat)
    requires 2 <= row.inRows <= 9 && acc < UINT32
    requires RowPlan(row.inRows, top, bot, row.yLo, row.yHi)
    requires HasRows(row, at)
    ensures UnrolledColumn(row, acc, at, cw, top, bot) == Partial(row, acc, at, cw, row.inRows)
  {
    hide Partial, Add32, Weigh, Tap, Overlap;
    PlanWeights(row, top, bot);
    HasEachRow(row, at);
    var n := row.inRows;
    PartialStart(row, acc, at, cw);
    PartialStep(row, acc, at, cw, 0, top);
    if n > 2 { PartialStep(row, acc, at, cw, 1, 256); }
    if n > 3 { PartialStep(row, acc, at, cw, 2, 256); }
    if n > 4 { PartialStep(row, acc, at, cw, 3, 256); }
    if n > 5 { PartialStep(row, acc, at, cw, 4, 256); }
    if n > 6 { PartialStep(row, acc, at, cw, 5, 256); }
    if n > 7 { PartialStep(row, acc, at, cw, 6, 256); }
    if n > 8 { PartialStep(row, acc, at, cw, 7, 256); }
    PartialStep(row, acc, at, cw, n - 1, bot);
  }

  // ----- one output pixel, one channel -----

  ghost function Columns(row: Row, c: nat, cols: nat, xLo: nat, xHi: nat): nat {
    AreaSum(row.src, row.at + c, row.ofs, row.inRows, row.yLo, row.yHi, cols, xLo, xHi)
  }

  lemma NextColumnSum(row: Row, c: nat, col: nat, acc: nat, weight: nat, lo: nat, hi: nat)
    requires weight == Overlap(col, lo, hi) && acc == Columns(row, c, col, lo, hi) % UINT32
    ensures Partial(row, acc, row.at + c + 3 * col, weight, row.inRows) == Columns(row, c, col + 1, lo, hi) % UINT32
  {
    hide Overlap, RowTap;
    var at := row.at + c + 3 * col;
    ModAdd(Columns(row, c, col, lo, hi), weight * RowTap(row.src, at, row.ofs, row.inRows, row.yLo, row.yHi), UINT32);
  }

  /** One source column: dispatches to the kernel for the number of rows. */
  method AddColumn(row: Row, c: nat, col: nat, acc: nat, weight: nat, top: nat, bot: nat,
                   ghost outWidth: nat, ghost lo: nat, ghost hi: nat)
    returns (sum: nat)
    requires row.Readable(outWidth, top, bot) && c < 3 && col < row.width
    requires weight == Overlap(col, lo, hi)
    requires acc == Columns(row, c, col, lo, hi) % UINT32
    ensures sum == Columns(row, c, col + 1, lo, hi) % UINT32
  {
    hide Columns, Partial, Overlap;
    var at := row.at + c + 3 * col;
    RowsBelow(row, at);
    NextColumnSum(row, c, col, acc, weight, lo, hi);
    if row.inRows <= 9 {
      UnrolledIsLoop(row, acc, at, weight, top, bot);
      sum := UnrolledColumn(row, acc, at, weight, top, bot);
    } else {
      sum := LoopColumn(row, acc, at, weight, top, bot);
    }
  }

  /** The loop control of a kernel: what is left of the span [lo, hi) when the loop stands at `col`,
      and the weight of that column. */
  ghost predicate AtColumn(col: nat, total: int, weight: int, lo: nat, hi: nat) {
    && total >= 0
    && 256 * col + 256 > lo
    && total == (if 256 * col <= lo then hi - lo else Max(0, hi - 256 * col))
    && weight == (if 256 * col <= lo then 256 - lo % 256 else Min(256, total))
  }

  lemma NextColumn(col: nat, total: int, weight: int, lo: nat, hi: nat)
    requires AtColumn(col, total, weight, lo, hi) && total > 0 && hi >= lo + 256
    ensures weight == Overlap(col, lo, hi)
    ensures AtColumn(col + 1, total - weight, Min(256, total - weight), lo, hi)
  {
    if 256 * col <= lo {
      assert lo % 256 == lo - 256 * col;
    }
  }

  /** Columns before the span, and behind it, add nothing. */
  lemma ColumnsBefore(row: Row, c: nat, col: nat, lo: nat, hi: nat)
    requires 256 * col <= lo
    ensures Columns(row, c, col, lo, hi) == 0
  {
    AreaSumFrom(row.src, row.at + c, row.ofs, row.inRows, row.yLo, row.yHi, 0, col, lo, hi);
  }

  lemma ColumnsAfter(row: Row, c: nat, col: nat, lo: nat, hi: nat)
    requires col <= row.width && hi <= 256 * col
    ensures Columns(row, c, row.width, lo, hi) == Columns(row, c, col, lo, hi)
  {
    AreaSumFrom(row.src, row.at + c, row.ofs, row.inRows, row.yLo, row.yHi, col, row.width, lo, hi);
  }

  /** The column loop: the first column has weight 256 minus the sub-pixel position, later ones what
      is left of the span, and the loop ends when the span is used up. */
  method Accumulate(row: Row, c: nat, position: nat, top: nat, bot: nat, ghost outWidth: nat)
    returns (acc: nat)
    requires row.Readable(outWidth, top, bot) && c < 3
    requires position / ONE24 + row.xInv / ONE24 <= 256 * row.width
    ensures var lo := position / ONE24;
            acc == Columns(row, c, row.width, lo, lo + row.xInv / ONE24) % UINT32
  {
    hide Overlap, Columns, RowPlan;
    acc := 0;
    ghost var lo := position / ONE24;
    ghost var hi := lo + row.xInv / ONE24;
    var total: int := row.xInv / ONE24;
    var weight := 256 - position / ONE24 % 256;
    var col: nat := position / UINT32;
    NestedDivision(position);
    ColumnsBefore(row, c, col, lo, hi);
    while total > 0
      invariant AtColumn(col, total, weight, lo, hi) && col <= row.width
      invariant acc == Columns(row, c, col, lo, hi) % UINT32
      decreases total
    {
      NextColumn(col, total, weight, lo, hi);
      acc := AddColumn(row, c, col, acc, weight, top, bot, outWidth, lo, hi);
      col := col + 1;
      total := total - weight;
      weight := if total > 256 then 256 else total;
    }
    ColumnsAfter(row, c, col, lo, hi);
  }

  lemma NestedDivision(position: nat)
    ensures position / UINT32 == position / ONE24 / 256
  {
  }

  // ----- one output row -----

  lemma NothingDone(before: seq<Byte>, row: Row, outAt: nat)
    requires outAt <= |before|
    ensures 0 * row.xInv == 0 && row.Stored(before, before, outAt, 0)
  {
  }

  /** The pixel after the ones that are stored. */
  lemma NextPixelStored(row: Row, out: seq<Byte>, mid: seq<Byte>, before: seq<Byte>, at: nat, x: nat)
    requires row.Stored(mid, before, at, x) && at + 3 * x + 3 <= |before|
    requires SameOutside(out, mid, at + 3 * x, 3)
    requires var q := at + 3 * x;
             if row.inRows == 9 then out[q] == row.Sample(x, 2) && out[q + 1] == mid[q + 1] && out[q + 2] == mid[q + 2]
             else out[q] == row.Sample(x, 0) && out[q + 1] == row.Sample(x, 1) && out[q + 2] == row.Sample(x, 2)
    ensures row.Stored(out, before, at, x + 1)
  {
    hide Row.Sample;
  }

  /** `_scale_row_down` from the weights on: every pixel is right, byte for byte, unless the row spans nine
      source rows; nothing else is written. */
  method ScaleRowDown(row: Row, out: array<Byte>, outAt: nat, top: nat, bot: nat, outWidth: nat)
    requires row.Readable(outWidth, top, bot)
    requires outAt + 3 * outWidth <= out.Length
    modifies out
    ensures row.Stored(out[..], old(out[..]), outAt, outWidth)
  {
    hide *;
    ghost var before := out[..];
    var position, x := 0, 0;
    NothingDone(before, row, outAt);
    while x < outWidth
      invariant 0 <= x <= outWidth
      invariant position == x * row.xInv
      invariant row.Stored(out[..], before, outAt, x)
    {
      ghost var mid := out[..];
      NatProduct(x, row.xInv);
      OutputPixel(row, out, outAt, x, position, top, bot, outWidth);
      NextPixelStored(row, out[..], mid, before, outAt, x);
      NextMultiple(x, row.xInv);
      position := position + row.xInv;
      x := x + 1;
    }
  }

  /** One output pixel of a kernel. */
  method OutputPixel(row: Row, out: array<Byte>, outAt: nat, x: nat, position: nat, top: nat, bot: nat,
                     ghost outWidth: nat)
    requires row.Readable(outWidth, top, bot) && x < outWidth
    requires position == x * row.xInv
    requires outAt + 3 * outWidth <= out.Length
    modifies out
    ensures SameOutside(out[..], old(out[..]), outAt + 3 * x, 3)
    ensures var q := outAt + 3 * x;
            if row.inRows == 9 then
              out[q] == row.Sample(x, 2) && out[q + 1] == old(out[q + 1]) && out[q + 2] == old(out[q + 2])
            else
              out[q] == row.Sample(x, 0) && out[q + 1] == row.Sample(x, 1) && out[q + 2] == row.Sample(x, 2)
  {
    assert ONE24 == 0x100_0000;
    hide *;
    PixelInside(row, x, position, top, bot, outWidth);
    var r := Accumulate(row, 0, position, top, bot, outWidth);
    var g := Accumulate(row, 1, position, top, bot, outWidth);
    var b := Accumulate(row, 2, position, top, bot, outWidth);
    SampleIs(row, x, 0, position, r);
    SampleIs(row, x, 1, position, g);
    SampleIs(row, x, 2, position, b);
    StorePixel(row, out, outAt + 3 * x, r, g, b);
  }

  lemma PixelInside(row: Row, x: nat, position: nat, top: nat, bot: nat, outWidth: nat)
    requires row.Readable(outWidth, top, bot) && x < outWidth && position == x * row.xInv
    ensures position / ONE24 + row.xInv / ONE24 <= 256 * row.width
  {
    hide RowPlan;
    assert row.XLow(x) + row.xInv / ONE24 <= 256 * row.width;
  }

  lemma SampleIs(row: Row, x: nat, c: nat, position: nat, acc: nat)
    requires position == x * row.xInv
    requires acc == Columns(row, c, row.width, position / ONE24, position / ONE24 + row.xInv / ONE24) % UINT32
    ensures Normalise(acc, row.reciprocal) % 256 == row.Sample(x, c)
  {
    hide AreaSum, Normalise;
  }

  /** The three stores of a kernel. */
  method StorePixel(row: Row, out: array<Byte>, q: nat, r: nat, g: nat, b: nat)
    requires q + 3 <= out.Length
    modifies out
    ensures if row.inRows == 9 then
              out[q] == Normalise(b, row.reciprocal) % 256 && out[q + 1] == old(out[q + 1]) && out[q + 2] == old(out[q + 2])
            else
              && out[q] == Normalise(r, row.reciprocal) % 256 && out[q + 1] == Normalise(g, row.reciprocal) % 256
              && out[q + 2] == Normalise(b, row.reciprocal) % 256
    ensures SameOutside(out[..], old(out[..]), q, 3)
  {
    if row.inRows == 9 {
      out[q] := Normalise(r, row.reciprocal) % 256;
      out[q] := Normalise(g, row.reciprocal) % 256;
      out[q] := Normalise(b, row.reciprocal) % 256;
    } else {
      out[q] := Normalise(r, row.reciprocal) % 256;
      out[q + 1] := Normalise(g, row.reciprocal) % 256;
      out[q + 2] := Normalise(b, row.reciprocal) % 256;
    }
  }
}
