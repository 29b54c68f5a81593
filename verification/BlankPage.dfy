/** The blank PWG raster page (`_generate_blank_data` in `lib_pwg.c`), against a reader of the page bitmap
    encoding of PWG 5102.4. */
module BlankPage {
  import opened Common
  import FixedPoint

  type Pixel = seq<Byte>

  // ----- the reader: a line repeat count, then repeated pixels until the line is full -----

  datatype LineRead = LineRead(line: seq<Pixel>, rest: seq<Byte>)

  function Copies<T>(x: T, n: nat): (r: seq<T>)
    ensures |r| == n && forall k | 0 <= k < n :: r[k] == x
  {
    seq(n, _ => x)
  }

  /** Counts are written less one. */
  function Count(b: Byte): nat {
    var n: int := b;
    n + 1
  }

  lemma CopiesAdd<T>(x: T, a: nat, b: nat)
    ensures Copies(x, a) + Copies(x, b) == Copies(x, a + b)
    ensures Copies(x, a) + [] == Copies(x, a) && Copies(x, 0) == []
  {
  }

  /** The first line in `data`, of which `width` pixels are still to come. Runs of literal pixels are not part
      of this reader. */
  function ReadLine(data: seq<Byte>, width: nat, pixelSize: nat): Option<LineRead>
    decreases width
  {
    if width == 0 then Some(LineRead([], data))
    else if |data| < 1 + pixelSize || data[0] > 127 || Count(data[0]) > width then None
    else
      match ReadLine(data[1 + pixelSize..], width - Count(data[0]), pixelSize)
      case None => None
      case Some(l) => Some(LineRead(Copies(data[1..1 + pixelSize], Count(data[0])) + l.line, l.rest))
  }

  /** The page that `data` holds, if it holds exactly one of this size. */
  function ReadPage(data: seq<Byte>, width: nat, height: nat, pixelSize: nat): Option<seq<seq<Pixel>>>
    decreases height
  {
    if height == 0 then if data == [] then Some([]) else None
    else if data == [] || Count(data[0]) > height then None
    else
      match ReadLine(data[1..], width, pixelSize)
      case None => None
      case Some(l) =>
        match ReadPage(l.rest, width, height - Count(data[0]), pixelSize)
        case None => None
        case Some(rows) => Some(Copies(l.line, Count(data[0])) + rows)
  }

  // ----- what is written -----

  function Repeat(unit: seq<Byte>, n: nat): seq<Byte> {
    if n == 0 then [] else Repeat(unit, n - 1) + unit
  }

  function Counted(count: nat, body: seq<Byte>): seq<Byte>
    requires 1 <= count <= 256
  {
    [count - 1] + body
  }

  /** Blocks of `block` copies and, unless they come out even, one block with the rest. */
  function Blocks(n: nat, block: nat, body: seq<Byte>): seq<Byte>
    requires 1 <= block <= 256
  {
    Repeat(Counted(block, body), n / block) + (if n % block == 0 then [] else Counted(n % block, body))
  }

  function White(monochrome: bool): Pixel { if monochrome then [255] else [255, 255, 255] }

  function LineData(width: nat, monochrome: bool): seq<Byte> { Blocks(width, 128, White(monochrome)) }

  function PageData(width: nat, height: nat, monochrome: bool): seq<Byte> {
    Blocks(height, 256, LineData(width, monochrome))
  }

  lemma {:induction false} RepeatLength(unit: seq<Byte>, n: nat)
    ensures |Repeat(unit, n)| == n * |unit|
  {
    if n > 0 {
      RepeatLength(unit, n - 1);
      FixedPoint.NextMultiple(n - 1, |unit|);
    }
  }

  lemma {:induction false} RepeatFront(unit: seq<Byte>, n: nat)
    requires n > 0
    ensures Repeat(unit, n) == unit + Repeat(unit, n - 1)
  {
    if n > 1 {
      RepeatFront(unit, n - 1);
      assert unit + Repeat(unit, n - 2) + unit == unit + (Repeat(unit, n - 2) + unit);
    } else {
      assert Repeat(unit, 1) == [] + unit == unit + [];
    }
  }

  function BlockCount(n: nat, block: nat): nat
    requires block > 0
  {
    n / block + if n % block == 0 then 0 else 1
  }

  /** The first x blocks. */
  function Prefix(n: nat, block: nat, body: seq<Byte>, x: nat): seq<Byte>
    requires 1 <= block <= 256
  {
    if x <= n / block then Repeat(Counted(block, body), x) else Blocks(n, block, body)
  }

  lemma PrefixStep(n: nat, block: nat, body: seq<Byte>, x: nat)
    requires 1 <= block <= 256 && x < BlockCount(n, block)
    ensures Prefix(n, block, body, 0) == []
    ensures x >= n / block ==> n % block > 0
    ensures Prefix(n, block, body, x + 1)
         == Prefix(n, block, body, x) + Counted(if x < n / block then block else n % block, body)
  {
  }

  lemma PrefixLength(n: nat, block: nat, body: seq<Byte>, x: nat)
    requires 1 <= block <= 256 && x <= BlockCount(n, block)
    ensures |Prefix(n, block, body, x)| == x * (1 + |body|)
    ensures Prefix(n, block, body, BlockCount(n, block)) == Blocks(n, block, body)
    ensures |Blocks(n, block, body)| == BlockCount(n, block) * (1 + |body|)
    ensures x < BlockCount(n, block) ==> |Prefix(n, block, body, x)| + 1 + |body| <= |Blocks(n, block, body)|
  {
    var full, size := n / block, 1 + |body|;
    RepeatLength(Counted(block, body), if x <= full then x else full);
    RepeatLength(Counted(block, body), full);
    FixedPoint.NextMultiple(full, size);
    FixedPoint.NextMultiple(x, size);
    MulGrows(x + 1, BlockCount(n, block), size);
  }

  lemma MulGrows(a: nat, b: nat, c: nat)
    ensures a <= b ==> a * c <= b * c
  {
    if a <= b {
      assert (b - a) * c >= 0;
      assert b * c == a * c + (b - a) * c;
    }
  }

  lemma ReadBlock(count: nat, pixel: Pixel, after: seq<Byte>, width: nat)
    requires 1 <= count <= 128 && count <= width
    requires ReadLine(after, width - count, |pixel|).Some?
    ensures var l := ReadLine(after, width - count, |pixel|).value;
            ReadLine(Counted(count, pixel) + after, width, |pixel|)
            == Some(LineRead(Copies(pixel, count) + l.line, l.rest))
  {
    var data := Counted(count, pixel) + after;
    assert data[1..1 + |pixel|] == pixel && data[1 + |pixel|..] == after;
  }

  lemma LineFull(rest: seq<Byte>, unit: seq<Byte>, pixelSize: nat)
    ensures ReadLine(rest, 0, pixelSize) == Some(LineRead([], rest)) && Repeat(unit, 0) == []
  {
  }

  /** A reader takes the blocks of a line one by one and gets a white line. */
  lemma {:induction false} LineReadsBack(full: nat, part: nat, pixel: Pixel, rest: seq<Byte>)
    requires part < 128
    ensures var tail := if part == 0 then [] else Counted(part, pixel);
            ReadLine(Repeat(Counted(128, pixel), full) + tail + rest, full * 128 + part, |pixel|)
            == Some(LineRead(Copies(pixel, full * 128 + part), rest))
  {
    hide *;
    var tail := if part == 0 then [] else Counted(part, pixel);
    var data := Repeat(Counted(128, pixel), full) + tail + rest;
    var width := full * 128 + part;
    LineFull(rest, Counted(128, pixel), |pixel|);
    CopiesAdd(pixel, 0, 0);
    if full > 0 {
      LineReadsBack(full - 1, part, pixel, rest);
      RepeatFront(Counted(128, pixel), full);
      var after := Repeat(Counted(128, pixel), full - 1) + tail + rest;
      assert data == Counted(128, pixel) + after;
      ReadBlock(128, pixel, after, width);
      CopiesAdd(pixel, 128, width - 128);
    } else if part > 0 {
      assert data == Counted(part, pixel) + rest;
      ReadBlock(part, pixel, rest, width);
      CopiesAdd(pixel, part, 0);
    } else {
      assert data == rest;
    }
  }

  lemma LineIsWhite(width: nat, monochrome: bool, rest: seq<Byte>)
    ensures ReadLine(LineData(width, monochrome) + rest, width, |White(monochrome)|)
         == Some(LineRead(Copies(White(monochrome), width), rest))
  {
    assert width == width / 128 * 128 + width % 128;
    LineReadsBack(width / 128, width % 128, White(monochrome), rest);
  }

  lemma ReadRows(count: nat, width: nat, monochrome: bool, after: seq<Byte>, height: nat)
    requires 1 <= count <= 256 && count <= height
    requires ReadPage(after, width, height - count, |White(monochrome)|).Some?
    ensures var rows := ReadPage(after, width, height - count, |White(monochrome)|).value;
            ReadPage(Counted(count, LineData(width, monochrome)) + after, width, height, |White(monochrome)|)
            == Some(Copies(Copies(White(monochrome), width), count) + rows)
  {
    var line := LineData(width, monochrome);
    var data := Counted(count, line) + after;
    assert data[1..] == line + after;
    LineIsWhite(width, monochrome, after);
    hide ReadLine, LineData;
  }

  lemma NothingLeft(width: nat, pixelSize: nat, unit: seq<Byte>)
    ensures ReadPage([], width, 0, pixelSize) == Some([]) && Repeat(unit, 0) == []
  {
  }

  lemma {:induction false} RowsReadBack(full: nat, part: nat, width: nat, monochrome: bool)
    requires part < 256
    ensures var line := LineData(width, monochrome);
            var tail := if part == 0 then [] else Counted(part, line);
            ReadPage(Repeat(Counted(256, line), full) + tail, width, full * 256 + part, |White(monochrome)|)
            == Some(Copies(Copies(White(monochrome), width), full * 256 + part))
  {
    hide *;
    var line, row := LineData(width, monochrome), Copies(White(monochrome), width);
    var tail := if part == 0 then [] else Counted(part, line);
    var data := Repeat(Counted(256, line), full) + tail;
    var height, size := full * 256 + part, |White(monochrome)|;
    NothingLeft(width, size, Counted(256, line));
    CopiesAdd(row, 0, 0);
    if full > 0 {
      RowsReadBack(full - 1, part, width, monochrome);
      RepeatFront(Counted(256, line), full);
      var after := Repeat(Counted(256, line), full - 1) + tail;
      assert data == Counted(256, line) + after;
      ReadRows(256, width, monochrome, after, height);
      CopiesAdd(row, 256, height - 256);
    } else if part > 0 {
      assert data == Counted(part, line) + [];
      ReadRows(part, width, monochrome, [], height);
      CopiesAdd(row, part, 0);
    } else {
      assert data == [];
    }
  }

  /** A reader of the page gets exactly `height` rows of `width` pixels, and all of the one or three bytes of a pixel
      are 255. */
  lemma PageIsWhite(width: nat, height: nat, monochrome: bool)
    ensures var channels := if monochrome then 1 else 3;
            ReadPage(PageData(width, height, monochrome), width, height, channels)
            == Some(Copies(Copies(Copies<Byte>(255, channels), width), height))
  {
    assert White(monochrome) == Copies<Byte>(255, if monochrome then 1 else 3);
    hide White, ReadPage, PageData, Copies;
    assert height == height / 256 * 256 + height % 256;
    RowsReadBack(height / 256, height % 256, width, monochrome);
  }

  method WriteLine(buffer: array<Byte>, start: nat, width: nat, monochrome: bool) returns (i: nat)
    requires start + |LineData(width, monochrome)| <= buffer.Length
    modifies buffer
    ensures i == start + |LineData(width, monochrome)|
    ensures buffer[..i] == old(buffer[..start]) + LineData(width, monochrome)
  {
    hide Prefix, Blocks;
    ghost var before, pixel := buffer[..start], White(monochrome);
    var columnsFull := width / 128;
    var columnFraction := if width % 128 != 0 then 1 else 0;
    i := start;
    var x := 0;
    PrefixLength(width, 128, pixel, 0);
    while x < columnsFull + columnFraction
      invariant 0 <= x <= columnsFull + columnFraction == BlockCount(width, 128)
      invariant i == start + |Prefix(width, 128, pixel, x)| <= buffer.Length
      invariant buffer[..i] == before + Prefix(width, 128, pixel, x)
    {
      PrefixLength(width, 128, pixel, x);
      PrefixStep(width, 128, pixel, x);
      var count := if x < columnsFull then 0x7F else width % 128 - 1;
      i := WriteBlock(buffer, i, count, monochrome);
      assert buffer[..i] == before + Prefix(width, 128, pixel, x + 1);
      x := x + 1;
    }
    PrefixLength(width, 128, pixel, x);
  }

  /** A count and the pixel to repeat. */
  method WriteBlock(buffer: array<Byte>, start: nat, count: nat, monochrome: bool) returns (i: nat)
    requires count < 128 && start + 1 + |White(monochrome)| <= buffer.Length
    modifies buffer
    ensures i == start + 1 + |White(monochrome)|
    ensures buffer[..i] == old(buffer[..start]) + Counted(count + 1, White(monochrome))
  {
    ghost var before := buffer[..start];
    i := start;
    buffer[i] := count;
    buffer[i + 1] := 0xFF;
    i := i + 2;
    if !monochrome {
      buffer[i] := 0xFF;
      buffer[i + 1] := 0xFF;
      i := i + 2;
    }
  }

  /** A count and the line to repeat. */
  method WriteRow(buffer: array<Byte>, start: nat, count: nat, width: nat, monochrome: bool) returns (i: nat)
    requires count < 256 && start + 1 + |LineData(width, monochrome)| <= buffer.Length
    modifies buffer
    ensures i == start + 1 + |LineData(width, monochrome)|
    ensures buffer[..i] == old(buffer[..start]) + Counted(count + 1, LineData(width, monochrome))
  {
    hide LineData;
    ghost var before := buffer[..start];
    buffer[start] := count;
    assert buffer[..start + 1] == before + [count];
    i := WriteLine(buffer, start + 1, width, monochrome);
  }

  /** `_generate_blank_data`; `memory` says whether the buffer can be allocated. */
  method GenerateBlankData(width: nat, height: nat, monochrome: bool, memory: bool)
    returns (buffer: array?<Byte>, size: nat)
    ensures buffer == null <==> width == 0 || height == 0 || !memory
    ensures buffer != null ==> fresh(buffer) && size == buffer.Length && buffer[..] == PageData(width, height, monochrome)
    ensures buffer != null ==> ReadPage(buffer[..], width, height, if monochrome then 1 else 3)
                               == Some(Copies(Copies(Copies<Byte>(255, if monochrome then 1 else 3), width), height))
  {
    buffer, size := null, 0;
    if width == 0 || height == 0 {
      return;
    }
    var rowsFull, columnsFull := height / 256, width / 128;
    var rowFraction := if height % 256 != 0 then 1 else 0;
    var columnFraction := if width % 128 != 0 then 1 else 0;
    var columnDataSize := 1 + (columnsFull + columnFraction) * (if monochrome then 2 else 4);
    ghost var line := LineData(width, monochrome);
    PrefixLength(width, 128, White(monochrome), 0);
    assert columnDataSize == 1 + |line|;
    PrefixLength(height, 256, line, 0);
    hide LineData, Prefix, Blocks;
    FixedPoint.NatProduct(rowsFull + rowFraction, columnDataSize);
    size := (rowsFull + rowFraction) * columnDataSize;
    assert size == |PageData(width, height, monochrome)|;
    if !memory {
      return;
    }
    buffer := new Byte[size];
    FillPage(buffer, width, height, monochrome);
    PageIsWhite(width, height, monochrome);
  }

  method FillPage(buffer: array<Byte>, width: nat, height: nat, monochrome: bool)
    requires height > 0 && buffer.Length == |PageData(width, height, monochrome)|
    modifies buffer
    ensures buffer[..] == PageData(width, height, monochrome)
  {
    hide LineData, Prefix, Blocks;
    ghost var line := LineData(width, monochrome);
    var rowsFull := height / 256;
    var rowFraction := if height % 256 != 0 then 1 else 0;
    var i, y := 0, 0;
    PrefixLength(height, 256, line, 0);
    PrefixStep(height, 256, line, 0);
    while y < rowsFull + rowFraction
      invariant 0 <= y <= rowsFull + rowFraction == BlockCount(height, 256)
      invariant i == |Prefix(height, 256, line, y)| <= buffer.Length
      invariant buffer[..i] == Prefix(height, 256, line, y)
    {
      PrefixLength(height, 256, line, y);
      PrefixStep(height, 256, line, y);
      i := WriteRow(buffer, i, if y < rowsFull then 0xFF else height % 256 - 1, width, monochrome);
      assert buffer[..i] == Prefix(height, 256, line, y + 1);
      y := y + 1;
    }
    PrefixLength(height, 256, line, y);
    assert buffer[..] == buffer[..i];
  }
}
