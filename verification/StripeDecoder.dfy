/** Decoding a page stripe by stripe, with a cache of rotated rows for sideways images. */
module StripeDecoding {
  import opened Common
  import opened FixedPoint
  import opened PageRows
  import opened OutputGeometry

  /** The settled output properties a decoder works with, on an image that needs no scaling.  The pads
      are zero where the padding options leave a side out; a source row the image decoder cannot
      supply is empty. */
  datatype View = View(rotation: Rotation, rows: seq<seq<Pixel>>, sw: nat, sh: nat,
                       rowOffset: nat, colOffset: nat, ow: nat, imageHeight: nat,
                       padTop: nat, padLeft: nat, padRight: nat, padBottom: nat)
  {
    function RotW(): nat { if Sideways(rotation) then sh else sw }
    function RotH(): nat { if Sideways(rotation) then sw else sh }

    function PageWidth(): nat { padLeft + ow + padRight }
    function PageHeight(): nat { padTop + imageHeight + padBottom }

    /** The image region is not empty and lies inside the rotated image. */
    predicate Valid() {
      && |rows| == sh && sh >= 1 && sw >= 1
      && (forall y | 0 <= y < sh :: |rows[y]| == sw || |rows[y]| == 0)
      && ow >= 1 && colOffset + ow <= RotW()
      && imageHeight >= 1 && rowOffset + imageHeight <= RotH()
    }

    /** More rows than this are never cached. */
    function CacheCap(): nat { if Sideways(rotation) && sw > sh then sw else sh }

    /** So many rows fit into the memory for caching, and no more would: neither another row, nor, from sixteen
        rows on, another sixteen, unless all rows are cached. */
    predicate CacheFits(n: nat, memory: int) {
      var width, available := 3 * RotW(), Max(memory, 0x10_0000);
      && n * width <= available
      && n <= CacheCap()
      && (n == CacheCap() || (if n < 16 then (n + 1) * width > available
                              else n % 16 == 0 && (n + 16) * width > available))
    }

    predicate Decodable() {
      forall y | 0 <= y < |rows| :: |rows[y]| == sw
    }

    function Source(y: nat, x: nat): Pixel {
      if y < |rows| && x < |rows[y]| then rows[y][x] else WHITE
    }

    /** The rotated image, by definition. */
    function Rotated(r: nat, c: nat): Pixel
      requires r < RotH() && c < RotW()
    {
      match rotation
      case Rot0 => Source(r, c)
      case Rot90 => Source(sh - 1 - c, r)
      case Rot180 => Source(sh - 1 - r, sw - 1 - c)
      case Rot270 => Source(c, sw - 1 - r)
    }

    /** Row k of the image region: the rotated image, cropped. */
    function ImageRow(k: nat): (s: seq<Pixel>)
      requires Valid() && k < imageHeight
      ensures |s| == ow
    {
      seq<Pixel>(ow, x requires 0 <= x < ow => Rotated(rowOffset + k, colOffset + x))
    }

    /** Row y of the page: white padding around the image region. */
    function PageRow(y: nat): (s: seq<Pixel>)
      requires Valid()
      ensures |s| == PageWidth()
    {
      if padTop <= y < padTop + imageHeight then White(padLeft) + ImageRow(y - padTop) + White(padRight)
      else White(PageWidth())
    }

    /** The reference page. */
    function Page(): (p: seq<seq<Pixel>>)
      requires Valid()
      ensures |p| == PageHeight() && Uniform(p, PageWidth())
    {
      seq<seq<Pixel>>(PageHeight(), y requires 0 <= y < PageHeight() => PageRow(y))
    }
  }

  const ERROR: int := -1
  const MIN_DECODE_MEM: nat := 0x10_0000

  function Available(memory: int): nat { if memory > MIN_DECODE_MEM then memory else MIN_DECODE_MEM }

  method PutCells(out: array<Pixel>, q: nat, data: seq<Pixel>)
    requires q + |data| <= out.Length
    modifies out
    ensures Written(out[..], old(out[..]), q, data)
  {
    forall i | 0 <= i < |data| {
      out[q + i] := data[i];
    }
  }

  /** Image cells of n page rows are in place: row k holds image row `first + k`. */
  ghost predicate Centers(v: View, s: seq<Pixel>, at: nat, first: nat, n: nat)
    requires v.Valid() && first + n <= v.imageHeight
  {
    forall k: nat | k < n :: Part(s, at, k, v.PageWidth(), v.padLeft, v.ow) == v.ImageRow(first + k)
  }

  /** Rows 0..k-1 are complete page rows. */
  ghost predicate Finished(v: View, s: seq<Pixel>, at: nat, first: nat, k: nat)
    requires v.Valid() && first + k <= v.imageHeight
  {
    forall j: nat | j < k :: Part(s, at, j, v.PageWidth(), 0, v.PageWidth()) == v.PageRow(v.padTop + first + j)
  }

  ghost predicate SameOutside(now: seq<Pixel>, before: seq<Pixel>, from: int, to: int) {
    && |now| == |before| && 0 <= from <= to <= |now|
    && now[..from] == before[..from] && now[to..] == before[to..]
  }

  /** Puts image row first + k into page row k of the stripe. */
  method PlaceRow(v: View, out: array<Pixel>, at: nat, first: nat, k: nat, n: nat, data: seq<Pixel>, ghost good: bool)
    requires v.Valid() && k < n && first + n <= v.imageHeight
    requires at + n * v.PageWidth() <= out.Length
    requires |data| == v.ow
    requires good ==> data == v.ImageRow(first + k) && Centers(v, out[..], at, first, k)
    modifies out
    ensures good ==> Centers(v, out[..], at, first, k + 1)
    ensures SameOutside(out[..], old(out[..]), at, at + n * v.PageWidth())
  {
    hide *;
    ghost var before := out[..];
    var q := RowCell(v, at, k, n);
    PutCells(out, q, data);
    RowPlaced(v, out[..], before, at, first, k, n, data, good);
  }

  /** Where the image cells of page row k begin. */
  function RowCell(v: View, at: nat, k: nat, n: nat): (q: nat)
    requires v.Valid() && k < n
    ensures q == at + k * v.PageWidth() + v.padLeft
    ensures at <= q && q + v.ow <= at + n * v.PageWidth()
  {
    RowStart(k, n, v.PageWidth());
    NatProduct(k, v.PageWidth());
    at + k * v.PageWidth() + v.padLeft
  }

  lemma RowPlaced(v: View, now: seq<Pixel>, before: seq<Pixel>, at: nat, first: nat, k: nat, n: nat, data: seq<Pixel>,
                  good: bool)
    requires v.Valid() && k < n && first + n <= v.imageHeight && |data| == v.ow
    requires at + n * v.PageWidth() <= |before| && Written(now, before, RowCell(v, at, k, n), data)
    requires good ==> data == v.ImageRow(first + k) && Centers(v, before, at, first, k)
    ensures good ==> Centers(v, now, at, first, k + 1)
    ensures SameOutside(now, before, at, at + n * v.PageWidth())
  {
    hide Written, SameOutside, Part, View.ImageRow;
    var w := v.PageWidth();
    PartSet(now, before, at, k, w, v.padLeft, data);
    if good {
      forall j: nat | j < k
        ensures Part(now, at, j, w, v.padLeft, v.ow) == v.ImageRow(first + j)
      {
        PartKept(now, before, at, k, w, v.padLeft, data, j, v.padLeft, v.ow);
      }
    }
    WrittenOutside(now, before, RowCell(v, at, k, n), data, at, at + n * w);
  }

  /** White rows above or below the image. */
  method BlankRows(v: View, out: array<Pixel>, q: nat, start: nat, n: nat)
    requires v.Valid() && start + n <= v.PageHeight() && q + n * v.PageWidth() <= out.Length
    requires n == 0 || start + n <= v.padTop || v.padTop + v.imageHeight <= start
    modifies out
    ensures Segment(v, out[..], q, start, n)
    ensures SameOutside(out[..], old(out[..]), q, q + n * v.PageWidth())
  {
    hide Segment, SameOutside, White;
    NatProduct(n, v.PageWidth());
    ghost var before := out[..];
    PutCells(out, q, White(n * v.PageWidth()));
    BlankWritten(v, out[..], before, q, start, n);
  }

  /** Whitens the left and right edge of n decoded rows.  `good` says that their image cells are
      right. */
  method WhitenEdges(v: View, out: array<Pixel>, q: nat, first: nat, n: nat, ghost good: bool)
    requires v.Valid() && first + n <= v.imageHeight && q + n * v.PageWidth() <= out.Length
    requires good ==> Centers(v, out[..], q, first, n)
    modifies out
    ensures good ==> Segment(v, out[..], q, v.padTop + first, n)
    ensures SameOutside(out[..], old(out[..]), q, q + n * v.PageWidth())
  {
    var k := 0;
    while k < n
      invariant 0 <= k <= n
      invariant good ==> Centers(v, out[..], q, first, n) && Finished(v, out[..], q, first, k)
      invariant SameOutside(out[..], old(out[..]), q, q + n * v.PageWidth())
    {
      WhitenRow(v, out, q, first, n, k, good);
      k := k + 1;
    }
    if good {
      FinishedSegment(v, out[..], q, first, n);
    }
  }

  method WhitenRow(v: View, out: array<Pixel>, q: nat, first: nat, n: nat, k: nat, ghost good: bool)
    requires v.Valid() && k < n && first + n <= v.imageHeight && q + n * v.PageWidth() <= out.Length
    requires good ==> Centers(v, out[..], q, first, n) && Finished(v, out[..], q, first, k)
    modifies out
    ensures good ==> Centers(v, out[..], q, first, n) && Finished(v, out[..], q, first, k + 1)
    ensures SameOutside(out[..], old(out[..]), q, q + n * v.PageWidth())
  {
    hide *;
    WhiteSize(v.padLeft, v.padRight);
    ghost var s0 := out[..];
    var left := RowEdge(v, q, k, n);
    PutCells(out, left, White(v.padLeft));
    ghost var s1 := out[..];
    PutCells(out, left + (v.padLeft + v.ow), White(v.padRight));
    RowWhitened(v, s0, s1, out[..], q, first, n, k, good);
  }

  lemma WhiteSize(a: nat, b: nat)
    ensures |White(a)| == a && |White(b)| == b
  {
  }

  /** Where page row k begins. */
  function RowEdge(v: View, at: nat, k: nat, n: nat): (q: nat)
    requires v.Valid() && k < n
    ensures q == at + k * v.PageWidth()
    ensures at <= q && q + (v.padLeft + v.ow + v.padRight) <= at + n * v.PageWidth()
  {
    RowStart(k, n, v.PageWidth());
    NatProduct(k, v.PageWidth());
    at + k * v.PageWidth()
  }

  lemma RowWhitened(v: View, s0: seq<Pixel>, s1: seq<Pixel>, s2: seq<Pixel>, q: nat, first: nat, n: nat, k: nat, good: bool)
    requires v.Valid() && k < n && first + n <= v.imageHeight && q + n * v.PageWidth() <= |s0|
    requires var left := RowEdge(v, q, k, n);
             Written(s1, s0, left, White(v.padLeft)) && Written(s2, s1, left + (v.padLeft + v.ow), White(v.padRight))
    requires good ==> Centers(v, s0, q, first, n) && Finished(v, s0, q, first, k)
    ensures good ==> Centers(v, s2, q, first, n) && Finished(v, s2, q, first, k + 1)
    ensures SameOutside(s2, s0, q, q + n * v.PageWidth())
  {
    hide Written, SameOutside, Centers, Finished, White;
    var w, left := v.PageWidth(), RowEdge(v, q, k, n);
    WhiteSize(v.padLeft, v.padRight);
    EdgesOutside(s0, s1, s2, q, left - q, w, q + n * w - q, White(v.padLeft), White(v.padRight));
    if good {
      EdgesDone(v, s0, s1, s2, q, first, n, k);
    }
  }

  class StripeDecoder {
    const v: View
    const decodeMemory: int    // memory left for row caching
    var started: bool          // the decoder has delivered a row, so the cache is sized
    var rowsCached: nat
    var swathStart: int
    var cache: array2<Pixel>

    ghost predicate Valid()
      reads this, cache
    {
      && v.Valid()
      && swathStart >= -1
      && (started ==> rowsCached >= 1)
      && (started && Sideways(v.rotation) ==> cache.Length0 == rowsCached && cache.Length1 == v.sh)
      && (swathStart >= 0 ==> started && Sideways(v.rotation) && (v.Decodable() ==> CacheAgrees()))
    }

    /** Every cached row is the corresponding row of the rotated image. */
    ghost predicate CacheAgrees()
      requires v.Valid() && swathStart >= 0 && Sideways(v.rotation)
      requires cache.Length0 == rowsCached && cache.Length1 == v.sh
      reads this, cache
    {
      forall x: nat, c: nat | x < rowsCached && swathStart + x < v.sw && c < v.sh ::
        cache[x, c] == v.Rotated(swathStart + x, c)
    }

    constructor (view: View, memory: int)
      requires view.Valid()
      ensures v == view && Valid() && fresh(cache)
    {
      v := view;
      decodeMemory := memory;
      started, rowsCached, swathStart := false, 0, -1;
      cache := new Pixel[0, 0];
    }

    /** `wprint_image_compute_rows_to_cache`: as many rows as memory allows, in groups of sixteen. */
    method ComputeRowsToCache()
      requires v.Valid() && 3 * v.sw <= MIN_DECODE_MEM && 3 * v.sh <= MIN_DECODE_MEM
      modifies this`rowsCached, this`cache
      ensures rowsCached >= 1 && v.CacheFits(rowsCached, decodeMemory)
      ensures Sideways(v.rotation) ==> cache.Length0 == rowsCached && cache.Length1 == v.sh && fresh(cache)
      ensures !Sideways(v.rotation) ==> cache == old(cache)
    {
      var rowWidth := 3 * v.RotW();
      var available := Available(decodeMemory);
      var maxRows := available / rowWidth;
      SixteenFit(available, rowWidth);
      if maxRows > 15 {
        maxRows := maxRows - maxRows % 16;
      }
      FewerFit(maxRows, v.CacheCap(), rowWidth);
      var larger := if v.sw > v.sh then v.sw else v.sh;
      if Sideways(v.rotation) {
        if maxRows > larger {
          maxRows := larger;
        }
        cache := new Pixel[maxRows, v.sh];
      } else if maxRows > v.sh {
        maxRows := v.sh;
      }
      rowsCached := maxRows;
    }

    /** `decode_row`, which sizes the cache when it is first called. */
    method DecodeRow(y: nat) returns (row: seq<Pixel>)
      requires Valid() && y < v.sh
      requires 3 * v.sw <= MIN_DECODE_MEM && 3 * v.sh <= MIN_DECODE_MEM
      modifies this`started, this`rowsCached, this`cache
      ensures row == v.rows[y] && started && Valid()
      ensures old(started) ==> rowsCached == old(rowsCached) && cache == old(cache)
      ensures cache == old(cache) || fresh(cache)
    {
      if !started {
        ComputeRowsToCache();
        started := true;
      }
      row := v.rows[y];
    }

    /** Fills the cache with the swath of rotated rows that contains `startRow`. */
    method FillSwath(startRow: nat) returns (ok: bool)
      requires Valid() && Sideways(v.rotation) && startRow < v.sw
      requires 3 * v.sw <= MIN_DECODE_MEM && 3 * v.sh <= MIN_DECODE_MEM
      modifies this`started, this`rowsCached, this`cache, this`swathStart, cache
      ensures Valid()
      ensures cache == old(cache) || fresh(cache)
      ensures v.Decodable() ==> ok
      ensures ok ==> v.Decodable() && swathStart <= startRow < swathStart + rowsCached && swathStart >= 0
    {
      if swathStart == -1 {
        var row := DecodeRow(0);
        if |row| == 0 {
          assert !v.Decodable();
          return false;
        }
      }
      SwathContains(startRow, rowsCached);
      swathStart := startRow / rowsCached * rowsCached;
      var y := 0;
      while y < v.sh
        invariant 0 <= y <= v.sh
        invariant forall i | 0 <= i < y :: |v.rows[i]| == v.sw
        invariant Filled(y)
        modifies cache
      {
        // the cache is sized by now, so the decoder only delivers the row
        var row := v.rows[y];
        if |row| == 0 {
          assert !v.Decodable();
          return false;
        }
        CopyIntoCache(y, row);
        y := y + 1;
      }
      ok := true;
    }

    /** The cache columns that stem from source rows 0..y-1 are in place. */
    ghost predicate Filled(y: nat)
      requires v.Valid() && Sideways(v.rotation) && swathStart >= 0
      requires cache.Length0 == rowsCached && cache.Length1 == v.sh
      reads this, cache
    {
      forall x: nat, c: nat | x < rowsCached && swathStart + x < v.sw && c < v.sh && SourceRow(c) < y ::
        cache[x, c] == v.Rotated(swathStart + x, c)
    }

    /** The source row that supplies column c of the rotated image. */
    function SourceRow(c: nat): int {
      if v.rotation == Rot90 then v.sh - 1 - c else c
    }

    method CopyIntoCache(y: nat, row: seq<Pixel>)
      requires v.Valid() && Sideways(v.rotation) && y < v.sh && row == v.rows[y] && |row| == v.sw
      requires swathStart >= 0
      requires cache.Length0 == rowsCached && cache.Length1 == v.sh
      requires Filled(y)
      modifies cache
      ensures Filled(y + 1)
    {
      var column := SourceRow(y);
      var x := 0;
      while x < rowsCached && x + swathStart < v.sw
        invariant 0 <= x <= rowsCached
        invariant Filled(y)
        modifies cache
        invariant forall i: nat | i < x && swathStart + i < v.sw ::
                    cache[i, column] == v.Rotated(swathStart + i, column)
      {
        if v.rotation == Rot90 {
          cache[x, v.sh - y - 1] := row[swathStart + x];
        } else {
          cache[x, y] := row[v.sw - (swathStart + x) - 1];
        }
        x := x + 1;
      }
    }

    /** One row of the cache, cropped. */
    method CacheRow(r: nat) returns (data: seq<Pixel>)
      requires Valid() && Sideways(v.rotation) && started && r < rowsCached
      ensures |data| == v.ow
      ensures forall x: nat | x < v.ow :: data[x] == cache[r, v.colOffset + x]
    {
      data := [];
      var x := 0;
      while x < v.ow
        invariant 0 <= x <= v.ow && |data| == x
        invariant forall i: nat | i < x :: data[i] == cache[r, v.colOffset + i]
      {
        data := data + [cache[r, v.colOffset + x]];
        x := x + 1;
      }
    }

    /** One source row of an upside-down image, reversed and cropped. */
    method ReversedRow(row: seq<Pixel>) returns (data: seq<Pixel>)
      requires Valid() && v.rotation == Rot180 && |row| == v.sw
      ensures |data| == v.ow
      ensures forall x: nat | x < v.ow :: data[x] == row[v.sw - 1 - (v.colOffset + x)]
    {
      data := [];
      var x := 0;
      while x < v.ow
        invariant 0 <= x <= v.ow && |data| == x
        invariant forall i: nat | i < x :: data[i] == row[v.sw - 1 - (v.colOffset + i)]
      {
        data := data + [row[v.sw - x - v.colOffset - 1]];
        x := x + 1;
      }
    }

    /** The upright cases of `_decode_stripe`. */
    method DecodeUpright(startRow: nat, numRows: nat, out: array<Pixel>, at: nat) returns (nbytes: int)
      requires Valid() && !Sideways(v.rotation)
      requires 3 * v.sw <= MIN_DECODE_MEM && 3 * v.sh <= MIN_DECODE_MEM
      requires startRow + numRows <= v.imageHeight && at + numRows * v.PageWidth() <= out.Length
      modifies this`started, this`rowsCached, this`cache, out
      ensures Valid() && (cache == old(cache) || fresh(cache))
      ensures SameOutside(out[..], old(out[..]), at, at + numRows * v.PageWidth())
      ensures v.Decodable() ==> nbytes != ERROR
      ensures nbytes == ERROR || nbytes == 3 * (numRows * v.PageWidth())
      ensures nbytes != ERROR ==> Centers(v, out[..], at, startRow, numRows)
    {
      nbytes := 0;
      var k := 0;
      while k < numRows && startRow + v.rowOffset + k < v.sh
        invariant 0 <= k <= numRows
        invariant Valid() && (cache == old(cache) || fresh(cache))
        invariant nbytes == 3 * (k * v.PageWidth())
        invariant Centers(v, out[..], at, startRow, k)
        invariant SameOutside(out[..], old(out[..]), at, at + numRows * v.PageWidth())
        modifies this`started, this`rowsCached, this`cache, out
      {
        var y := startRow + v.rowOffset + k;
        var row := DecodeRow(if v.rotation == Rot180 then v.sh - y - 1 else y);
        if |row| == 0 {
          assert !v.Decodable();
          return ERROR;
        }
        var data := row[..0];
        if v.rotation == Rot180 {
          data := ReversedRow(row);
        } else {
          data := row[v.colOffset..v.colOffset + v.ow];
        }
        RowIs(v, startRow + k, data);
        PlaceRow(v, out, at, startRow, k, numRows, data, true);
        NextMultiple(k, v.PageWidth());
        nbytes := nbytes + 3 * v.PageWidth();
        k := k + 1;
      }
    }

    /** The sideways cases of `_decode_stripe`.  The guard against an endless loop never fires: every
        turn of the outer loop delivers a row. */
    method DecodeSideways(startRow: nat, numRows: nat, out: array<Pixel>, at: nat) returns (nbytes: int)
      requires Valid() && Sideways(v.rotation)
      requires 3 * v.sw <= MIN_DECODE_MEM && 3 * v.sh <= MIN_DECODE_MEM
      requires startRow + numRows <= v.imageHeight && at + numRows * v.PageWidth() <= out.Length
      modifies this`started, this`rowsCached, this`cache, this`swathStart, cache, out
      ensures Valid() && (cache == old(cache) || fresh(cache))
      ensures SameOutside(out[..], old(out[..]), at, at + numRows * v.PageWidth())
      ensures nbytes == ERROR || nbytes == 3 * (numRows * v.PageWidth())
      ensures v.Decodable() ==> nbytes != ERROR && Centers(v, out[..], at, startRow, numRows)
    {
      nbytes := 0;
      var k := 0;
      ghost var oldCount := -1;
      while k < numRows
        invariant 0 <= k <= numRows && oldCount < k
        invariant Valid() && (cache == old(cache) || fresh(cache))
        invariant nbytes == 3 * (k * v.PageWidth())
        invariant v.Decodable() ==> Centers(v, out[..], at, startRow, k)
        invariant SameOutside(out[..], old(out[..]), at, at + numRows * v.PageWidth())
        decreases numRows - k
      {
        oldCount := k;
        var y := startRow + v.rowOffset + k;
        if swathStart == -1 || y < swathStart || y >= swathStart + rowsCached {
          var ok := FillSwath(y);
          if !ok {
            return ERROR;
          }
        }
        k, nbytes := CopySwath(startRow, numRows, k, nbytes, out, at);
      }
    }

    /** Copies rows while they are in the cached swath. */
    method CopySwath(startRow: nat, numRows: nat, from: nat, bytes: int, out: array<Pixel>, at: nat)
      returns (k: nat, nbytes: int)
      requires Valid() && Sideways(v.rotation) && started && swathStart >= 0
      requires startRow + numRows <= v.imageHeight && at + numRows * v.PageWidth() <= out.Length
      requires from < numRows && swathStart <= startRow + v.rowOffset + from < swathStart + rowsCached
      requires bytes == 3 * (from * v.PageWidth())
      requires v.Decodable() ==> Centers(v, out[..], at, startRow, from)
      modifies out
      ensures from < k <= numRows
      ensures nbytes == 3 * (k * v.PageWidth())
      ensures v.Decodable() ==> Centers(v, out[..], at, startRow, k)
      ensures SameOutside(out[..], old(out[..]), at, at + numRows * v.PageWidth())
    {
      k, nbytes := from, bytes;
      while k < numRows && startRow + v.rowOffset + k < v.sw && startRow + v.rowOffset + k < swathStart + rowsCached
        invariant from <= k <= numRows
        invariant nbytes == 3 * (k * v.PageWidth())
        invariant v.Decodable() ==> Centers(v, out[..], at, startRow, k)
        invariant SameOutside(out[..], old(out[..]), at, at + numRows * v.PageWidth())
      {
        var y := startRow + v.rowOffset + k;
        var data := CacheRow(y - swathStart);
        if v.Decodable() {
          RowIs(v, startRow + k, data);
        }
        PlaceRow(v, out, at, startRow, k, numRows, data, v.Decodable());
        NextMultiple(k, v.PageWidth());
        nbytes := nbytes + 3 * v.PageWidth();
        k := k + 1;
      }
    }

    /** `_decode_stripe`, by rotation. */
    method DecodeRows(startRow: nat, numRows: nat, out: array<Pixel>, at: nat) returns (nbytes: int)
      requires Valid()
      requires 3 * v.sw <= MIN_DECODE_MEM && 3 * v.sh <= MIN_DECODE_MEM
      requires startRow + numRows <= v.imageHeight && at + numRows * v.PageWidth() <= out.Length
      modifies this`started, this`rowsCached, this`cache, this`swathStart, cache, out
      ensures Valid() && (cache == old(cache) || fresh(cache))
      ensures SameOutside(out[..], old(out[..]), at, at + numRows * v.PageWidth())
      ensures nbytes == ERROR || nbytes == 3 * (numRows * v.PageWidth())
      ensures v.Decodable() ==> nbytes != ERROR && Centers(v, out[..], at, startRow, numRows)
    {
      if Sideways(v.rotation) {
        nbytes := DecodeSideways(startRow, numRows, out, at);
      } else {
        nbytes := DecodeUpright(startRow, numRows, out, at);
      }
    }

    /** The rows of a request that the page has. */
    function Granted(startRow: int, height: nat): (h: nat)
      requires v.Valid()
      ensures h <= height && (0 <= startRow < v.PageHeight() ==> startRow + h <= v.PageHeight())
    {
      if 0 <= startRow < v.PageHeight() then Min(height, v.PageHeight() - startRow) else 0
    }

    /** The request starts below the image and asks for more rows than are left. */
    predicate BeyondBottom(startRow: int, height: nat)
      requires v.Valid()
    {
      v.padTop + v.imageHeight <= startRow < v.PageHeight() < startRow + height
    }

    /** `wprint_image_decode_stripe` without scaling.  A request that starts outside the page fails and
        writes nothing; a request inside it returns exactly its rows of the reference page, as far as the page
        has them.  One that starts below the image and goes beyond the page asks `_decode_stripe` for a negative
        number of rows from the end of the page on.  The sideways loops copy none, nor do the upright ones if the
        rotated image does not reach that far, and the result is 0 bytes; otherwise the upright loops would copy the
        rows left there. */
    method DecodeStripe(startRow: int, height: nat, out: array<Pixel>, at: nat)
      returns (nbytes: int, rowsOut: nat)
      requires Valid()
      requires 3 * v.sw <= MIN_DECODE_MEM && 3 * v.sh <= MIN_DECODE_MEM
      requires BeyondBottom(startRow, height) && !Sideways(v.rotation) ==>
                 v.RotH() <= v.rowOffset + v.imageHeight + v.padBottom
      requires at + Granted(startRow, height) * v.PageWidth() <= out.Length
      modifies this`started, this`rowsCached, this`cache, this`swathStart, cache, out
      ensures Valid() && (cache == old(cache) || fresh(cache))
      ensures SameOutside(out[..], old(out[..]), at, at + Granted(startRow, height) * v.PageWidth())
      ensures !(0 <= startRow < v.PageHeight()) ==> nbytes == ERROR && rowsOut == 0 && out[..] == old(out[..])
      ensures 0 <= startRow < v.PageHeight() && v.Decodable() ==>
                var h := Granted(startRow, height);
                && nbytes == (if BeyondBottom(startRow, height) then 0 else 3 * (h * v.PageWidth()))
                && rowsOut == h && Segment(v, out[..], at, startRow, h)
      ensures 0 <= startRow < v.PageHeight() && nbytes == ERROR ==> rowsOut == Min(height, Max(0, v.padTop - startRow))
    {
      hide Segment, SameOutside;
      var w := v.PageWidth();
      rowsOut := 0;
      ghost var h := Granted(startRow, height);
      NothingWritten(out[..], at, h * w);
      if startRow < 0 || startRow >= v.PageHeight() {
        return ERROR, 0;
      }
      var start: nat, numRows := startRow, height;
      if start < v.padTop {
        rowsOut := if numRows < v.padTop - start then numRows else v.padTop - start;
      } else if start >= v.padTop + v.imageHeight {
        rowsOut := if numRows < v.PageHeight() - start then numRows else v.PageHeight() - start;
      }
      SplitProduct(rowsOut, h - rowsOut, w);
      BlankRows(v, out, at, start, rowsOut);
      ghost var blank, blankSize := out[..], rowsOut * w;
      OutsideWider(blank, old(out[..]), at, at + blankSize, at, at + h * w);
      nbytes := 3 * (rowsOut * w);
      if rowsOut < height {
        if start >= v.padTop + v.imageHeight {
          return 0, rowsOut;
        }
        nbytes, rowsOut := DecodeBody(start, rowsOut, Min(height, v.PageHeight() - start), out, at);
        OutsideChain(out[..], blank, old(out[..]), at, at + h * w);
      }
    }

    /** The image rows of a request, with their left and right edges. */
    method DecodeImage(first: nat, n: nat, out: array<Pixel>, q: nat) returns (nbytes: int, rows: nat)
      requires Valid() && n > 0 && first + n <= v.imageHeight
      requires 3 * v.sw <= MIN_DECODE_MEM && 3 * v.sh <= MIN_DECODE_MEM
      requires q + n * v.PageWidth() <= out.Length
      modifies this`started, this`rowsCached, this`cache, this`swathStart, cache, out
      ensures Valid() && (cache == old(cache) || fresh(cache))
      ensures SameOutside(out[..], old(out[..]), q, q + n * v.PageWidth())
      ensures nbytes == ERROR || rows == n
      ensures v.Decodable() ==> nbytes != ERROR && Segment(v, out[..], q, v.padTop + first, n)
    {
      nbytes := DecodeRows(first, n, out, q);
      DivideBytes(n, v.PageWidth());
      if nbytes <= 0 {
        return nbytes, 0;
      }
      rows := nbytes / (3 * v.PageWidth());
      WhitenEdges(v, out, q, first, n, v.Decodable());
    }

    /** From the first image row of the request on: `done` rows of it are blank rows already written. */
    method DecodeBody(start: nat, done: nat, height: nat, out: array<Pixel>, at: nat)
      returns (nbytes: int, rowsOut: nat)
      requires Valid() && done < height && start + height <= v.PageHeight()
      requires v.padTop <= start + done < v.padTop + v.imageHeight
      requires 3 * v.sw <= MIN_DECODE_MEM && 3 * v.sh <= MIN_DECODE_MEM
      requires at + height * v.PageWidth() <= out.Length
      requires Segment(v, out[..], at, start, done)
      modifies this`started, this`rowsCached, this`cache, this`swathStart, cache, out
      ensures Valid() && (cache == old(cache) || fresh(cache))
      ensures SameOutside(out[..], old(out[..]), at, at + height * v.PageWidth())
      ensures v.Decodable() ==>
                && nbytes == 3 * (height * v.PageWidth()) && rowsOut == height
                && Segment(v, out[..], at, start, height)
      ensures nbytes == ERROR ==> rowsOut == done
    {
      hide Segment, SameOutside;
      var w := v.PageWidth();
      var first := start + done - v.padTop;
      var n := if first + (height - done) > v.imageHeight then v.imageHeight - first else height - done;
      var a, b, c := done * w, (done + n) * w, height * w;
      StripeExtents(done, n, height, w);
      var rows;
      nbytes, rows := DecodeImage(first, n, out, at + a);
      if nbytes == ERROR {
        OutsideWider(out[..], old(out[..]), at + a, at + b, at, at + c);
        return nbytes, done;
      }
      rowsOut := done + rows;
      ghost var middle := out[..];
      BlankRows(v, out, at + b, start + rowsOut, height - rowsOut);
      OutsideTwice(out[..], middle, old(out[..]), at, a, b, c);
      if v.Decodable() {
        ThreeParts(v, out[..], middle, old(out[..]), at, start, done, n, height, a, b, c);
      }
      rowsOut := height;
      nbytes := 3 * c;
    }
  }

  lemma NothingWritten(s: seq<Pixel>, at: nat, n: nat)
    requires at + n <= |s|
    ensures SameOutside(s, s, at, at + n)
  {
  }

  lemma OutsideChain(s2: seq<Pixel>, s1: seq<Pixel>, s0: seq<Pixel>, from: nat, to: nat)
    requires SameOutside(s1, s0, from, to) && SameOutside(s2, s1, from, to)
    ensures SameOutside(s2, s0, from, to)
  {
  }

  lemma OutsideWider(now: seq<Pixel>, before: seq<Pixel>, from: nat, to: nat, from': nat, to': nat)
    requires SameOutside(now, before, from, to) && from' <= from && to <= to' <= |now|
    ensures SameOutside(now, before, from', to')
  {
    assert now[..from'] == now[..from][..from'] && before[..from'] == before[..from][..from'];
    assert now[to'..] == now[to..][to' - to..] && before[to'..] == before[to..][to' - to..];
  }

  lemma OutsideTwice(s2: seq<Pixel>, s1: seq<Pixel>, s0: seq<Pixel>, at: nat, a: nat, b: nat, c: nat)
    requires a <= b <= c
    requires SameOutside(s1, s0, at + a, at + b) && SameOutside(s2, s1, at + b, at + c)
    ensures SameOutside(s2, s0, at, at + c)
  {
    assert s1[..at] == s1[..at + a][..at] && s0[..at] == s0[..at + a][..at];
    assert s2[..at] == s2[..at + b][..at] && s1[..at] == s1[..at + b][..at];
    assert s1[at + c..] == s1[at + b..][c - b..] && s0[at + c..] == s0[at + b..][c - b..];
  }

  /** Blank rows, image rows and blank rows again make up the requested segment. */
  lemma ThreeParts(v: View, s2: seq<Pixel>, s1: seq<Pixel>, s0: seq<Pixel>, at: nat, start: nat,
                   done: nat, n: nat, height: nat, a: nat, b: nat, c: nat)
    requires v.Valid() && done + n <= height && n > 0 && start + height <= v.PageHeight()
    requires a == done * v.PageWidth() && b == (done + n) * v.PageWidth() && c == height * v.PageWidth()
    requires Segment(v, s0, at, start, done)
    requires SameOutside(s1, s0, at + a, at + b) && Segment(v, s1, at + a, start + done, n)
    requires SameOutside(s2, s1, at + b, at + c) && Segment(v, s2, at + b, start + (done + n), height - (done + n))
    ensures Segment(v, s2, at, start, height)
  {
    hide Segment, SameOutside;
    SegmentKept(v, s1, s0, at, start, done, at + a, at + b);
    SegmentsJoin(v, s1, at, start, done, n);
    SegmentKept(v, s2, s1, at, start, done + n, at + b, at + c);
    SegmentsJoin(v, s2, at, start, done + n, height - (done + n));
  }

  /** Where the three parts of a stripe end. */
  lemma StripeExtents(done: nat, n: nat, height: nat, w: nat)
    requires done + n <= height && n > 0 && w > 0
    ensures done * w >= 0 && done * w + n * w == (done + n) * w <= height * w
    ensures (done + n) * w + (height - (done + n)) * w == height * w
    ensures n * w > 0
  {
  }

  lemma DivideBytes(n: nat, w: nat)
    requires w > 0
    ensures 3 * (n * w) / (3 * w) == n && (n > 0 ==> n * w > 0)
  {
    assert 3 * (n * w) == n * (3 * w);
    DivMul(n, 3 * w, 0);
  }

  /** Cells q.. of the buffer are n page rows from `start` on. */
  ghost predicate Segment(v: View, s: seq<Pixel>, q: nat, start: nat, n: nat)
    requires v.Valid()
  {
    && start + n <= v.PageHeight() && q + n * v.PageWidth() <= |s|
    && s[q..q + n * v.PageWidth()] == Flatten(v.Page()[start..start + n])
  }

  /** Whitening both edges of row k keeps the image cells of every row and all of every other row. */
  lemma EdgesKeep(v: View, s0: seq<Pixel>, s1: seq<Pixel>, s2: seq<Pixel>, q: nat, k: nat, j: nat)
    requires v.Valid()
    requires Written(s1, s0, q + k * v.PageWidth(), White(v.padLeft))
    requires Written(s2, s1, q + k * v.PageWidth() + (v.PageWidth() - v.padRight), White(v.padRight))
    ensures Part(s2, q, j, v.PageWidth(), v.padLeft, v.ow) == Part(s0, q, j, v.PageWidth(), v.padLeft, v.ow)
    ensures j != k ==> Part(s2, q, j, v.PageWidth(), 0, v.PageWidth()) == Part(s0, q, j, v.PageWidth(), 0, v.PageWidth())
  {
    var w := v.PageWidth();
    PartKept(s1, s0, q, k, w, 0, White(v.padLeft), j, v.padLeft, v.ow);
    PartKept(s2, s1, q, k, w, w - v.padRight, White(v.padRight), j, v.padLeft, v.ow);
    if j != k {
      PartKept(s1, s0, q, k, w, 0, White(v.padLeft), j, 0, w);
      PartKept(s2, s1, q, k, w, w - v.padRight, White(v.padRight), j, 0, w);
    }
  }

  /** ... and makes row k a row of the reference page. */
  lemma EdgesSet(v: View, s0: seq<Pixel>, s1: seq<Pixel>, s2: seq<Pixel>, q: nat, k: nat, first: nat)
    requires v.Valid() && first + k < v.imageHeight && q + k * v.PageWidth() + v.PageWidth() <= |s0|
    requires Written(s1, s0, q + k * v.PageWidth(), White(v.padLeft))
    requires Written(s2, s1, q + k * v.PageWidth() + (v.PageWidth() - v.padRight), White(v.padRight))
    requires Part(s0, q, k, v.PageWidth(), v.padLeft, v.ow) == v.ImageRow(first + k)
    ensures Part(s2, q, k, v.PageWidth(), 0, v.PageWidth()) == v.PageRow(v.padTop + first + k)
  {
    var w := v.PageWidth();
    EdgesKeep(v, s0, s1, s2, q, k, k);
    PartSet(s1, s0, q, k, w, 0, White(v.padLeft));
    PartKept(s2, s1, q, k, w, w - v.padRight, White(v.padRight), k, 0, v.padLeft);
    PartSet(s2, s1, q, k, w, w - v.padRight, White(v.padRight));
    JoinParts(s2, q, k, w, v.padLeft, v.ow, v.padRight);
  }

  lemma EdgesDone(v: View, s0: seq<Pixel>, s1: seq<Pixel>, s2: seq<Pixel>, q: nat, first: nat, n: nat, k: nat)
    requires v.Valid() && k < n && first + n <= v.imageHeight && q + n * v.PageWidth() <= |s0|
    requires Written(s1, s0, q + k * v.PageWidth(), White(v.padLeft))
    requires Written(s2, s1, q + k * v.PageWidth() + (v.PageWidth() - v.padRight), White(v.padRight))
    requires Centers(v, s0, q, first, n) && Finished(v, s0, q, first, k)
    ensures Centers(v, s2, q, first, n) && Finished(v, s2, q, first, k + 1)
  {
    var w := v.PageWidth();
    RowStart(k, n, w);
    NatProduct(k, w);
    forall j: nat | j < n
      ensures Part(s2, q, j, w, v.padLeft, v.ow) == v.ImageRow(first + j)
      ensures j < k ==> Part(s2, q, j, w, 0, w) == Part(s0, q, j, w, 0, w)
    {
      EdgesKeep(v, s0, s1, s2, q, k, j);
    }
    EdgesSet(v, s0, s1, s2, q, k, first);
  }

  lemma EdgesOutside(s0: seq<Pixel>, s1: seq<Pixel>, s2: seq<Pixel>, q: nat, kw: nat, w: nat, nw: nat,
                     left: seq<Pixel>, right: seq<Pixel>)
    requires kw + w <= nw && q + nw <= |s0| && |left| + |right| <= w
    requires Written(s1, s0, q + kw, left) && Written(s2, s1, q + kw + (w - |right|), right)
    ensures SameOutside(s2, s0, q, q + nw)
  {
    WrittenOutside(s1, s0, q + kw, left, q, q + nw);
    WrittenOutside(s2, s1, q + kw + (w - |right|), right, q, q + nw);
  }

  lemma PartOfWhite(s: seq<Pixel>, q: nat, n: nat, w: nat, k: nat)
    requires k < n && q + n * w <= |s| && s[q..q + n * w] == White(n * w)
    ensures Part(s, q, k, w, 0, w) == White(w)
  {
    RowStart(k, n, w);
    NatProduct(k, w);
    SubSlice(s, q, n * w, k * w, w);
    assert White(n * w)[k * w..k * w + w] == White(w);
  }

  lemma BlankWritten(v: View, now: seq<Pixel>, before: seq<Pixel>, q: nat, start: nat, n: nat)
    requires v.Valid() && start + n <= v.PageHeight()
    requires n == 0 || start + n <= v.padTop || v.padTop + v.imageHeight <= start
    requires q + n * v.PageWidth() <= |before|
    requires Written(now, before, q, White(n * v.PageWidth()))
    ensures Segment(v, now, q, start, n)
    ensures SameOutside(now, before, q, q + n * v.PageWidth())
  {
    NatProduct(n, v.PageWidth());
    WrittenOutside(now, before, q, White(n * v.PageWidth()), q, q + n * v.PageWidth());
    WhiteSegment(v, now, q, start, n);
  }

  lemma WhiteSegment(v: View, s: seq<Pixel>, q: nat, start: nat, n: nat)
    requires v.Valid() && start + n <= v.PageHeight() && q + n * v.PageWidth() <= |s|
    requires n == 0 || start + n <= v.padTop || v.padTop + v.imageHeight <= start
    requires s[q..q + n * v.PageWidth()] == White(n * v.PageWidth())
    ensures Segment(v, s, q, start, n)
  {
    var rows := v.Page()[start..start + n];
    forall k: nat | k < n
      ensures Part(s, q, k, v.PageWidth(), 0, v.PageWidth()) == rows[k]
    {
      PartOfWhite(s, q, n, v.PageWidth(), k);
      assert rows[k] == v.PageRow(start + k);
    }
    FlattenFromParts(s, q, v.PageWidth(), rows);
  }

  lemma FinishedSegment(v: View, s: seq<Pixel>, q: nat, first: nat, n: nat)
    requires v.Valid() && first + n <= v.imageHeight && q + n * v.PageWidth() <= |s|
    requires Finished(v, s, q, first, n)
    ensures Segment(v, s, q, v.padTop + first, n)
  {
    var rows := v.Page()[v.padTop + first..v.padTop + first + n];
    forall j: nat | j < n
      ensures Part(s, q, j, v.PageWidth(), 0, v.PageWidth()) == rows[j]
    {
      assert rows[j] == v.PageRow(v.padTop + first + j);
    }
    FlattenFromParts(s, q, v.PageWidth(), rows);
  }

  lemma SplitSlice(s: seq<Pixel>, q: nat, aw: nat, bw: nat)
    requires q + aw + bw <= |s|
    ensures s[q..q + (aw + bw)] == s[q..q + aw] + s[q + aw..q + aw + bw]
  {
  }

  /** Two parts of a buffer, aw and bw cells long, that hold consecutive rows. */
  lemma PartsJoin(s: seq<Pixel>, q: nat, aw: nat, bw: nat, p: seq<seq<Pixel>>, start: nat, a: nat, b: nat)
    requires start + a + b <= |p| && q + aw + bw <= |s|
    requires s[q..q + aw] == Flatten(p[start..start + a])
    requires s[q + aw..q + aw + bw] == Flatten(p[start + a..start + a + b])
    ensures s[q..q + (aw + bw)] == Flatten(p[start..start + (a + b)])
  {
    hide Flatten;
    FlattenConcat(p[start..start + a], p[start + a..start + a + b]);
    assert p[start..start + (a + b)] == p[start..start + a] + p[start + a..start + a + b];
    SplitSlice(s, q, aw, bw);
  }

  lemma SegmentsJoin(v: View, s: seq<Pixel>, q: nat, start: nat, a: nat, b: nat)
    requires v.Valid() && start + a + b <= v.PageHeight() && a * v.PageWidth() >= 0
    requires Segment(v, s, q, start, a) && Segment(v, s, q + a * v.PageWidth(), start + a, b)
    ensures Segment(v, s, q, start, a + b)
  {
    hide Flatten, View.Page;
    var w := v.PageWidth();
    NatProduct(a, w);
    NatProduct(b, w);
    SplitProduct(a, b, w);
    PartsJoin(s, q, a * w, b * w, v.Page(), start, a, b);
  }

  lemma SegmentKept(v: View, now: seq<Pixel>, before: seq<Pixel>, q: nat, start: nat, n: nat, from: nat, to: nat)
    requires v.Valid() && Segment(v, before, q, start, n)
    requires SameOutside(now, before, from, to) && q + n * v.PageWidth() <= from
    ensures Segment(v, now, q, start, n)
  {
    hide Flatten;
    var e := q + n * v.PageWidth();
    NatProduct(n, v.PageWidth());
    assert now[q..e] == now[..from][q..e] && before[q..e] == before[..from][q..e];
  }

  lemma JoinParts(s: seq<Pixel>, at: nat, k: nat, w: nat, a: nat, b: nat, c: nat)
    requires w == a + b + c && at + k * w + w <= |s|
    ensures Part(s, at, k, w, 0, w) == Part(s, at, k, w, 0, a) + Part(s, at, k, w, a, b) + Part(s, at, k, w, a + b, c)
  {
    hide Part;
    NatProduct(k, w);
    PartIs(s, at, k, w, 0, w);
    PartIs(s, at, k, w, 0, a);
    PartIs(s, at, k, w, a, b);
    PartIs(s, at, k, w, a + b, c);
    JoinSlices(s, at + k * w, a, b, c);
  }

  lemma PartIs(s: seq<Pixel>, at: nat, k: nat, w: nat, from: nat, n: nat)
    requires k * w >= 0 && at + k * w + from + n <= |s|
    ensures Part(s, at, k, w, from, n) == s[at + k * w + from..at + k * w + from + n]
  {
  }

  lemma JoinSlices(s: seq<Pixel>, q: nat, a: nat, b: nat, c: nat)
    requires q + (a + b + c) <= |s|
    ensures s[q + 0..q + 0 + (a + b + c)] == s[q + 0..q + 0 + a] + s[q + a..q + a + b] + s[q + (a + b)..q + (a + b) + c]
  {
  }

  /** A row of the right pixels is the reference row. */
  lemma RowIs(v: View, k: nat, data: seq<Pixel>)
    requires v.Valid() && k < v.imageHeight && |data| == v.ow
    requires forall x: nat | x < v.ow :: data[x] == v.Rotated(v.rowOffset + k, v.colOffset + x)
    ensures data == v.ImageRow(k)
  {
  }

  lemma WrittenOutside(now: seq<Pixel>, before: seq<Pixel>, q: nat, data: seq<Pixel>, from: nat, to: nat)
    requires Written(now, before, q, data) && from <= q && q + |data| <= to <= |before|
    ensures SameOutside(now, before, from, to)
  {
  }

  /** As many rows as fit, in groups of sixteen. */
  lemma SixteenFit(available: nat, width: nat)
    requires 0 < width <= available
    ensures var m := available / width;
            && m >= 1 && m * width <= available < (m + 1) * width
            && (m > 15 ==> (m - m % 16) % 16 == 0 && m - m % 16 >= 16
                           && (m - m % 16) * width <= available < (m - m % 16 + 16) * width)
  {
    var m := available / width;
    assert available == m * width + available % width;
    assert (m + 1) * width == m * width + width;
    RowsOrder(m - m % 16, m, width);
    RowsOrder(m + 1, m - m % 16 + 16, width);
  }

  lemma FewerFit(m: nat, cap: nat, width: nat)
    ensures m > cap ==> cap * width <= m * width
  {
    if m > cap {
      RowsOrder(cap, m, width);
    }
  }

  lemma SwathContains(row: nat, size: nat)
    requires size >= 1
    ensures 0 <= row / size * size <= row < row / size * size + size
  {
    assert row == row / size * size + row % size;
  }

  // ----- whole pages -----

  /** The view a placed, unscaled image gives rise to, with the padding its options select. */
  ghost function ViewOf(g: Geometry, rows: seq<seq<Pixel>>): View
    reads g
  {
    View(g.rotation, rows, g.sampledWidth, g.sampledHeight, g.rowOffset, g.colOffset,
         g.outputWidth, Min(g.scaledHeight, g.printableHeight),
         if g.options.top then g.padTop else 0, if g.options.left then g.padLeft else 0,
         if g.options.right then g.padRight else 0, if g.options.bottom then g.padBottom else 0)
  }

  /** Geometry set up by `SetOutputProperties` satisfies what the decoder needs, and the decoder's page has
      the size that the geometry reports. */
  lemma GeometryGivesView(g: Geometry, rows: seq<seq<Pixel>>)
    requires !g.scalingNeeded && !g.flags.autoScale && !g.flags.autoFit && g.WindowInImage()
    requires g.sampledWidth >= 1 && |rows| == g.sampledHeight >= 1
    requires forall y | 0 <= y < |rows| :: |rows[y]| == g.sampledWidth || |rows[y]| == 0
    requires g.printableWidth >= 1 && g.printableHeight >= 1
    ensures var v := ViewOf(g, rows);
            v.Valid() && v.PageWidth() == g.GetWidth(g.options) && v.PageHeight() == g.GetHeight(g.options)
  {
  }

  /** Where a pixel comes when the picture is turned clockwise by quarters: the left edge becomes the upper one. */
  ghost function Landing(v: View, y: nat, x: nat, quarters: nat): (int, int) {
    if quarters == 0 then (y, x)
    else
      var (r, c) := Landing(v, y, x, quarters - 1);
      (c, (if quarters % 2 == 1 then v.sh else v.sw) - 1 - r)
  }

  /** Pixel (y, x) of the picture stands on the page where it comes when the picture is turned, moved by padding and
      cropping, if it is not cropped. */
  ghost predicate PixelShown(v: View, out: seq<Pixel>, y: nat, x: nat)
    requires v.Valid() && v.Decodable() && y < v.sh && x < v.sw
  {
    var (r, c) := Landing(v, y, x, Quarters(v.rotation));
    v.rowOffset <= r < v.rowOffset + v.imageHeight && v.colOffset <= c < v.colOffset + v.ow ==>
      var i := (v.padTop + r - v.rowOffset) * v.PageWidth() + v.padLeft + c - v.colOffset;
      0 <= i < |out| && out[i] == v.rows[y][x]
  }

  /** Cell x of page row y is white, if it is none of the picture's. */
  ghost predicate WhiteBeside(v: View, out: seq<Pixel>, y: nat, x: nat)
    requires v.Valid()
  {
    y < v.PageHeight() && x < v.PageWidth()
    && !(v.padTop <= y < v.padTop + v.imageHeight && v.padLeft <= x < v.padLeft + v.ow) ==>
      0 <= y * v.PageWidth() + x < |out| && out[y * v.PageWidth() + x] == 0xff_ffff
  }

  lemma {:induction false} FlatAt(rows: seq<seq<Pixel>>, w: nat, y: nat, x: nat)
    requires Uniform(rows, w) && y < |rows| && x < w
    ensures 0 <= y * w + x < |Flatten(rows)| == |rows| * w && Flatten(rows)[y * w + x] == rows[y][x]
  {
    FlatLength(rows, w);
    RowStart(y, |rows|, w);
    NatProduct(y, w);
    var n := |rows| - 1;
    FlatLength(rows[..n], w);
    if y < n {
      FlatAt(rows[..n], w, y, x);
    }
  }

  lemma {:induction false} FlatLength(rows: seq<seq<Pixel>>, w: nat)
    requires Uniform(rows, w)
    ensures |Flatten(rows)| == |rows| * w
  {
    if rows != [] {
      FlatLength(rows[..|rows| - 1], w);
      NextMultiple(|rows| - 1, w);
    }
  }

  /** On the reference page every pixel that is not cropped stands where turning the picture brings it. */
  lemma PageShowsPixel(v: View, y: nat, x: nat)
    requires v.Valid() && v.Decodable() && y < v.sh && x < v.sw
    ensures PixelShown(v, Flatten(v.Page()), y, x)
  {
    var (r, c) := Landing(v, y, x, Quarters(v.rotation));
    LandingMeans(v, y, x);
    if v.rowOffset <= r < v.rowOffset + v.imageHeight && v.colOffset <= c < v.colOffset + v.ow {
      assert v.Rotated(r, c) == v.rows[y][x];
      var row, col := v.padTop + r - v.rowOffset, v.padLeft + c - v.colOffset;
      assert v.PageRow(row)[col] == v.ImageRow(r - v.rowOffset)[c - v.colOffset];
      FlatAt(v.Page(), v.PageWidth(), row, col);
    }
  }

  lemma LandingMeans(v: View, y: nat, x: nat)
    ensures Landing(v, y, x, Quarters(v.rotation)) ==
            match v.rotation
            case Rot0 => (y, x)
            case Rot90 => (x, v.sh - 1 - y)
            case Rot180 => (v.sh - 1 - y, v.sw - 1 - x)
            case Rot270 => (v.sw - 1 - x, y)
  {
    assert Landing(v, y, x, 1) == (x, v.sh - 1 - y);
    assert Landing(v, y, x, 2) == (v.sh - 1 - y, v.sw - 1 - x);
    assert Landing(v, y, x, 3) == (v.sw - 1 - x, v.sh - 1 - (v.sh - 1 - y));
  }

  lemma PageIsWhiteBeside(v: View, y: nat, x: nat)
    requires v.Valid()
    ensures WhiteBeside(v, Flatten(v.Page()), y, x)
  {
    if y < v.PageHeight() && x < v.PageWidth() {
      FlatAt(v.Page(), v.PageWidth(), y, x);
      assert v.Page()[y] == v.PageRow(y);
    }
  }

  function Sum(heights: seq<nat>): nat {
    if heights == [] then 0 else Sum(heights[..|heights| - 1]) + heights[|heights| - 1]
  }

  lemma {:induction false} SumPrefix(heights: seq<nat>, i: nat)
    requires i <= |heights|
    ensures Sum(heights[..i]) <= Sum(heights)
  {
    if i < |heights| {
      var shorter := heights[..|heights| - 1];
      SumPrefix(shorter, i);
      assert shorter[..i] == heights[..i];
    } else {
      assert heights[..i] == heights;
    }
  }

  /** One more stripe of a page whose first rows are in place. */
  method NextStripe(d: StripeDecoder, row: nat, n: nat, out: array<Pixel>) returns (ok: bool)
    requires d.Valid() && d.v.Decodable()
    requires 3 * d.v.sw <= MIN_DECODE_MEM && 3 * d.v.sh <= MIN_DECODE_MEM
    requires n > 0 && row + n <= d.v.PageHeight()
    requires out.Length == d.v.PageHeight() * d.v.PageWidth()
    requires Segment(d.v, out[..], 0, 0, row)
    modifies d, d.cache, out
    ensures ok && d.Valid() && (d.cache == old(d.cache) || fresh(d.cache))
    ensures Segment(d.v, out[..], 0, 0, row + n)
  {
    var w := d.v.PageWidth();
    RowsFit(row, n, d.v.PageHeight(), w);
    ghost var before := out[..];
    var nbytes, rowsOut := d.DecodeStripe(row, n, out, row * w);
    SegmentKept(d.v, out[..], before, 0, 0, row, row * w, row * w + n * w);
    SegmentsJoin(d.v, out[..], 0, 0, row, n);
    ok := nbytes >= 0 && rowsOut == n;
    NatProduct(n, w);
  }

  /** However a page is cut into stripes, the stripes put together are the reference page: every pixel of the picture
      that is not cropped stands where turning the picture brings it, and everything around is white. */
  method DecodePage(d: StripeDecoder, heights: seq<nat>, out: array<Pixel>) returns (ok: bool)
    requires d.Valid() && d.v.Decodable()
    requires 3 * d.v.sw <= MIN_DECODE_MEM && 3 * d.v.sh <= MIN_DECODE_MEM
    requires Sum(heights) == d.v.PageHeight()
    requires forall i | 0 <= i < |heights| :: heights[i] > 0
    requires out.Length == d.v.PageHeight() * d.v.PageWidth()
    modifies d, d.cache, out
    ensures ok && out[..] == Flatten(d.v.Page())
    ensures forall y: nat, x: nat | y < d.v.sh && x < d.v.sw :: PixelShown(d.v, out[..], y, x)
    ensures forall y: nat, x: nat :: WhiteBeside(d.v, out[..], y, x)
  {
    ok := true;
    var i, row := 0, 0;
    assert heights[..0] == [];
    while i < |heights|
      invariant 0 <= i <= |heights| && row == Sum(heights[..i])
      invariant ok && d.Valid() && (d.cache == old(d.cache) || fresh(d.cache))
      invariant Segment(d.v, out[..], 0, 0, row)
    {
      var n := heights[i];
      SumPrefix(heights, i + 1);
      assert heights[..i + 1][..i] == heights[..i];
      ok := NextStripe(d, row, n, out);
      row := row + n;
      i := i + 1;
    }
    assert heights[..i] == heights;
    assert d.v.Page()[0..row] == d.v.Page();
    assert out[0..out.Length] == out[..];
    forall y: nat, x: nat | y < d.v.sh && x < d.v.sw
      ensures PixelShown(d.v, out[..], y, x)
    {
      PageShowsPixel(d.v, y, x);
    }
    forall y: nat, x: nat
      ensures WhiteBeside(d.v, out[..], y, x)
    {
      PageIsWhiteBeside(d.v, y, x);
    }
  }

  lemma RowsFit(row: nat, n: nat, height: nat, w: nat)
    requires row + n <= height
    ensures row * w >= 0 && row * w + n * w <= height * w
  {
    SplitProduct(row, n, w);
    RowsOrder(row + n, height, w);
  }

  lemma RowsOrder(a: nat, b: nat, w: nat)
    requires a <= b
    ensures a * w <= b * w
  {
  }
}
