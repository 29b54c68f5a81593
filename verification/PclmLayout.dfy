/** Where a page's strips go: how many there are, how high each is, and the content stream that places
    them. */
module PclmLayout {
  import opened Common
  import opened FixedPoint
  import opened PdfText
  import opened PclmTexts
  import opened PclmStreams

  datatype PageSetup = PageSetup(sourceHeight: nat, pixelWidth: nat, mediaWidth: nat, mediaHeight: nat,
                                 resolution: Resolution, topMargin: nat, stripHeight: nat, color: ColorSpace,
                                 filter: Compression, longEdge: bool, mirrorBackside: bool)
  {
    /** The margin is cut into strips, so there has to be a strip height to cut it by. */
    predicate Printable() { StripHeight() > 0 || Margin() == 0 }

    /** The strip height in force: the whole page when none is asked for. */
    function StripHeight(): nat { if stripHeight == 0 then sourceHeight else stripHeight }

    function StripCount(): nat
      requires Printable()
    {
      if stripHeight == 0 then 1 else Ceil(sourceHeight, stripHeight)
    }

    function Margin(): nat { RoundTo16(topMargin) }

    /** Heights of the blank strips that make up the top margin. */
    function MarginHeights(): seq<nat>
      requires Printable()
    {
      var h, m := StripHeight(), Margin();
      if m == 0 then []
      else if m <= h then [m]
      else Repeated(h, m / h) + (if m % h == 0 then [] else [m % h])
    }

    /** Heights of the strips of the image; the last takes what is left. */
    function SourceHeights(): seq<nat>
      requires Printable()
    {
      StripHeights(sourceHeight, StripHeight(), StripCount())
    }

    function Heights(): seq<nat>
      requires Printable()
    {
      MarginHeights() + SourceHeights()
    }

    /** The placements the page's content stream asks for. */
    function Places(): seq<Place>
      requires Printable()
    {
      Emitted(Anchor(mediaHeight, resolution.Dpi()), Heights(), |MarginHeights()|)
    }
  }

  /** The top margin, rounded to whole blocks of 16 lines. */
  function RoundTo16(n: nat): nat {
    var i := n % 16;
    if i < 8 then n - i else n + (16 - i)
  }

  lemma RoundTo16IsNearest(n: nat, m: nat)
    requires m % 16 == 0
    ensures RoundTo16(n) % 16 == 0
    ensures -8 < RoundTo16(n) - n <= 8
    ensures var d := RoundTo16(n) - n; var e := m - n;
            if d >= 0 then d <= (if e >= 0 then e else -e) else -d <= (if e >= 0 then e else -e)
  {
    var q, p := n / 16, m / 16;
    assert RoundTo16(n) == 16 * q || RoundTo16(n) == 16 * (q + 1);
    assert m == 16 * p && (p <= q || p >= q + 1);
  }

  /** All strips but the last fit below the source height, and the last has between one line and a full
      strip. */
  lemma StripCountIsLeast(n: nat, d: nat)
    requires d > 0
    ensures n <= Ceil(n, d) * d
    ensures n > 0 ==> Ceil(n, d) >= 1 && (Ceil(n, d) - 1) * d < n
    ensures n == 0 ==> Ceil(n, d) == 0
  {
    var q := Ceil(n, d);
    assert n + d - 1 == q * d + (n + d - 1) % d;
    assert (q - 1) * d == q * d - d;
    if n == 0 {
      SmallQuotient(d - 1, d);
    }
  }

  lemma SmallQuotient(a: nat, d: nat)
    requires a < d
    ensures a / d == 0
  {
  }

  /** The page height in pixels, rounded up as the writer does. */
  function Anchor(mediaHeight: nat, resolution: nat): nat {
    (mediaHeight * resolution * 100 + 99 * 72) / 7200
  }

  lemma AnchorIsCeil(mediaHeight: nat, resolution: nat)
    ensures Anchor(mediaHeight, resolution) == Ceil(mediaHeight * resolution, 72)
  {
    NatProduct(mediaHeight, resolution);
    RoundsUp(mediaHeight * resolution);
  }

  lemma RoundsUp(n: nat)
    ensures (n * 100 + 99 * 72) / 7200 == Ceil(n, 72)
  {
  }

  // ----- heights -----

  function Repeated(h: nat, n: nat): (s: seq<nat>) {
    seq(n, _ => h)
  }

  function StripHeights(source: nat, h: nat, n: nat): seq<nat> {
    if n == 0 then []
    else
      NatOrZero(h, n);
      Repeated(h, n - 1) + [if source >= (n - 1) * h then source - (n - 1) * h else 0]
  }

  lemma NatOrZero(h: nat, n: nat)
    requires n > 0
    ensures (n - 1) * h >= 0
  {
  }

  function Total(heights: seq<nat>): nat {
    if heights == [] then 0 else Total(heights[..|heights| - 1]) + heights[|heights| - 1]
  }

  lemma {:induction false} TotalRepeated(h: nat, n: nat)
    ensures Total(Repeated(h, n)) == h * n
  {
    if n > 0 {
      TotalRepeated(h, n - 1);
      assert Repeated(h, n)[..n - 1] == Repeated(h, n - 1);
      assert h * n == h * (n - 1) + h;
    } else {
      assert Repeated(h, n) == [];
    }
  }

  lemma {:induction false} TotalConcat(a: seq<nat>, b: seq<nat>)
    ensures Total(a + b) == Total(a) + Total(b)
  {
    if b == [] {
      assert a + b == a;
    } else {
      TotalConcat(a, b[..|b| - 1]);
      assert (a + b)[..|a + b| - 1] == a + b[..|b| - 1];
    }
  }

  lemma TotalOne(h: nat)
    ensures Total([h]) == h
  {
    assert [h][..0] == [];
  }

  lemma HeightsMean(s: PageSetup)
    requires s.Printable()
    ensures s.Heights() == s.MarginHeights() + s.SourceHeights()
  {
  }

  lemma NothingPlaced(r: Resolution, width: nat)
    ensures Total([]) == 0 && ContentText(r, width, []) == ScaleText(r)
  {
  }

  lemma ClipMeans(p: Place, injected: nat, k: nat, n: nat)
    ensures Clip(p, injected, k, n) == if injected <= k < n - 1 && p.y < 0 then Place(p.height + p.y, 0) else p
  {
  }

  lemma PlacesMean(s: PageSetup)
    requires s.Printable()
    ensures s.Places() == Emitted(Anchor(s.mediaHeight, s.resolution.Dpi()), s.Heights(), |s.MarginHeights()|)
  {
  }

  /** The strips of a page are together as high as its margin and its image. */
  lemma HeightsTotal(s: PageSetup)
    requires s.Printable()
    ensures Total(s.MarginHeights()) == s.Margin()
    ensures Total(s.Heights()) == s.Margin() + s.sourceHeight
  {
    hide *;
    MarginTotal(s);
    SourceTotal(s);
    HeightsMean(s);
    TotalConcat(s.MarginHeights(), s.SourceHeights());
  }

  lemma MarginTotal(s: PageSetup)
    requires s.Printable()
    ensures Total(s.MarginHeights()) == s.Margin()
  {
    hide Repeated, RoundTo16, Total;
    var h, m := s.StripHeight(), s.Margin();
    if m == 0 {
      NothingPlaced(Res300, 0);
    } else if m <= h {
      TotalOne(m);
    } else {
      DividedTotal(h, m);
    }
  }

  lemma DividedTotal(h: nat, m: nat)
    requires h > 0
    ensures Total(Repeated(h, m / h) + (if m % h == 0 then [] else [m % h])) == m
  {
    hide Repeated, Total;
    var n := m / h;
    assert m == h * n + m % h;
    TotalRepeated(h, n);
    if m % h == 0 {
      assert Repeated(h, n) + [] == Repeated(h, n);
    } else {
      TotalOne(m % h);
      TotalConcat(Repeated(h, n), [m % h]);
    }
  }

  lemma SourceTotal(s: PageSetup)
    requires s.Printable()
    ensures Total(s.SourceHeights()) == s.sourceHeight
  {
    var h, n := s.StripHeight(), s.StripCount();
    if s.stripHeight != 0 {
      StripCountIsLeast(s.sourceHeight, h);
    }
    if n > 0 {
      var last := s.SourceHeights()[n - 1];
      assert s.sourceHeight >= (n - 1) * h && last == s.sourceHeight - (n - 1) * h;
      TotalRepeated(h, n - 1);
      TotalOne(last);
      TotalConcat(Repeated(h, n - 1), [last]);
      assert h * (n - 1) == (n - 1) * h;
    }
  }

  // ----- placements -----

  /** Consecutive heights, hung below an anchor. */
  function Tile(anchor: int, heights: seq<nat>): seq<Place> {
    if heights == [] then []
    else
      var n := |heights| - 1;
      Tile(anchor, heights[..n]) + [Place(heights[n], anchor - Total(heights))]
  }

  /** The placements meet without gap or overlap: the first hangs at the anchor, each next one at the lower
      edge of its predecessor, and together they are as high as all strips. */
  lemma {:induction false} TileIsGapless(anchor: int, heights: seq<nat>)
    ensures |Tile(anchor, heights)| == |heights|
    ensures forall k | 0 <= k < |heights| :: Tile(anchor, heights)[k].height == heights[k]
    ensures heights != [] ==> Tile(anchor, heights)[0].y + heights[0] == anchor
    ensures forall k {:trigger heights[k]} | 1 <= k < |heights| ::
              Tile(anchor, heights)[k].y + heights[k] == Tile(anchor, heights)[k - 1].y
    ensures heights != [] ==> Tile(anchor, heights)[|heights| - 1].y == anchor - Total(heights)
  {
    if heights != [] {
      var n := |heights| - 1;
      TileIsGapless(anchor, heights[..n]);
      assert Total(heights[..0]) == 0;
    }
  }

  /** What is emitted for strip k of n, of which the first `injected` are margin: image strips that would
      start below zero are cut off there, except the last one. */
  function Clip(p: Place, injected: nat, k: nat, n: nat): Place {
    if injected <= k < n - 1 && p.y < 0 then Place(p.height + p.y, 0) else p
  }

  function Emitted(anchor: int, heights: seq<nat>, injected: nat): (p: seq<Place>)
    ensures |p| == |heights|
  {
    TileIsGapless(anchor, heights);
    seq(|heights|, k requires 0 <= k < |heights| => Clip(Tile(anchor, heights)[k], injected, k, |heights|))
  }

  lemma {:induction false} TileAt(anchor: int, heights: seq<nat>, k: nat)
    requires k < |heights|
    ensures |Tile(anchor, heights)| == |heights|
    ensures Tile(anchor, heights)[k] == Place(heights[k], anchor - Total(heights[..k + 1]))
  {
    TileIsGapless(anchor, heights);
    if k == |heights| - 1 {
      assert heights[..k + 1] == heights;
    } else {
      TileAt(anchor, heights[..|heights| - 1], k);
      assert heights[..|heights| - 1][..k + 1] == heights[..k + 1];
    }
  }

  lemma TotalStep(heights: seq<nat>, k: nat)
    requires k < |heights|
    ensures Total(heights[..k + 1]) == Total(heights[..k]) + heights[k]
  {
    assert heights[..k + 1][..k] == heights[..k];
  }

  /** How strip k is drawn, in dots: as image k and as wide as the page; its upper edge is the page's height less all
      strips above it; and it is as high as it is, unless it is a strip of the picture, but not the last one, that
      would reach below the page: that one is cut off there. */
  ghost predicate DrawsStrip(s: PageSetup, k: nat, d: Drawn)
    requires s.Printable() && k < |s.Heights()|
  {
    var heights, margin, top := s.Heights(), |s.MarginHeights()|, Ceil(s.mediaHeight * s.resolution.Dpi(), 72);
    && d.image == k && d.width == s.pixelWidth
    && d.y + d.height == top - Total(heights[..k])
    && (if margin <= k < |heights| - 1 && top < Total(heights[..k + 1]) then d.y == 0 else d.height == heights[k])
  }

  /** A content stream draws the page's strips, at 72 points to the inch. */
  ghost predicate PageDraws(s: PageSetup, content: string)
    requires s.Printable()
  {
    var c := ReadContent(content);
    && c.Some? && c.value.scale * s.resolution.Dpi() == 72_000_000
    && |c.value.drawn| == |s.Heights()|
    && forall k | 0 <= k < |s.Heights()| :: DrawsStrip(s, k, c.value.drawn[k])
  }

  lemma PlaceAt(s: PageSetup, k: nat)
    requires s.Printable() && k < |s.Heights()|
    ensures |s.Places()| == |s.Heights()|
    ensures s.Places()[k] == Clip(Place(s.Heights()[k], Anchor(s.mediaHeight, s.resolution.Dpi()) - Total(s.Heights()[..k + 1])),
                                  |s.MarginHeights()|, k, |s.Heights()|)
  {
    hide Tile, Total, Clip, Anchor, PageSetup.Heights, PageSetup.MarginHeights, PageSetup.Printable, Resolution.Dpi;
    TileAt(Anchor(s.mediaHeight, s.resolution.Dpi()), s.Heights(), k);
  }

  lemma StripIsDrawn(s: PageSetup, k: nat)
    requires s.Printable() && k < |s.Heights()| == |s.Places()|
    ensures DrawsStrip(s, k, Drawn(k, s.pixelWidth, s.Places()[k].height, s.Places()[k].y))
  {
    hide Anchor, Total, Ceil, PageSetup.Heights, PageSetup.MarginHeights, PageSetup.Printable, PageSetup.Places,
         Resolution.Dpi, Clip;
    var heights, anchor := s.Heights(), Anchor(s.mediaHeight, s.resolution.Dpi());
    AnchorIsCeil(s.mediaHeight, s.resolution.Dpi());
    PlaceAt(s, k);
    TotalStep(heights, k);
    ClipMeans(Place(heights[k], anchor - Total(heights[..k + 1])), |s.MarginHeights()|, k, |heights|);
  }

  lemma PlacesDraw(s: PageSetup)
    requires s.Printable()
    ensures PageDraws(s, ContentText(s.resolution, s.pixelWidth, s.Places()))
  {
    hide *;
    ContentReads(s.resolution, s.pixelWidth, s.Places());
    PlacesMean(s);
    var drawn := ReadContent(ContentText(s.resolution, s.pixelWidth, s.Places())).value.drawn;
    forall k | 0 <= k < |s.Heights()|
      ensures DrawsStrip(s, k, drawn[k])
    {
      StripIsDrawn(s, k);
    }
    StripsDraw(s, ContentText(s.resolution, s.pixelWidth, s.Places()));
  }

  lemma StripsDraw(s: PageSetup, content: string)
    requires s.Printable() && ReadContent(content).Some?
    requires ReadContent(content).value.scale * s.resolution.Dpi() == 72_000_000
    requires |ReadContent(content).value.drawn| == |s.Heights()|
    requires forall k | 0 <= k < |s.Heights()| :: DrawsStrip(s, k, ReadContent(content).value.drawn[k])
    ensures PageDraws(s, content)
  {
    hide ReadContent, PageSetup.Heights, DrawsStrip, PageSetup.Printable;
  }

  /** One more placement in the stream, hung below the last one. */
  lemma PlaceNext(r: Resolution, width: nat, anchor: int, heights: seq<nat>, injected: nat, k: nat)
    requires k < |heights|
    ensures var y := anchor - Total(heights[..k]) - heights[k];
            var places := Emitted(anchor, heights, injected);
            && anchor - Total(heights[..k + 1]) == y
            && ContentText(r, width, places[..k + 1])
               == ContentText(r, width, places[..k])
                  + PlaceText(width, k, Clip(Place(heights[k], y), injected, k, |heights|))
  {
    hide PlaceText, ScaleText, Tile, Total, Clip;
    var places := Emitted(anchor, heights, injected);
    TileAt(anchor, heights, k);
    TotalStep(heights, k);
    assert places[..k + 1][..k] == places[..k];
  }

  /** The content stream of a page, built a strip at a time while the anchor moves down
      (the second half of `writePDFGrammarPage`). */
  method BuildContent(s: PageSetup, margin: nat, numFull: nat, fullLines: nat, partialLines: nat)
    returns (content: string)
    requires s.Printable()
    requires s.MarginHeights() == Injected(margin, numFull, fullLines, partialLines)
    ensures content == ContentText(s.resolution, s.pixelWidth, s.Places())
    ensures PageDraws(s, content)
  {
    hide *;
    var r, width, anchor := s.resolution, s.pixelWidth, Anchor(s.mediaHeight, s.resolution.Dpi());
    PlacesMean(s);
    PlacesDraw(s);
    ghost var heights := s.Heights();
    ghost var injected := |s.MarginHeights()|;
    ghost var places := Emitted(anchor, heights, injected);
    var start, yAnchor := 0, anchor;
    content := ScaleText(r);
    NothingPlaced(r, width);
    assert places[..0] == [] && heights[..0] == [];
    HeightsMean(s);
    assert forall k | 0 <= k < injected :: heights[k] == Injected(margin, numFull, fullLines, partialLines)[k];
    InjectedAt(margin, numFull, fullLines, partialLines);
    if margin > 0 {
      while start < numFull
        invariant 0 <= start <= numFull && yAnchor == anchor - Total(heights[..start])
        invariant content == ContentText(r, width, places[..start])
      {
        PlaceNext(r, width, anchor, heights, injected, start);
        yAnchor := yAnchor - fullLines;
        content := content + PlaceText(width, start, Place(fullLines, yAnchor));
        MarginIsNotClipped(Place(fullLines, yAnchor), injected, start, |heights|);
        start := start + 1;
      }
      if partialLines > 0 {
        PlaceNext(r, width, anchor, heights, injected, start);
        yAnchor := yAnchor - partialLines;
        content := content + PlaceText(width, start, Place(partialLines, yAnchor));
        MarginIsNotClipped(Place(partialLines, yAnchor), injected, start, |heights|);
        start := start + 1;
      }
    }
    content := PlaceSource(r, width, anchor, s, start, yAnchor, content);
  }

  /** The blank strips of the margin as the fields of the writer describe them. */
  function Injected(margin: nat, numFull: nat, fullLines: nat, partialLines: nat): seq<nat> {
    if margin == 0 then []
    else Repeated(fullLines, numFull) + (if partialLines > 0 then [partialLines] else [])
  }

  lemma InjectedAt(margin: nat, numFull: nat, fullLines: nat, partialLines: nat)
    ensures var i := Injected(margin, numFull, fullLines, partialLines);
            && |i| == (if margin == 0 then 0 else numFull + (if partialLines > 0 then 1 else 0))
            && (margin > 0 ==> forall k | 0 <= k < numFull :: i[k] == fullLines)
            && (margin > 0 && partialLines > 0 ==> i[numFull] == partialLines)
  {
  }

  lemma MarginIsNotClipped(p: Place, injected: nat, k: nat, n: nat)
    requires k < injected
    ensures Clip(p, injected, k, n) == p
  {
  }

  method PlaceSource(r: Resolution, width: nat, anchor: int, s: PageSetup, start: nat, y: int, before: string)
    returns (content: string)
    requires s.Printable() && start == |s.MarginHeights()| <= |s.Heights()|
    requires y == anchor - Total(s.Heights()[..start])
    requires before == ContentText(r, width, Emitted(anchor, s.Heights(), start)[..start])
    ensures content == ContentText(r, width, Emitted(anchor, s.Heights(), start))
  {
    hide *;
    ghost var heights := s.Heights();
    ghost var places := Emitted(anchor, heights, start);
    var numStrips, stripHeight := s.StripCount(), s.StripHeight();
    HeightCount(s);
    var i, yAnchor := start, y;
    content := before;
    while i < numStrips + start
      invariant start <= i <= numStrips + start && yAnchor == anchor - Total(heights[..i])
      invariant content == ContentText(r, width, places[..i])
    {
      PlaceNext(r, width, anchor, heights, start, i);
      HeightAt(s, i - start);
      ClipMeans(Place(heights[i], yAnchor - heights[i]), start, i, |heights|);
      if i == numStrips + start - 1 {
        var numLinesLeft := s.sourceHeight - (numStrips - 1) * stripHeight;
        yAnchor := yAnchor - numLinesLeft;
        content := content + PlaceText(width, i, Place(numLinesLeft, yAnchor));
      } else {
        yAnchor := yAnchor - stripHeight;
        if yAnchor < 0 {
          content := content + PlaceText(width, i, Place(stripHeight + yAnchor, 0));
        } else {
          content := content + PlaceText(width, i, Place(stripHeight, yAnchor));
        }
      }
      i := i + 1;
    }
    assert places[..|places|] == places;
  }

  lemma HeightCount(s: PageSetup)
    requires s.Printable()
    ensures |s.Heights()| == |s.MarginHeights()| + s.StripCount()
  {
  }

  /** The height of image strip k: a full strip, or for the last one what is left of the image. */
  lemma HeightAt(s: PageSetup, k: nat)
    requires s.Printable() && k < s.StripCount()
    ensures |s.Heights()| == |s.MarginHeights()| + s.StripCount()
    ensures s.Heights()[|s.MarginHeights()| + k] ==
            if k == s.StripCount() - 1 then s.sourceHeight - (s.StripCount() - 1) * s.StripHeight()
            else s.StripHeight()
    ensures s.sourceHeight > 0 ==> 0 < s.Heights()[|s.MarginHeights()| + k] <= s.StripHeight()
  {
    hide PageSetup.MarginHeights;
    if s.stripHeight != 0 {
      StripCountIsLeast(s.sourceHeight, s.StripHeight());
      assert (s.StripCount() - 1) * s.StripHeight() == s.StripCount() * s.StripHeight() - s.StripHeight();
    }
  }

  /** The height of margin strip k: a full strip, or what is left of the margin. */
  lemma MarginAt(s: PageSetup, k: nat)
    requires s.Printable() && k < |s.MarginHeights()|
    ensures s.MarginHeights()[k] == Min(s.StripHeight(), s.Margin() - k * s.StripHeight())
  {
    hide RoundTo16;
    var h, m := s.StripHeight(), s.Margin();
    var n := m / h;
    assert m == n * h + m % h;
    if m <= h {
      assert k == 0 && 0 * h == 0;
    } else if k < n {
      RowsBelow(k, n, h);
    }
  }

  lemma RowsBelow(k: nat, n: nat, h: nat)
    requires k < n
    ensures k * h + h <= n * h
  {
    NextMultiple(k, h);
    NatProduct(n - (k + 1), h);
    assert (n - (k + 1)) * h == n * h - (k + 1) * h;
  }

  lemma HeightsSplit(s: PageSetup, k: nat)
    requires s.Printable() && k < s.StripCount()
    ensures s.StripHeight() > 0 ==> (s.sourceHeight - (s.StripCount() - 1) * s.StripHeight() == s.StripHeight()
                                     <==> s.sourceHeight % s.StripHeight() == 0)
    ensures s.StripHeight() == 0 ==> s.sourceHeight == 0 && s.StripCount() == 1
  {
    var h, n := s.StripHeight(), s.StripCount();
    if h > 0 {
      if s.stripHeight != 0 {
        StripCountIsLeast(s.sourceHeight, h);
        WholeMultiple(s.sourceHeight, n, h);
      } else {
        DivMul(1, h, 0);
      }
    }
  }

  lemma WholeMultiple(n: nat, q: nat, h: nat)
    requires h > 0 && q > 0 && (q - 1) * h < n <= q * h
    ensures n - (q - 1) * h == h <==> n % h == 0
  {
    var r := n - (q - 1) * h;
    assert (q - 1) * h == q * h - h;
    if r == h {
      DivMul(q, h, 0);
    } else {
      assert n == (q - 1) * h + r;
      DivMul(q - 1, h, r);
    }
  }

  /** A JPEG strip is always encoded at the full strip height. The contents place strip k of the picture at that
      height, and do not squeeze it, exactly when it is the last one and the strips divide the picture evenly, or
      when it is another one and does not reach below the page. */
  lemma PlacedAsEncodedIff(s: PageSetup, k: nat)
    requires s.Printable() && k < s.StripCount()
    ensures var m := |s.MarginHeights()|;
            && |s.Places()| == |s.Heights()| == m + s.StripCount()
            && (s.Places()[m + k].height == s.StripHeight()
                <==> if k == s.StripCount() - 1 then s.StripHeight() == 0 || s.sourceHeight % s.StripHeight() == 0
                     else Total(s.Heights()[..m + k + 1]) <= Anchor(s.mediaHeight, s.resolution.Dpi()))
  {
    hide Total, Tile, Anchor, PageSetup.MarginHeights, PageSetup.Heights, PageSetup.StripCount, PageSetup.StripHeight,
         PageSetup.Printable;
    var m := |s.MarginHeights()|;
    var anchor := Anchor(s.mediaHeight, s.resolution.Dpi());
    HeightAt(s, k);
    TileAt(anchor, s.Heights(), m + k);
    HeightsSplit(s, k);
  }

  /** A hundred lines in strips of 16: the last strip is encoded at 16 lines and placed at four. */
  lemma LastStripIsSqueezed()
    ensures var s := PageSetup(100, 50, 612, 792, Res300, 0, 16, DeviceRGB, Dct, false, false);
            && s.Printable() && s.StripCount() == 7 && |s.Places()| == 7
            && s.Places()[6].height != s.StripHeight() == 16
  {
    var s := PageSetup(100, 50, 612, 792, Res300, 0, 16, DeviceRGB, Dct, false, false);
    PlacedAsEncodedIff(s, 6);
  }
}
