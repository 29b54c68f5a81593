/** Output geometry: margins, subsampling, fine scaling, clipping and alignment of an image on the
    printable area. */
module OutputGeometry {
  import opened Common
  import opened PageRows
  import opened FixedPoint

  datatype Margins = Margins(top: nat, left: nat, right: nat, bottom: nat)

  datatype Flags = Flags(autoScale: bool, autoFit: bool, centerHorizontal: bool, centerVertical: bool,
                         documentScaling: bool)
  {
    function WithoutScaling(): Flags {
      this.(autoScale := false, autoFit := false)
    }
  }

  /** Which sides of a page receive padding. */
  datatype Padding = Padding(top: bool, left: bool, right: bool, bottom: bool)

  const PAD_ALL := Padding(true, true, true, true)
  const PAD_NONE := Padding(false, false, false, false)

  /** The margins as seen by the rotated image. */
  function RotateMargins(rotation: Rotation, m: Margins): Margins {
    if Sideways(rotation) then Margins(m.left, m.bottom, m.top, m.right) else m
  }

  function SavedPadding(rotation: Rotation, m: Margins): Margins {
    if rotation == Rot180 || rotation == Rot270 then Margins(m.bottom, m.right, m.left, m.top) else m
  }

  /** The margins of a page turned clockwise by quarters: what was on the left comes to the top. */
  ghost function Turned(m: Margins, quarters: nat): Margins {
    if quarters == 0 then m
    else
      var t := Turned(m, quarters - 1);
      Margins(t.left, t.bottom, t.top, t.right)
  }

  ghost function Quarters(rotation: Rotation): nat {
    match rotation
    case Rot0 => 0
    case Rot90 => 1
    case Rot180 => 2
    case Rot270 => 3
  }

  /** The margins turn with the picture. */
  lemma MarginsTurn(rotation: Rotation, m: Margins)
    ensures SavedPadding(rotation, RotateMargins(rotation, m)) == Turned(m, Quarters(rotation))
  {
    assert Turned(m, 1) == Margins(m.left, m.bottom, m.top, m.right);
    assert Turned(m, 2) == Margins(m.bottom, m.right, m.left, m.top);
    assert Turned(m, 3) == Margins(m.right, m.top, m.bottom, m.left);
  }

  /** floor(a * b / c), the exact value of the source's float expression; c is zero only for an image
      that subsampling has made empty. */
  function Ratio(a: nat, b: nat, c: nat): nat {
    if c == 0 then 0 else a * b / c
  }

  function Subsampled(w: nat, sample: nat): (s: nat)
    requires sample >= 1
    ensures sample == 1 ==> s == w
  {
    w / sample
  }

  /** One, doubled some times. */
  ghost predicate PowerOfTwo(n: nat) {
    n == 1 || (n > 1 && n % 2 == 0 && PowerOfTwo(n / 2))
  }

  lemma OneIsPower()
    ensures PowerOfTwo(1)
  {
  }

  lemma NextPower(n: nat)
    requires PowerOfTwo(n)
    ensures PowerOfTwo(n * 2)
  {
    assert n * 2 / 2 == n && n * 2 % 2 == 0;
  }

  lemma RatioBelow(a: nat, b: nat, c: nat, limit: nat)
    requires c > 0
    ensures a * b < limit * c ==> Ratio(a, b, c) <= limit
    ensures a * b <= limit * c ==> Ratio(a, b, c) <= limit
    ensures a * b >= limit * c ==> Ratio(a, b, c) >= limit
  {
    var q := a * b / c;
    assert a * b == q * c + a * b % c;
    if q > limit {
      assert q * c >= (limit + 1) * c;
      assert (limit + 1) * c == limit * c + c;
    }
    if q < limit {
      assert (q + 1) * c <= limit * c;
      assert (q + 1) * c == q * c + c;
    }
  }

  lemma RatioIsFloor(a: nat, b: nat, c: nat)
    requires c > 0
    ensures Ratio(a, b, c) * c <= a * b < (Ratio(a, b, c) + 1) * c
  {
    var n := a * b;
    NatProduct(a, b);
    assert n == n / c * c + n % c;
    NextMultiple(n / c, c);
  }

  lemma Commutes(a: nat, b: nat)
    ensures a * b == b * a
  {
  }

  class Geometry {
    // the decoded image
    var width: nat
    var height: nat
    var sampledWidth: nat
    var sampledHeight: nat
    var scaledSampleSize: nat
    // the printable area, less margins
    var printableWidth: nat
    var printableHeight: nat
    var flags: Flags
    var options: Padding
    var rotation: Rotation
    // the placed image
    var scaledWidth: nat
    var scaledHeight: nat
    var scalingNeeded: bool
    var outputWidth: nat
    var outputHeight: nat
    var padTop: nat
    var padLeft: nat
    var padRight: nat
    var padBottom: nat
    var rowOffset: nat
    var colOffset: nat

    constructor (w: nat, h: nat)
      ensures width == w && height == h && !scalingNeeded
    {
      width, height, sampledWidth, sampledHeight, scaledSampleSize := w, h, w, h, 1;
      printableWidth, printableHeight := 0, 0;
      flags := Flags(false, false, false, false, false);
      options, rotation := PAD_NONE, Rot0;
      scaledWidth, scaledHeight, scalingNeeded, outputWidth, outputHeight := 0, 0, false, 0, 0;
      padTop, padLeft, padRight, padBottom, rowOffset, colOffset := 0, 0, 0, 0, 0, 0;
    }

    /** `_get_width`. */
    function GetWidth(o: Padding): nat
      reads this
    {
      (if flags.autoScale then printableWidth
       else if flags.autoFit || scalingNeeded then scaledWidth
       else outputWidth)
      + (if o.left then padLeft else 0) + (if o.right then padRight else 0)
    }

    /** `_get_height`. */
    function GetHeight(o: Padding): nat
      reads this
    {
      (if flags.autoScale then printableHeight else Min(scaledHeight, printableHeight))
      + (if o.top then padTop else 0) + (if o.bottom then padBottom else 0)
    }

    /** The size of the decoded image after rotation. */
    function RotatedWidth(): nat
      reads `rotation, `sampledWidth, `sampledHeight
    {
      if Sideways(rotation) then sampledHeight else sampledWidth
    }

    function RotatedHeight(): nat
      reads `rotation, `sampledWidth, `sampledHeight
    {
      if Sideways(rotation) then sampledWidth else sampledHeight
    }

    /** A scaled image that fits the printable area, respectively covers it, and in both cases meets
        one edge exactly. */
    ghost predicate Fits()
      reads `scaledWidth, `scaledHeight, `printableWidth, `printableHeight
    {
      && scaledWidth <= printableWidth && scaledHeight <= printableHeight
      && (scaledWidth == printableWidth || scaledHeight == printableHeight)
    }

    ghost predicate Covers()
      reads `scaledWidth, `scaledHeight, `printableWidth, `printableHeight
    {
      && scaledWidth >= printableWidth && scaledHeight >= printableHeight
      && (scaledWidth == printableWidth || scaledHeight == printableHeight)
    }

    /** Without scaling the placed image is a window of the rotated one. */
    ghost predicate WindowInImage()
      reads this
    {
      && scaledWidth == RotatedWidth() && scaledHeight == RotatedHeight()
      && outputWidth == Min(printableWidth, scaledWidth) && outputHeight == Min(printableHeight, scaledHeight)
      && colOffset + outputWidth <= scaledWidth
      && rowOffset + Min(scaledHeight, printableHeight) <= scaledHeight
    }

    /** What subsampling may produce: anything at sample size one, otherwise only an image that is still
        larger than the printable area. */
    ghost predicate StillLarger(f: Flags, w: nat, h: nat)
      reads `scaledSampleSize, `printableWidth, `printableHeight
    {
      && (scaledSampleSize > 1 && f.autoScale ==> w > printableWidth && h > printableHeight)
      && (scaledSampleSize > 1 && f.autoFit ==> w > printableWidth || h > printableHeight)
    }

    /** Whether a picture of this size still is to be halved into it. */
    ghost predicate Halves(f: Flags, w: nat, h: nat)
      reads `printableWidth, `printableHeight
    {
      || (f.autoScale && w > printableWidth && h > printableHeight)
      || (f.autoFit && (w > printableWidth || h > printableHeight))
    }

    /** The subsampling loop: halves the image while it stays larger than the printable area, in both
        dimensions to cover it, in one of them to fit into it. */
    method ChooseSampleSize(w: nat, h: nat)
      requires w >= 1 && h >= 1
      requires !(flags.autoScale && flags.autoFit)
      modifies this`scaledSampleSize
      ensures scaledSampleSize >= 1 && PowerOfTwo(scaledSampleSize)
      ensures StillLarger(flags, Subsampled(w, scaledSampleSize), Subsampled(h, scaledSampleSize))
      ensures !Halves(flags, Subsampled(w, scaledSampleSize) / 2, Subsampled(h, scaledSampleSize) / 2)
    {
      hide PowerOfTwo;
      OneIsPower();
      scaledSampleSize := 1;
      var nextWidth, nextHeight := w / 2, h / 2;
      while (flags.autoScale && nextWidth > printableWidth && nextHeight > printableHeight)
         || (flags.autoFit && (nextWidth > printableWidth || nextHeight > printableHeight))
        invariant scaledSampleSize >= 1 && PowerOfTwo(scaledSampleSize)
        invariant nextWidth == Subsampled(w, scaledSampleSize) / 2 && nextHeight == Subsampled(h, scaledSampleSize) / 2
        invariant StillLarger(flags, Subsampled(w, scaledSampleSize), Subsampled(h, scaledSampleSize))
        decreases nextWidth + nextHeight
      {
        HalvedTwice(w, scaledSampleSize);
        HalvedTwice(h, scaledSampleSize);
        HalvesAreSmaller(nextWidth, nextHeight);
        NextPower(scaledSampleSize);
        scaledSampleSize := scaledSampleSize * 2;
        nextWidth, nextHeight := nextWidth / 2, nextHeight / 2;
      }
    }

    /** One side meets the printable area and the other one lies on the side the mode asks for: over its
        edge or on it to cover the area, strictly inside to fit. */
    ghost predicate MeetsEdge(f: Flags, w: nat, h: nat)
      reads `printableWidth, `printableHeight
    {
      && (w == printableWidth || h == printableHeight)
      && (f.autoScale ==> w >= printableWidth && h >= printableHeight)
      && (f.autoFit ==> w <= printableWidth && h <= printableHeight && !(w == printableWidth && h == printableHeight))
      && (f.autoScale || f.autoFit)
    }

    ghost predicate FitsAsDocument(f: Flags, w: nat, h: nat)
      reads `printableWidth, `printableHeight
    {
      f.documentScaling && w <= printableWidth && h <= printableHeight
    }

    /** The flags that remain when a picture of this size comes to fine scaling with the flags f. */
    ghost predicate FlagsAfter(f: Flags, w: nat, h: nat)
      reads `flags, `printableWidth, `printableHeight
    {
      && flags.centerHorizontal == f.centerHorizontal && flags.centerVertical == f.centerVertical
      && flags.documentScaling == f.documentScaling
      && (if MeetsEdge(f, w, h) || FitsAsDocument(f, w, h) then !flags.autoScale && !flags.autoFit
          else flags.autoScale == f.autoScale && flags.autoFit == f.autoFit)
    }

    /** The scaled picture keeps the proportions of a picture of this size: one side is the printable one, and the
        other one the largest that is not too long for it. */
    ghost predicate Proportional(w: nat, h: nat)
      reads `scaledWidth, `scaledHeight, `printableWidth, `printableHeight
    {
      || (scaledWidth == printableWidth && scaledHeight * w <= printableWidth * h < (scaledHeight + 1) * w)
      || (scaledHeight == printableHeight && scaledWidth * h <= printableHeight * w < (scaledWidth + 1) * h)
    }

    /** Drops fine scaling when subsampling has already met an edge, or when a document fits as it
        is. */
    method DropFineScaling(w: nat, h: nat)
      requires !(flags.autoScale && flags.autoFit)
      modifies this`flags
      ensures FlagsAfter(old(flags), w, h)
    {
      var f := flags;
      if w == printableWidth &&
         ((f.autoScale && h >= printableHeight) || (f.autoFit && h < printableHeight)) {
        flags := f.WithoutScaling();
      } else if h == printableHeight &&
         ((f.autoScale && w >= printableWidth) || (f.autoFit && w < printableWidth)) {
        flags := f.WithoutScaling();
      }
      if f.documentScaling && h <= printableHeight && w <= printableWidth {
        flags := flags.WithoutScaling();
      }
    }

    /** The size of the fine-scaled image: the bounding edge is met exactly, the other one follows the
        aspect ratio, rounded down. */
    method FineScale(w: nat, h: nat)
      requires flags.autoScale != flags.autoFit
      requires w >= 1 || h >= 1
      requires flags.autoScale ==> w >= 1 && h >= 1
      modifies this`scaledWidth, this`scaledHeight, this`scalingNeeded
      ensures scalingNeeded
      ensures flags.autoFit ==> Fits()
      ensures flags.autoScale ==> Covers()
      ensures w > 0 && h > 0 ==> Proportional(w, h)
      ensures (scaledWidth == printableWidth && scaledHeight == Ratio(printableWidth, h, w))
           || (scaledHeight == printableHeight && scaledWidth == Ratio(printableHeight, w, h))
    {
      // compares rw = printableHeight * w / h with printableWidth
      var rw, target := printableHeight * w, printableWidth * h;
      var useHeight := if flags.autoScale then rw >= target else rw < target;
      if h > 0 {
        RatioBelow(printableHeight, w, h, printableWidth);
        RatioIsFloor(printableHeight, w, h);
      }
      if w > 0 {
        Commutes(printableHeight, w);
        RatioBelow(printableWidth, h, w, printableHeight);
        RatioIsFloor(printableWidth, h, w);
      }
      if useHeight {
        scaledWidth, scaledHeight := Ratio(printableHeight, w, h), printableHeight;
      } else {
        scaledHeight, scaledWidth := Ratio(printableWidth, h, w), printableWidth;
      }
      scalingNeeded := true;
    }

    /** How much of the printable width a narrow picture leaves free, and how much a wide one exceeds it. */
    ghost function Missing(size: nat, area: nat): nat { if size < area then area - size else 0 }

    ghost function Excess(size: nat, area: nat): nat { if size > area then size - area else 0 }

    /** Where a picture goes along one axis: `before` and `after` are its paddings beyond the margins m0 and
        m1, `offset` the part of the picture cropped in front.  Centring splits both evenly, with the odd line
        behind; otherwise the padding is all on one side, and the crop keeps one end of the picture. */
    ghost predicate Aligned(center: bool, padBehind: bool, cropFront: bool, size: nat, area: nat,
                            m0: nat, m1: nat, before: nat, after: nat, offset: nat)
      reads `flags
    {
      var missing, excess := Missing(size, area), Excess(size, area);
      && before >= m0 && after >= m1
      && (flags.autoScale ==> before == m0 && after == m1 && offset == 0)
      && (!flags.autoScale ==>
            && (before - m0) + (after - m1) == missing
            && (if center then 0 <= (after - m1) - (before - m0) <= 1 && offset == excess / 2
                else (if padBehind then before == m0 else after == m1) && offset == if cropFront then excess else 0))
    }

    /** Horizontal placement.  `padRightSide` and `cropLeft` are what differs between rotations: where
        a narrow image is padded, and whether a wide one is cropped from the left. */
    method PlaceColumns(padRightSide: bool, cropLeft: bool)
      requires colOffset == 0
      modifies this`colOffset, this`padLeft, this`padRight
      ensures Aligned(flags.centerHorizontal, padRightSide, cropLeft, scaledWidth, printableWidth,
                      old(padLeft), old(padRight), padLeft, padRight, colOffset)
      ensures padLeft >= old(padLeft) && padRight >= old(padRight)
      ensures padLeft + padRight == old(padLeft) + old(padRight) +
                (if !flags.autoScale && scaledWidth < printableWidth then printableWidth - scaledWidth else 0)
      ensures !flags.autoScale ==> colOffset + Min(scaledWidth, printableWidth) <= scaledWidth
    {
      if flags.autoScale {
      } else if flags.centerHorizontal {
        if scaledWidth > printableWidth {
          colOffset := (scaledWidth - printableWidth) / 2;
        } else {
          var paddingDelta := printableWidth - scaledWidth;
          var delta := paddingDelta / 2;
          padLeft := padLeft + delta;
          padRight := padRight + delta + paddingDelta % 2;
        }
      } else if scaledWidth > printableWidth && cropLeft {
        colOffset := scaledWidth - printableWidth;
      } else if scaledWidth < printableWidth {
        if padRightSide {
          padRight := padRight + (printableWidth - scaledWidth);
        } else {
          padLeft := padLeft + (printableWidth - scaledWidth);
        }
      }
    }

    /** Vertical placement, likewise. */
    method PlaceRows(padBelow: bool, cropTop: bool)
      requires rowOffset == 0
      modifies this`rowOffset, this`padTop, this`padBottom
      ensures Aligned(flags.centerVertical, padBelow, cropTop, scaledHeight, printableHeight,
                      old(padTop), old(padBottom), padTop, padBottom, rowOffset)
      ensures padTop >= old(padTop) && padBottom >= old(padBottom)
      ensures padTop + padBottom == old(padTop) + old(padBottom) +
                (if !flags.autoScale && scaledHeight < printableHeight then printableHeight - scaledHeight else 0)
      ensures !flags.autoScale ==> rowOffset + Min(scaledHeight, printableHeight) <= scaledHeight
    {
      if flags.autoScale {
      } else if flags.centerVertical {
        if scaledHeight > printableHeight {
          rowOffset := (scaledHeight - printableHeight) / 2;
        } else {
          var paddingDelta := printableHeight - scaledHeight;
          var delta := paddingDelta / 2;
          padTop := padTop + delta;
          padBottom := padBottom + delta + paddingDelta % 2;
        }
      } else if scaledHeight > printableHeight && cropTop {
        rowOffset := scaledHeight - printableHeight;
      } else if scaledHeight < printableHeight {
        if padBelow {
          padBottom := padBottom + (printableHeight - scaledHeight);
        } else {
          padTop := padTop + (printableHeight - scaledHeight);
        }
      }
    }

    /** First part of `wprint_image_set_output_properties`: margins, printable area and padding. */
    method StoreArea(rot: Rotation, pageWidth: nat, pageHeight: nat, m: Margins, renderFlags: Flags,
                     padding: Padding)
      requires m.left + m.right <= pageWidth && m.top + m.bottom <= pageHeight
      modifies this
      ensures width == old(width) && height == old(height) && scalingNeeded == old(scalingNeeded)
      ensures rotation == rot && options == padding && flags == renderFlags
      ensures rowOffset == 0 && colOffset == 0
      ensures printableWidth + m.left + m.right == pageWidth && printableHeight + m.top + m.bottom == pageHeight
      ensures Margins(padTop, padLeft, padRight, padBottom) == SavedPadding(rot, m)
    {
      options := padding;
      printableWidth := pageWidth - (m.left + m.right);
      printableHeight := pageHeight - (m.top + m.bottom);
      flags := renderFlags;
      rowOffset, colOffset := 0, 0;
      rotation := rot;
      var saved := SavedPadding(rot, m);
      padTop, padLeft, padRight, padBottom := saved.top, saved.left, saved.right, saved.bottom;
    }

    /** What the second part decides about the size of the image. */
    ghost predicate Sized(f: Flags)
      reads `scalingNeeded, `flags, `scaledWidth, `scaledHeight, `printableWidth, `printableHeight, `outputWidth, `outputHeight,
            `rotation, `sampledWidth, `sampledHeight
    {
      && FlagsAfter(f, RotatedWidth(), RotatedHeight())
      && (scalingNeeded && RotatedWidth() > 0 && RotatedHeight() > 0 ==> Proportional(RotatedWidth(), RotatedHeight()))
      && (scalingNeeded <==> flags.autoScale || flags.autoFit)
      && !(flags.autoScale && flags.autoFit)
      && (flags.autoScale ==> Covers())
      && (flags.autoFit ==> Fits())
      && (!scalingNeeded ==>
            && scaledWidth == RotatedWidth() && scaledHeight == RotatedHeight()
            && outputWidth == Min(printableWidth, scaledWidth) && outputHeight == Min(printableHeight, scaledHeight))
      && (scalingNeeded ==> outputWidth == RotatedWidth() && outputHeight == RotatedHeight())
    }

    /** Second part: subsampling and fine scaling. */
    method SizeImage(subsampling: bool)
      requires width >= 1 && height >= 1 && !scalingNeeded
      requires !(flags.autoScale && flags.autoFit)
      modifies this`flags, this`scaledSampleSize, this`sampledWidth, this`sampledHeight
      modifies this`scaledWidth, this`scaledHeight, this`scalingNeeded, this`outputWidth, this`outputHeight
      ensures scaledSampleSize >= 1 && PowerOfTwo(scaledSampleSize)
      ensures !subsampling || !old(flags.autoScale || flags.autoFit) ==> scaledSampleSize == 1
      ensures subsampling ==> !Halves(old(flags), RotatedWidth() / 2, RotatedHeight() / 2)
      ensures StillLarger(old(flags), RotatedWidth(), RotatedHeight())
      ensures sampledWidth == Subsampled(width, scaledSampleSize) && sampledHeight == Subsampled(height, scaledSampleSize)
      ensures Sized(old(flags))
    {
      hide Proportional, FlagsAfter, Fits, Covers, PowerOfTwo;
      OneIsPower();
      scaledSampleSize := 1;
      if (flags.autoScale || flags.autoFit) && subsampling {
        if Sideways(rotation) {
          ChooseSampleSize(height, width);
        } else {
          ChooseSampleSize(width, height);
        }
      }
      sampledWidth, sampledHeight := Subsampled(width, scaledSampleSize), Subsampled(height, scaledSampleSize);
      FinishSize(RotatedWidth(), RotatedHeight());
    }

    /** Whether subsampling has done it all. */
    method CheckSubsampled(w: nat, h: nat)
      requires !(flags.autoScale && flags.autoFit)
      modifies this`flags
      ensures FlagsAfter(old(flags), w, h) && !(flags.autoScale && flags.autoFit)
      ensures StillLarger(old(flags), w, h) ==> StillLarger(flags, w, h)
    {
      if flags.autoScale || flags.autoFit {
        DropFineScaling(w, h);
      }
    }

    /** The size of the placed picture: fine-scaled or as it is. */
    method FitSize(w: nat, h: nat)
      requires !scalingNeeded && !(flags.autoScale && flags.autoFit)
      requires scaledSampleSize >= 1 && StillLarger(flags, w, h) && (scaledSampleSize == 1 ==> w >= 1 && h >= 1)
      modifies this`flags, this`scaledWidth, this`scaledHeight, this`scalingNeeded
      ensures FlagsAfter(old(flags), w, h) && !(flags.autoScale && flags.autoFit)
      ensures scalingNeeded <==> flags.autoScale || flags.autoFit
      ensures (flags.autoScale ==> Covers()) && (flags.autoFit ==> Fits())
      ensures scalingNeeded && w > 0 && h > 0 ==> Proportional(w, h)
      ensures !scalingNeeded ==> scaledWidth == w && scaledHeight == h
    {
      hide Proportional, Fits, Covers, FlagsAfter;
      CheckSubsampled(w, h);
      if flags.autoScale || flags.autoFit {
        FineScale(w, h);
      } else {
        scaledHeight, scaledWidth := h, w;
      }
    }

    method FinishSize(imageWidth: nat, imageHeight: nat)
      requires imageWidth == RotatedWidth() && imageHeight == RotatedHeight() && !scalingNeeded
      requires !(flags.autoScale && flags.autoFit)
      requires scaledSampleSize >= 1 && StillLarger(flags, imageWidth, imageHeight)
      requires scaledSampleSize == 1 ==> imageWidth >= 1 && imageHeight >= 1
      modifies this`flags, this`scaledWidth, this`scaledHeight, this`scalingNeeded
      modifies this`outputWidth, this`outputHeight
      ensures Sized(old(flags))
    {
      hide Proportional, Fits, Covers, FlagsAfter, StillLarger, RotatedWidth, RotatedHeight;
      FitSize(imageWidth, imageHeight);
      if flags.autoScale || flags.autoFit || scalingNeeded {
        outputWidth, outputHeight := imageWidth, imageHeight;
      } else {
        outputWidth, outputHeight := Min(printableWidth, imageWidth), Min(printableHeight, imageHeight);
      }
    }

    /** Turned by less than half a circle, a picture sits at the upper left; turned further, at the lower
        right.  A picture too wide keeps its right end unless it is upright; one too high keeps its lower end
        when it is turned by half a circle or more. */
    ghost predicate PlacedBeside(m: Margins)
      reads this
    {
      && Aligned(flags.centerHorizontal, rotation == Rot0 || rotation == Rot90, rotation != Rot0,
                 scaledWidth, printableWidth, m.left, m.right, padLeft, padRight, colOffset)
      && Aligned(flags.centerVertical, rotation == Rot0 || rotation == Rot90, rotation == Rot180 || rotation == Rot270,
                 scaledHeight, printableHeight, m.top, m.bottom, padTop, padBottom, rowOffset)
    }

    /** Compared with the margins, padding only grows, by exactly what the image lacks in each direction. */
    ghost predicate Spread(m: Margins)
      reads this
    {
      && padTop >= m.top && padBottom >= m.bottom && padLeft >= m.left && padRight >= m.right
      && padLeft + padRight == m.left + m.right +
           (if !flags.autoScale && scaledWidth < printableWidth then printableWidth - scaledWidth else 0)
      && padTop + padBottom == m.top + m.bottom +
           (if !flags.autoScale && scaledHeight < printableHeight then printableHeight - scaledHeight else 0)
    }

    /** The part that is printed lies inside the image. */
    ghost predicate Cropped()
      reads this
    {
      !flags.autoScale ==>
        && colOffset + Min(scaledWidth, printableWidth) <= scaledWidth
        && rowOffset + Min(scaledHeight, printableHeight) <= scaledHeight
    }

    /** Third part: alignment, by rotation. */
    method PlaceImage()
      requires rowOffset == 0 && colOffset == 0
      modifies this`rowOffset, this`padTop, this`padBottom, this`colOffset, this`padLeft, this`padRight
      ensures var m := Margins(old(padTop), old(padLeft), old(padRight), old(padBottom)); PlacedBeside(m) && Spread(m)
      ensures Cropped()
    {
      hide Aligned;
      match rotation {
        case Rot90 =>
          PlaceColumns(true, true);
          PlaceRows(true, false);
        case Rot180 =>
          PlaceColumns(false, true);
          PlaceRows(false, true);
        case Rot270 =>
          PlaceColumns(false, true);
          PlaceRows(false, true);
        case Rot0 =>
          PlaceColumns(true, false);
          PlaceRows(true, false);
      }
    }

    /** `wprint_image_set_output_properties` without native scaling, on an image just opened.  For every
        rotation, scaling mode and alignment the padded page has exactly the requested size. */
    method SetOutputProperties(rot: Rotation, pageWidth: nat, pageHeight: nat, margins: Margins,
                               renderFlags: Flags, padding: Padding, subsampling: bool)
      requires width >= 1 && height >= 1 && !scalingNeeded
      requires !(renderFlags.autoScale && renderFlags.autoFit)
      requires if Sideways(rot) then margins.top + margins.bottom <= pageWidth && margins.left + margins.right <= pageHeight
               else margins.left + margins.right <= pageWidth && margins.top + margins.bottom <= pageHeight
      modifies this
      ensures rotation == rot && options == padding && width == old(width) && height == old(height)
      ensures GetWidth(PAD_ALL) == pageWidth && GetHeight(PAD_ALL) == pageHeight
      ensures printableWidth == pageWidth - (if Sideways(rot) then margins.top + margins.bottom else margins.left + margins.right)
      ensures printableHeight == pageHeight - (if Sideways(rot) then margins.left + margins.right else margins.top + margins.bottom)
      ensures PlacedBeside(Turned(margins, Quarters(rot)))
      ensures !subsampling || !(renderFlags.autoScale || renderFlags.autoFit) ==> scaledSampleSize == 1
      ensures scaledSampleSize >= 1 && PowerOfTwo(scaledSampleSize)
      ensures sampledWidth == width / scaledSampleSize && sampledHeight == height / scaledSampleSize
      ensures subsampling ==> !Halves(renderFlags, RotatedWidth() / 2, RotatedHeight() / 2)
      ensures StillLarger(renderFlags, RotatedWidth(), RotatedHeight())
      ensures FlagsAfter(renderFlags, RotatedWidth(), RotatedHeight())
      ensures scalingNeeded && flags.autoScale ==> Covers()
      ensures scalingNeeded && flags.autoFit ==> Fits() && rowOffset == 0 && colOffset == 0
      ensures scalingNeeded && RotatedWidth() > 0 && RotatedHeight() > 0 ==> Proportional(RotatedWidth(), RotatedHeight())
      ensures scalingNeeded <==> flags.autoScale || flags.autoFit
      ensures scalingNeeded ==> outputWidth == RotatedWidth() && outputHeight == RotatedHeight()
      ensures !scalingNeeded ==> WindowInImage()
    {
      MarginsTurn(rot, margins);
      AreaTurns(rot, margins);
      hide *;
      SubsampledMeans(width, height);
      var m := RotateMargins(rot, margins);
      StoreArea(rot, pageWidth, pageHeight, m, renderFlags, padding);
      SizeImage(subsampling);
      PlaceImage();
      PageIsFilled(renderFlags, rot, m, pageWidth, pageHeight);
      SizesRemain(renderFlags);
    }

    /** Image and padding together are as large as the page. */
    lemma PageIsFilled(f: Flags, rot: Rotation, m: Margins, pageWidth: nat, pageHeight: nat)
      requires Sized(f) && Spread(SavedPadding(rot, m))
      requires printableWidth + m.left + m.right == pageWidth && printableHeight + m.top + m.bottom == pageHeight
      ensures GetWidth(PAD_ALL) == pageWidth && GetHeight(PAD_ALL) == pageHeight
    {
    }

    lemma SizesRemain(f: Flags)
      requires Sized(f) && Cropped()
      ensures FlagsAfter(f, RotatedWidth(), RotatedHeight())
      ensures scalingNeeded ==> outputWidth == RotatedWidth() && outputHeight == RotatedHeight()
      ensures scalingNeeded && RotatedWidth() > 0 && RotatedHeight() > 0 ==> Proportional(RotatedWidth(), RotatedHeight())
      ensures scalingNeeded && flags.autoScale ==> Covers()
      ensures scalingNeeded && flags.autoFit ==> Fits() && rowOffset == 0 && colOffset == 0
      ensures scalingNeeded <==> flags.autoScale || flags.autoFit
      ensures !scalingNeeded ==> WindowInImage()
    {
    }
  }

  lemma AreaTurns(rotation: Rotation, m: Margins)
    ensures var r := RotateMargins(rotation, m);
            && r.left + r.right == (if Sideways(rotation) then m.top + m.bottom else m.left + m.right)
            && r.top + r.bottom == (if Sideways(rotation) then m.left + m.right else m.top + m.bottom)
  {
  }

  lemma SubsampledMeans(w: nat, h: nat)
    ensures forall k: nat | k >= 1 :: Subsampled(w, k) == w / k && Subsampled(h, k) == h / k
  {
  }

  lemma HalvesAreSmaller(w: nat, h: nat)
    ensures w + h > 0 ==> w / 2 + h / 2 < w + h
  {
  }

  lemma HalvedTwice(w: nat, k: nat)
    requires k >= 1
    ensures w / k / 2 == w / (k * 2)
  {
    var q, r := w / k, w % k;
    var h, b := q / 2, q % 2;
    assert w == q * k + r;
    assert q * k == h * (k * 2) + b * k;
    assert 0 <= b * k + r < k * 2;
    DivMul(h, k * 2, b * k + r);
  }
}
