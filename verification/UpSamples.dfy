/** What the samples of a scaled-up stripe are worth: how near they come to exact bilinear interpolation. */
module UpSamples {
  import opened Common
  import opened FixedPoint
  import opened ScalerWindow
  import opened AreaWeights
  import opened ScalerPlane
  import Up = ScaleUp

  /** A channel of a picture: its value by line and column. */
  type Channel = (nat, nat) -> Byte

  /** Interpolation within a line at the exact column p / n, times n. */
  function InLine(f: Channel, line: nat, p: nat, n: nat): int
    requires n > 0
  {
    f(line, p / n) * (n - p % n) + f(line, p / n + 1) * (p % n)
  }

  /** Interpolation between lines at the exact line r / m and column p / n, times m * n. */
  function InPlane(f: Channel, r: nat, m: nat, p: nat, n: nat): int
    requires m > 0 && n > 0
  {
    InLine(f, r / m, p, n) * (m - r % m) + InLine(f, r / m + 1, p, n) * (r % m)
  }

  // ----- interpolation is continuous -----

  lemma NextPart(p: nat, n: nat)
    requires n > 0
    ensures if p % n + 1 < n then (p + 1) / n == p / n && (p + 1) % n == p % n + 1
            else (p + 1) / n == p / n + 1 && (p + 1) % n == 0
  {
    assert p == p / n * n + p % n;
    if p % n + 1 < n {
      DivMul(p / n, n, p % n + 1);
    } else {
      NextMultiple(p / n, n);
      DivMul(p / n + 1, n, 0);
    }
  }

  /** One part further, an interpolated value between a and b, or then b and c, changes by b - a. */
  lemma NextValue(a: int, b: int, c: int, k: nat, n: nat)
    requires k < n
    ensures k + 1 < n ==> a * (n - (k + 1)) + b * (k + 1) == a * (n - k) + b * k + (b - a)
    ensures k + 1 == n ==> b * (n - 0) + c * 0 == a * (n - k) + b * k + (b - a)
  {
    assert a * (n - (k + 1)) == a * (n - k) - a;
    assert b * (k + 1) == b * k + b;
    assert k + 1 == n ==> a * (n - k) == a && b * n == b * k + b;
  }

  lemma LineStep(f: Channel, line: nat, p: nat, n: nat)
    requires n > 0
    ensures -255 <= InLine(f, line, p + 1, n) - InLine(f, line, p, n) <= 255
  {
    NextPart(p, n);
    NextValue(f(line, p / n), f(line, p / n + 1), f(line, p / n + 2), p % n, n);
  }

  lemma {:induction false} LineNear(f: Channel, line: nat, p: nat, q: nat, n: nat)
    requires n > 0 && p <= q
    ensures -255 * (q - p) <= InLine(f, line, q, n) - InLine(f, line, p, n) <= 255 * (q - p)
    decreases q - p
  {
    hide InLine;
    if p < q {
      LineNear(f, line, p, q - 1, n);
      LineStep(f, line, q - 1, n);
    }
  }

  lemma LineBounds(f: Channel, line: nat, p: nat, n: nat)
    requires n > 0
    ensures 0 <= InLine(f, line, p, n) <= 255 * n
  {
    Mean(f(line, p / n), f(line, p / n + 1), n - p % n, p % n, 0, 255);
  }

  /** A weighted sum of two values lies between the sums of their bounds. */
  lemma Mean(a: int, b: int, u: nat, v: nat, low: int, high: int)
    requires low <= a <= high && low <= b <= high
    ensures low * (u + v) <= a * u + b * v <= high * (u + v)
  {
    MulBetween(u, low, a, high);
    MulBetween(v, low, b, high);
    assert low * (u + v) == low * u + low * v && high * (u + v) == high * u + high * v;
  }

  /** Along a line, the interpolated plane changes by at most 255 a part. */
  lemma PlaneNearInLine(f: Channel, r: nat, m: nat, p: nat, q: nat, n: nat)
    requires m > 0 && n > 0 && p <= q
    ensures -(255 * (q - p)) * m <= InPlane(f, r, m, q, n) - InPlane(f, r, m, p, n) <= 255 * (q - p) * m
  {
    hide InLine;
    LineNear(f, r / m, p, q, n);
    LineNear(f, r / m + 1, p, q, n);
    var a, b := InLine(f, r / m, p, n), InLine(f, r / m + 1, p, n);
    var a', b' := InLine(f, r / m, q, n), InLine(f, r / m + 1, q, n);
    Mean(a' - a, b' - b, m - r % m, r % m, -(255 * (q - p)), 255 * (q - p));
    Differences(a, b, a', b', m - r % m, r % m);
  }

  lemma Differences(a: int, b: int, a': int, b': int, u: int, v: int)
    ensures (a' - a) * u + (b' - b) * v == a' * u + b' * v - (a * u + b * v)
  {
  }

  lemma PlaneStep(f: Channel, r: nat, m: nat, p: nat, n: nat)
    requires m > 0 && n > 0
    ensures -255 * n <= InPlane(f, r + 1, m, p, n) - InPlane(f, r, m, p, n) <= 255 * n
  {
    hide InLine;
    NextPart(r, m);
    LineBounds(f, r / m, p, n);
    LineBounds(f, r / m + 1, p, n);
    NextValue(InLine(f, r / m, p, n), InLine(f, r / m + 1, p, n), InLine(f, r / m + 2, p, n), r % m, m);
  }

  /** Across lines likewise. */
  lemma {:induction false} PlaneNear(f: Channel, r: nat, s: nat, m: nat, p: nat, n: nat)
    requires m > 0 && n > 0 && r <= s
    ensures -(255 * (s - r)) * n <= InPlane(f, s, m, p, n) - InPlane(f, r, m, p, n) <= 255 * (s - r) * n
    decreases s - r
  {
    hide InPlane;
    if r < s {
      PlaneNear(f, r, s - 1, m, p, n);
      PlaneStep(f, s - 1, m, p, n);
      OneMore(255, s - 1 - r, n);
    }
  }

  lemma OneMore(c: int, k: int, n: int)
    ensures c * (k + 1) * n == c * k * n + c * n && -(c * (k + 1)) * n == -(c * k) * n - c * n
  {
  }

  /** Two places of a plane that are near each other have near values. */
  lemma PlaneContinuous(f: Channel, r: nat, s: nat, dr: nat, m: nat, p: nat, q: nat, dp: nat, n: nat)
    requires m > 0 && n > 0 && s - dr <= r <= s + dr && q - dp <= p <= q + dp
    ensures InPlane(f, s, m, q, n) - InPlane(f, r, m, p, n) <= 255 * (dr * n + dp * m)
    ensures InPlane(f, r, m, p, n) - InPlane(f, s, m, q, n) <= 255 * (dr * n + dp * m)
  {
    hide InPlane;
    AcrossLines(f, r, s, dr, m, p, n);
    AlongLine(f, s, m, p, q, dp, n);
  }

  lemma AcrossLines(f: Channel, r: nat, s: nat, dr: nat, m: nat, p: nat, n: nat)
    requires m > 0 && n > 0 && s - dr <= r <= s + dr
    ensures -(255 * (dr * n)) <= InPlane(f, s, m, p, n) - InPlane(f, r, m, p, n) <= 255 * (dr * n)
  {
    hide InPlane;
    if r <= s {
      PlaneNear(f, r, s, m, p, n);
      Grouped(s - r, dr, n);
    } else {
      PlaneNear(f, s, r, m, p, n);
      Grouped(r - s, dr, n);
    }
  }

  lemma AlongLine(f: Channel, r: nat, m: nat, p: nat, q: nat, dp: nat, n: nat)
    requires m > 0 && n > 0 && q - dp <= p <= q + dp
    ensures -(255 * (dp * m)) <= InPlane(f, r, m, q, n) - InPlane(f, r, m, p, n) <= 255 * (dp * m)
  {
    hide InPlane;
    if p <= q {
      PlaneNearInLine(f, r, m, p, q, n);
      Grouped(q - p, dp, m);
    } else {
      PlaneNearInLine(f, r, m, q, p, n);
      Grouped(p - q, dp, m);
    }
  }

  lemma Grouped(k: nat, bound: nat, n: nat)
    requires k <= bound
    ensures 255 * k * n <= 255 * (bound * n) && -(255 * k) * n >= -(255 * (bound * n))
  {
    MulBetween(n, k, bound, bound);
    assert 255 * k * n == 255 * (n * k) && -(255 * k) * n == -(255 * (n * k));
  }

  // ----- finer parts -----

  lemma FinerParts(p: nat, n: nat, c: nat)
    requires n > 0 && c > 0
    ensures c * n > 0 && c * p >= 0 && c * p / (c * n) == p / n && c * p % (c * n) == c * (p % n)
  {
    assert p == p / n * n + p % n;
    assert c * p == p / n * (c * n) + c * (p % n);
    MulBetween(c, p % n + 1, n, n);
    assert c * (p % n + 1) == c * (p % n) + c;
    NatProduct(c, p % n);
    DivMul(p / n, c * n, c * (p % n));
  }

  lemma FinerLine(f: Channel, line: nat, p: nat, n: nat, c: nat)
    requires n > 0 && c > 0
    ensures c * n > 0 && c * p >= 0 && InLine(f, line, c * p, c * n) == c * InLine(f, line, p, n)
  {
    FinerParts(p, n, c);
    var a, b, k := f(line, p / n), f(line, p / n + 1), p % n;
    assert a * (c * n - c * k) + b * (c * k) == c * (a * (n - k) + b * k);
  }

  lemma FinerPlane(f: Channel, r: nat, m: nat, d: nat, p: nat, n: nat, c: nat)
    requires m > 0 && n > 0 && c > 0 && d > 0
    ensures d * m > 0 && d * r >= 0 && c * n > 0 && c * p >= 0
    ensures InPlane(f, d * r, d * m, c * p, c * n) == d * c * InPlane(f, r, m, p, n)
  {
    hide InLine;
    FinerParts(r, m, d);
    FinerLine(f, r / m, p, n, c);
    FinerLine(f, r / m + 1, p, n, c);
    Factors(InLine(f, r / m, p, n), InLine(f, r / m + 1, p, n), m, r % m, c, d);
  }

  lemma Factors(a: int, b: int, m: int, k: int, c: int, d: int)
    ensures c * a * (d * m - d * k) + c * b * (d * k) == d * c * (a * (m - k) + b * k)
  {
    assert d * m - d * k == d * (m - k);
    assert c * a * (d * (m - k)) == d * c * (a * (m - k));
    assert c * b * (d * k) == d * c * (b * k);
  }

  // ----- the samples -----

  /** Channel c of the picture whose lines begin every `ofs` bytes of a source buffer. */
  function ChannelOf(src: seq<Byte>, ofs: nat, c: nat): Channel {
    (line: nat, column: nat) => Px(src, line * ofs + 3 * column + c)
  }

  /** A position in whole weight units, 1024 to a line. */
  function Units(position: nat): nat {
    position / 0x4000
  }

  lemma UnitsMean(position: nat)
    ensures Units(position) / 1024 == position / ONE24 && Units(position) % 1024 == Weight10(position)
  {
  }

  lemma FourPixels(src: seq<Byte>, ofs: nat, c: nat, k: nat, j: nat, at: nat)
    requires at == k * ofs
    ensures var f, p := ChannelOf(src, ofs, c), at + 3 * j + c;
            && f(k, j) == Px(src, p) && f(k, j + 1) == Px(src, p + 3)
            && f(k + 1, j) == Px(src, p + ofs) && f(k + 1, j + 1) == Px(src, p + ofs + 3)
  {
    NextMultiple(k, ofs);
  }

  /** A sample is the bilinear value at its position in weight units, rounded down. */
  lemma SampleIsInPlane(s: Stripe, src: seq<Byte>, q: nat, x: nat, c: nat)
    requires s.yOut > 0 && s.xOut > 0
    ensures x * s.XStep() >= 0
    ensures UpRow(s, src, q).Sample(x, c)
         == InPlane(ChannelOf(src, s.ofs, c), Units(s.Rel(q)), 1024, Units(x * s.XStep()), 1024) / 0x10_0000
  {
    var row := UpRow(s, src, q);
    NatProduct(x, s.XStep());
    UpColumnWords(x, s.XStep());
    UnitsMean(s.Rel(q));
    UnitsMean(x * s.XStep());
    hide RoundUp24, Weight10, Units, Stripe.Rel, Stripe.XStep;
    var k, j := s.Rel(q) / ONE24, x * s.XStep() / ONE24;
    var f := ChannelOf(src, s.ofs, c);
    FourPixels(src, s.ofs, c, k, j, row.at);
    BlendsArePlane(f(k, j), f(k, j + 1), f(k + 1, j), f(k + 1, j + 1), row.WeightX(x), row.weightY);
  }

  lemma BlendsArePlane(p00: int, p01: int, p10: int, p11: int, wx: int, wy: int)
    ensures Up.Bilinear(p00, p01, p10, p11, wx, wy)
         == ((p00 * (1024 - wx) + p01 * wx) * (1024 - wy) + (p10 * (1024 - wx) + p11 * wx) * wy) / 0x10_0000
  {
    var top, bottom := Up.Blend(p00, p01, wx), Up.Blend(p10, p11, wx);
    assert top == p00 * (1024 - wx) + p01 * wx && bottom == p10 * (1024 - wx) + p11 * wx;
    assert top * 1024 + wy * (bottom - top) == top * (1024 - wy) + bottom * wy;
  }

  // ----- against exact interpolation -----

  /** Where row q of a stripe exactly lies, in parts of a line: yOut parts to a line, from the window's first line
      on.  Column x lies x * xSrc parts along, xOut parts to a column. */
  function LineParts(s: Stripe, q: nat): nat
    requires 0 < s.yOut < UINT16
  {
    BaseBelow(s, q);
    (s.first + q) * s.ySrc - s.Base() * s.yOut
  }

  lemma BaseBelow(s: Stripe, q: nat)
    requires 0 < s.yOut < UINT16
    ensures (s.first + q) * s.ySrc >= s.Base() * s.yOut
  {
    hide RoundUp24;
    NatProduct(s.first, s.ySrc);
    RoundedWhole(s.first * s.ySrc, s.yOut);
    var n := s.first * s.ySrc;
    assert n == n / s.yOut * s.yOut + n % s.yOut;
    MulBetween(s.ySrc, s.first, s.first + q, s.first + q);
  }

  /** The exact bilinear value of sample (q, x), times yOut * xOut. */
  function Exact(s: Stripe, src: seq<Byte>, q: nat, x: nat, c: nat): int
    requires 0 < s.yOut < UINT16 && s.xOut > 0
  {
    NatProduct(x, s.xSrc);
    InPlane(ChannelOf(src, s.ofs, c), LineParts(s, q), s.yOut, x * s.xSrc, s.xOut)
  }

  /** A drifted and truncated position is at most k weight units off. */
  lemma UnitsNear(e: nat, p: nat, out: nat, drift: nat, k: nat)
    requires e * ONE24 <= out * p <= e * ONE24 + drift * out
    requires drift <= 0x4000 * k && k >= 1
    ensures out * Units(p) - k * out <= 1024 * e <= out * Units(p) + k * out
  {
    var u := Units(p);
    MulBetween(out, 0x4000 * u, p, 0x4000 * u + 0x4000);
    MulBetween(out, drift, 0x4000 * k, 0x4000 * k);
    MulBetween(out, 1, k, k);
    assert out * (0x4000 * u) == 0x4000 * (out * u) && out * (0x4000 * u + 0x4000) == 0x4000 * (out * u) + 0x4000 * out;
    assert out * (0x4000 * k) == 0x4000 * (k * out);
  }

  lemma LineUnitsNear(s: Stripe, q: nat, k: nat)
    requires 0 < s.yOut < UINT16 && Roundings(s.first, q) <= 0x4000 * k && k >= 1
    ensures s.yOut * Units(s.Rel(q)) - k * s.yOut <= 1024 * LineParts(s, q) <= s.yOut * Units(s.Rel(q)) + k * s.yOut
  {
    hide RoundUp24, Units, Roundings;
    BaseBelow(s, q);
    RelIsPosition(s, q);
    PositionDrift(s.first, q, s.ySrc, s.yOut);
    ShiftDrift(s.yOut, s.Base(), s.Rel(q), (s.first + q) * s.ySrc);
    UnitsNear(LineParts(s, q), s.Rel(q), s.yOut, Roundings(s.first, q), k);
  }

  lemma ShiftDrift(out: nat, base: nat, rel: nat, exact: nat)
    ensures out * (base * ONE24 + rel) == base * out * ONE24 + out * rel
    ensures (exact - base * out) * ONE24 == exact * ONE24 - base * out * ONE24
  {
  }

  lemma ColumnUnitsNear(s: Stripe, x: nat, k: nat)
    requires s.xOut > 0 && x <= 0x4000 * k && k >= 1
    ensures x * s.xSrc >= 0 && x * s.XStep() >= 0
    ensures var u := s.xOut * Units(x * s.XStep()); u - k * s.xOut <= 1024 * (x * s.xSrc) <= u + k * s.xOut
  {
    hide RoundUp24, Units;
    NatProduct(x, s.xSrc);
    NatProduct(x, s.XStep());
    PositionDrift(0, x, s.xSrc, s.xOut);
    StartAtZero(s.xSrc, s.xOut);
    assert (0 + x) * s.xSrc * ONE24 == x * s.xSrc * ONE24;
    UnitsNear(x * s.xSrc, x * s.XStep(), s.xOut, Roundings(0, x), k);
  }

  /** Values at k weight units' distance in both directions, over parts of any size. */
  lemma InterpolatedNear(f: Channel, u: nat, l: nat, d: nat, v: nat, p: nat, c: nat, k: nat)
    requires d > 0 && c > 0
    requires d * u - k * d <= 1024 * l <= d * u + k * d && c * v - k * c <= 1024 * p <= c * v + k * c
    ensures var t, e, w := InPlane(f, u, 1024, v, 1024), InPlane(f, l, d, p, c), d * c;
            0x10_0000 * e - 522240 * (k * w) <= w * t <= 0x10_0000 * e + 522240 * (k * w)
  {
    hide InPlane;
    FinerPlane(f, u, 1024, d, v, 1024, c);
    FinerPlane(f, l, d, 1024, p, c, 1024);
    NatProduct(k, d);
    NatProduct(k, c);
    PlaneContinuous(f, 1024 * l, d * u, k * d, d * 1024, 1024 * p, c * v, k * c, c * 1024);
    CommonFactor(k, d, c);
  }

  lemma CommonFactor(k: nat, d: nat, c: nat)
    ensures 255 * (k * d * (c * 1024) + k * c * (d * 1024)) == 522240 * (k * (d * c))
  {
    assert k * d * (c * 1024) == 1024 * (k * (d * c));
    assert k * c * (d * 1024) == 1024 * (k * (d * c));
  }

  /** Every sample of a stripe, as long as no more than 2^14 * k roundings lead to it in either direction, misses
      the exact bilinear value by less than k / 2 above, and k / 2 and one below. */
  lemma UpSampleNear(s: Stripe, src: seq<Byte>, q: nat, x: nat, c: nat, k: nat)
    requires 0 < s.yOut < UINT16 && s.xOut > 0
    requires Roundings(s.first, q) <= 0x4000 * k && x <= 0x4000 * k && k >= 1
    ensures var exact, out, w := Exact(s, src, q, x, c), UpRow(s, src, q).Sample(x, c), s.yOut * s.xOut;
            512 * exact - 255 * (k * w) - 512 * w < 512 * (w * out) <= 512 * exact + 255 * (k * w)
  {
    hide InPlane, Units, Stripe.Rel, Stripe.XStep, LineParts, Roundings, UpRow, ChannelOf, RoundUp24;
    NatProduct(x, s.XStep());
    NatProduct(x, s.xSrc);
    SampleIsInPlane(s, src, q, x, c);
    LineUnitsNear(s, q, k);
    ColumnUnitsNear(s, x, k);
    ProductIsPositive(s.yOut, s.xOut);
    var u, v := Units(s.Rel(q)), Units(x * s.XStep());
    InterpolatedNear(ChannelOf(src, s.ofs, c), u, LineParts(s, q), s.yOut, v, x * s.xSrc, s.xOut, k);
    NearRounded(Exact(s, src, q, x, c), InPlane(ChannelOf(src, s.ofs, c), u, 1024, v, 1024), s.yOut * s.xOut, k);
  }

  lemma NearRounded(e: int, t: int, w: int, k: nat)
    requires 0x10_0000 * e - 522240 * (k * w) <= w * t <= 0x10_0000 * e + 522240 * (k * w)
    ensures w > 0 ==> 512 * e - 255 * (k * w) - 512 * w < 512 * (w * (t / 0x10_0000)) <= 512 * e + 255 * (k * w)
  {
    if w > 0 {
      RoundedDown(w, t);
    }
  }

  lemma RoundedDown(w: int, t: int)
    requires w > 0
    ensures 0x10_0000 * (w * (t / 0x10_0000)) <= w * t < 0x10_0000 * (w * (t / 0x10_0000)) + 0x10_0000 * w
  {
    var b := t / 0x10_0000;
    MulMonotone(t - 0x10_0000 * b - 0x10_0000, w);
    MulBetween(w, 0, t - 0x10_0000 * b, 0xf_ffff);
    assert w * (t - 0x10_0000 * b) == w * t - 0x10_0000 * (w * b);
  }

  /** Pixel (line, column) has weight in sample (q, x). */
  predicate Weighs(s: Stripe, q: nat, x: nat, line: nat, column: nat)
    requires s.yOut > 0 && s.xOut > 0
  {
    NatProduct(x, s.XStep());
    var k, j := s.Rel(q) / ONE24, x * s.XStep() / ONE24;
    && (line == k || (line == k + 1 && Weight10(s.Rel(q)) > 0))
    && (column == j || (column == j + 1 && Weight10(x * s.XStep()) > 0))
  }

  ghost predicate WeighedWithin(s: Stripe, src: seq<Byte>, q: nat, x: nat, c: nat, m: nat, M: nat)
    requires s.yOut > 0 && s.xOut > 0
  {
    forall line: nat, column: nat | Weighs(s, q, x, line, column) :: m <= ChannelOf(src, s.ofs, c)(line, column) <= M
  }

  lemma SampleBetween(s: Stripe, src: seq<Byte>, q: nat, x: nat, c: nat, m: nat, M: nat)
    requires s.yOut > 0 && s.xOut > 0 && WeighedWithin(s, src, q, x, c, m, M)
    ensures m <= UpRow(s, src, q).Sample(x, c) <= M
  {
    var row := UpRow(s, src, q);
    NatProduct(x, s.XStep());
    UpColumnWords(x, s.XStep());
    hide RoundUp24, Weight10, Stripe.Rel, Stripe.XStep;
    var k, j := s.Rel(q) / ONE24, x * s.XStep() / ONE24;
    var f := ChannelOf(src, s.ofs, c);
    FourPixels(src, s.ofs, c, k, j, row.at);
    assert Weighs(s, q, x, k, j);
    assert Weight10(x * s.XStep()) > 0 ==> Weighs(s, q, x, k, j + 1);
    assert Weight10(s.Rel(q)) > 0 ==> Weighs(s, q, x, k + 1, j);
    assert Weight10(s.Rel(q)) > 0 && Weight10(x * s.XStep()) > 0 ==> Weighs(s, q, x, k + 1, j + 1);
    Up.BilinearInRange(f(k, j), f(k, j + 1), f(k + 1, j), f(k + 1, j + 1), row.WeightX(x), row.weightY, m, M);
  }

  /** The scale-up theorem.  Below 2^14 roundings in both directions and for an edge-safe width, every sample of
      a requested row weighs only pixels of the picture in the window's rows, stays in the range of those, and
      misses the exact bilinear value, which weighs only such pixels too, by less than one half above and one and
      a half below. */
  lemma UpSampleIsBilinear(s: Stripe, last: nat, src: seq<Byte>, q: nat, x: nat, c: nat, m: nat, M: nat)
    requires UpStripe(s, last) && s.first + q <= last && x < s.outWidth
    requires Roundings(s.first, q) < 0x4000 && x <= 0x4000 && EdgeSafe(s.xSrc, s.xOut)
    ensures forall line: nat, column: nat | Weighs(s, q, x, line, column) :: line < s.rows && column < s.width
    ensures WeighedWithin(s, src, q, x, c, m, M) ==> m <= UpRow(s, src, q).Sample(x, c) <= M
    ensures LineParts(s, q) <= (s.rows - 1) * s.yOut && 0 <= x * s.xSrc <= (s.width - 1) * s.xOut
    ensures var exact, out, w := Exact(s, src, q, x, c), UpRow(s, src, q).Sample(x, c), s.yOut * s.xOut;
            2 * exact - 3 * w < 2 * (w * out) < 2 * exact + w
  {
    hide RoundUp24, Ceil, Exact, LineParts, WeighedWithin, Weighs, Up.Row.Sample, Weight10, EdgeSafe;
    WeighedInPicture(s, last, src, q, x);
    if WeighedWithin(s, src, q, x, c, m, M) {
      SampleBetween(s, src, q, x, c, m, M);
    }
    ExactInPicture(s, last, q, x);
    UpSampleNear(s, src, q, x, c, 1);
    ProductIsPositive(s.yOut, s.xOut);
  }

  lemma WeighedInPicture(s: Stripe, last: nat, src: seq<Byte>, q: nat, x: nat)
    requires UpStripe(s, last) && s.first + q <= last && x < s.outWidth
    requires Roundings(s.first, q) < 0x4000 && EdgeSafe(s.xSrc, s.xOut)
    ensures forall line: nat, column: nat | Weighs(s, q, x, line, column) :: line < s.rows && column < s.width
  {
    hide RoundUp24, Ceil, Weight10, EdgeSafe;
    UpRowsInWindow(s, last, q);
    UpColumnsInImage(s, last, src, q, x);
    UpColumnWords(x, s.XStep());
    hide UpStripe, Stripe.Rel, Stripe.XStep;
  }

  lemma ExactInPicture(s: Stripe, last: nat, q: nat, x: nat)
    requires UpStripe(s, last) && s.first + q <= last && x < s.outWidth
    ensures LineParts(s, q) <= (s.rows - 1) * s.yOut && 0 <= x * s.xSrc <= (s.width - 1) * s.xOut
  {
    hide RoundUp24, Ceil, Stripe.Base;
    PartsBelow(s.first + q, last, s.ySrc, s.yOut, s.Base(), s.rows);
    MulBetween(s.xSrc, 0, x, s.xOut);
  }

  lemma PartsBelow(k: nat, last: nat, src: nat, out: nat, base: nat, rows: nat)
    requires out > 0 && k <= last && base + rows == Ceil(last * src, out) + 1 && rows > 0
    ensures k * src - base * out <= (rows - 1) * out
  {
    hide Ceil;
    CeilBounds(last * src, out);
    MulBetween(src, k, last, last);
    SplitProduct(base, rows - 1, out);
  }

  /** For all pictures, whatever the stripe: no sample misses the exact value by two or more above, or by three or
      more below. */
  lemma UpSampleIsNear(s: Stripe, last: nat, src: seq<Byte>, q: nat, x: nat, c: nat)
    requires UpStripe(s, last) && q < s.outRows && x < s.outWidth
    ensures var exact, out, w := Exact(s, src, q, x, c), UpRow(s, src, q).Sample(x, c), s.yOut * s.xOut;
            exact - 3 * w < w * out < exact + 2 * w
  {
    hide RoundUp24, Ceil, Exact, Up.Row.Sample;
    UpSampleNear(s, src, q, x, c, 4);
    ProductIsPositive(s.yOut, s.xOut);
  }
}
