/** The scaler's 32.32 fixed-point ratios.

    Every factor and start position of the scaler is a ratio of two image dimensions held as a
    whole part and a 32-bit fraction whose low 8 bits are always zero, so all of them are
    multiples of 2^-24.  This module works in those units ("Q24").
 */
module FixedPoint {
  import opened Common

  const ONE24: int := 0x100_0000
  const UINT16: int := 0x1_0000

  datatype FractionMode = FractionRoundUp | FractionTruncate

  /** A `float64_t`: whole part and 32-bit fraction. */
  datatype Fixed = Fixed(decimal: nat, fraction: nat)

  /** The 64-bit word the scaler packs a Fixed into. */
  function Word(f: Fixed): nat {
    f.decimal * UINT32 + f.fraction
  }

  /** The ratio n/d in Q24, as truncation delivers it. */
  function Trunc24(n: nat, d: nat): nat
    requires d > 0
  {
    n * ONE24 / d
  }

  /** The ratio n/d in Q24, as the scaler's round-up mode delivers it: exact when d divides n, and
      otherwise always one unit above the floor, even when n/d is a multiple of 2^-24. */
  function RoundUp24(n: nat, d: nat): nat
    requires d > 0
  {
    if n % d == 0 then n / d * ONE24 else n * ONE24 / d + 1
  }

  function Ceil(n: nat, d: nat): nat
    requires d > 0
  {
    (n + d - 1) / d
  }

  lemma MulMonotone(e: int, d: int)
    requires d > 0
    ensures e >= 1 ==> e * d >= d
    ensures e <= -1 ==> e * d <= -d
  {
  }

  lemma NatProduct(a: nat, b: nat)
    ensures a * b >= 0
  {
  }

  lemma SplitProduct(a: nat, b: nat, c: nat)
    ensures a * c >= 0 && b * c >= 0 && (a + b) * c == a * c + b * c
  {
  }

  lemma NextMultiple(x: nat, d: nat)
    ensures (x + 1) * d == x * d + d
  {
  }

  lemma DivMul(q: int, d: int, r: int)
    requires d > 0 && 0 <= r < d
    ensures (q * d + r) / d == q && (q * d + r) % d == r
  {
    var x := q * d + r;
    var e := x / d - q;
    assert e * d == r - x % d;
    MulMonotone(e, d);
  }

  lemma SmallMod(x: nat, modulus: nat)
    requires x < modulus
    ensures x % modulus == x
  {
    DivMul(0, modulus, x);
  }

  lemma ModAdd(a: nat, b: nat, size: nat)
    requires size > 0
    ensures (a % size + b) % size == (a + b) % size
  {
    var q, p := a / size, (a % size + b) / size;
    var r := (a % size + b) % size;
    assert a == q * size + a % size && a % size + b == p * size + r;
    assert a + b == (q + p) * size + r;
    DivMul(q + p, size, r);
  }

  lemma ModMod(n: nat, modulus: nat, d: nat)
    requires d > 0 && modulus > 0 && modulus % d == 0
    ensures n % modulus % d == n % d
  {
    var q, p, r := n / modulus, n % modulus / d, n % modulus % d;
    var m := modulus / d;
    assert n == q * modulus + n % modulus && n % modulus == p * d + r && modulus == m * d;
    assert q * modulus == q * m * d;
    assert n == (q * m + p) * d + r;
    DivMul(q * m + p, d, r);
  }

  lemma CeilBounds(n: nat, d: nat)
    requires d > 0
    ensures n <= Ceil(n, d) * d < n + d
    ensures n % d == 0 ==> Ceil(n, d) == n / d && Ceil(n, d) * d == n
    ensures n % d != 0 ==> Ceil(n, d) == n / d + 1 && Ceil(n, d) * d >= n + 1
  {
    var q, r := n / d, n % d;
    assert n == q * d + r;
    if r == 0 {
      DivMul(q, d, d - 1);
    } else {
      DivMul(q + 1, d, r - 1);
      assert (q + 1) * d + (r - 1) == n + d - 1;
    }
  }

  /** The whole error analysis of the scaler rests on this: a rounded-up ratio is at least the true
      one and exceeds it by at most one unit; it is exact precisely when the division is. */
  lemma RoundUp24Error(n: nat, d: nat)
    requires d > 0
    ensures n * ONE24 <= d * RoundUp24(n, d) <= n * ONE24 + d
    ensures d * RoundUp24(n, d) == n * ONE24 <==> n % d == 0
    ensures n % d != 0 ==> d * RoundUp24(n, d) == n * ONE24 + d - n * ONE24 % d
  {
    var q, r := n / d, n % d;
    assert n == q * d + r;
    if r == 0 {
      assert d * (q * ONE24) == n * ONE24;
    } else {
      var x := n * ONE24;
      assert x == x / d * d + x % d;
      assert d * (x / d + 1) == x - x % d + d;
    }
  }

  /** Splitting a ratio into whole part and remainder before scaling does not change its floor. */
  lemma SplitFloor(n: nat, d: nat)
    requires d > 0
    ensures n * ONE24 / d == n / d * ONE24 + n % d * ONE24 / d
    ensures 0 <= n % d * ONE24 / d < ONE24
  {
    var q, r := n / d, n % d;
    assert n == q * d + r;
    var y := r * ONE24;
    assert y == y / d * d + y % d;
    calc {
      n * ONE24;
      (q * d) * ONE24 + y;
      (q * ONE24) * d + y / d * d + y % d;
      (q * ONE24 + y / d) * d + y % d;
    }
    DivMul(q * ONE24 + y / d, d, y % d);
    assert (y / d - ONE24) * d < 0;
  }

  /** `1 << i`. */
  function Bit(i: nat): (b: nat)
    ensures b >= 1
  {
    if i == 0 then 1 else 2 * Bit(i - 1)
  }

  lemma Bit24()
    ensures Bit(24) == ONE24
  {
    assert Bit(8) == 256;
    assert Bit(16) == 65536;
  }

  lemma BitStep(i: nat)
    ensures Bit(i + 1) == 2 * Bit(i)
  {
  }

  lemma Bit0()
    ensures Bit(0) == 1
  {
  }

  /** One step of the long division keeps  whole == quotient * den + remainder * weight. */
  lemma DivisionStep(whole: int, fract: nat, den: nat, rem: nat, b: nat)
    requires whole == fract * den + rem * (2 * b)
    ensures whole == fract * den + (rem * 2) * b
    ensures whole == (fract + b) * den + (rem * 2 - den) * b
  {
  }

  lemma FloorFromDivision(whole: int, fract: nat, den: nat, rem: nat)
    requires 0 < den
    requires (0 < rem < den && whole == fract * den + rem) || (rem == den && whole == fract * den)
    ensures whole / den == fract
  {
    DivMul(fract, den, if rem == den then 0 else rem);
  }

  /** The bitwise long division of `_scaler_fraction_part`: 24 doublings of the remainder.  It ends
      either with the floor and a remainder in 1..den-1, or early on `iRem == iDen` with an exact
      quotient and the remainder left at den: never with remainder zero. */
  method LongDivision(rem0: nat, den: nat) returns (fract: nat, rem: nat)
    requires 0 < rem0 < den <= 0x8000_0000
    ensures 0 < rem <= den
    ensures rem == den ==> rem0 * ONE24 == fract * den
    ensures rem < den ==> rem0 * ONE24 == fract * den + rem
  {
    hide Bit;
    fract, rem := 0, rem0;
    Bit24();
    Bit0();
    var i := 23;
    while i >= 0
      invariant -1 <= i <= 23
      invariant 0 < rem < den
      invariant rem0 * ONE24 == fract * den + rem * Bit(i + 1)
      decreases i
    {
      BitStep(i);
      DivisionStep(rem0 * ONE24, fract, den, rem, Bit(i));
      assert rem * 2 % UINT32 == rem * 2;
      rem := rem * 2 % UINT32;
      if rem == den {
        fract := fract + Bit(i);
        return;
      } else if rem > den {
        fract := fract + Bit(i);
        rem := rem - den;
      }
      i := i - 1;
    }
  }

  /** The rounded-up fraction of n/d with its carry: zero for a whole ratio, and otherwise one unit of
      2^-24 above the floor. */
  ghost predicate RoundedFraction(n: nat, d: nat, fraction: nat, overflow: bool)
    requires d > 0
  {
    if n % d == 0 then !overflow && fraction == 0
    else (if overflow then UINT32 else 0) + fraction == 256 * (n % d * ONE24 / d + 1)
  }

  /** `_scaler_fraction_part`.  Because the remainder is never zero after the division, the test for a
      zero remainder in the source never fires and rounding up adds one unit to every non-zero
      fraction, carrying out when the 24 bits are all ones.  Denominators are image dimensions;
      above 2^31 the doubled remainder would wrap. */
  method FractionPart(num: nat, den: nat, mode: FractionMode) returns (fraction: nat, overflow: bool)
    requires num < UINT32
    requires 0 < den <= 0x8000_0000
    ensures mode == FractionTruncate ==> !overflow && fraction == 256 * (num % den * ONE24 / den)
    ensures mode == FractionRoundUp ==> RoundedFraction(num, den, fraction, overflow)
    ensures fraction < UINT32
  {
    SplitFloor(num, den);
    if num % den == 0 {
      return 0, false;
    }
    var fract, rem := LongDivision(num % den, den);
    FloorFromDivision(num % den * ONE24, fract, den, rem);
    if mode == FractionTruncate {
      return fract * 256, false;
    } else if fract < 0x00ff_ffff {
      fract := fract + 1;
      return fract * 256, false;
    } else {
      return 0, true;
    }
  }

  function Whole(n: nat, d: nat): nat
    requires d > 0
  {
    n / d
  }

  /** Whole part plus fraction plus carry is the rounded-up ratio, exactly. */
  lemma Recompose(n: nat, d: nat, fraction: nat, overflow: bool)
    requires d > 0
    requires RoundedFraction(n, d, fraction, overflow)
    ensures Word(Fixed(Whole(n, d) + (if overflow then 1 else 0), fraction)) == 256 * RoundUp24(n, d)
  {
    SplitFloor(n, d);
  }

  /** A whole rounded-up ratio as the callers assemble it. */
  method RoundedRatio(num: nat, den: nat) returns (f: Fixed)
    requires num < UINT32
    requires 0 < den <= 0x8000_0000
    ensures Word(f) == 256 * RoundUp24(num, den)
    ensures f.fraction < UINT32
  {
    hide *;
    var fraction, overflow := FractionPart(num, den, FractionRoundUp);
    Recompose(num, den, fraction, overflow);
    var decimal := Whole(num, den);
    if overflow {
      decimal := decimal + 1;
    }
    f := Fixed(decimal, fraction);
  }

  lemma RecomposeTruncated(n: nat, d: nat, fraction: nat)
    requires d > 0 && fraction == 256 * (n % d * ONE24 / d)
    ensures Word(Fixed(Whole(n, d), fraction)) == 256 * Trunc24(n, d)
  {
    SplitFloor(n, d);
  }

  /** A truncated ratio as the callers assemble it. */
  method TruncatedRatio(num: nat, den: nat) returns (f: Fixed)
    requires num < UINT32
    requires 0 < den <= 0x8000_0000
    ensures Word(f) == 256 * Trunc24(num, den)
    ensures f.fraction < UINT32
  {
    hide *;
    var fraction, overflow := FractionPart(num, den, FractionTruncate);
    RecomposeTruncated(num, den, fraction);
    f := Fixed(Whole(num, den), fraction);
  }
}
