/** Rates in units of 1 / 2 to the 32nd (math_Misc.h). */
module MathMisc {
  import opened Words

  function MakeRate(mul: U32, div: U32): U64
    requires div > 0
  {
    Quotient(mul * TWO32, div);
    mul * TWO32 / div
  }

  lemma Quotient(a: int, b: int)
    requires 0 <= a < TWO64 && b > 0
    ensures 0 <= a / b < TWO64
  {
  }

  /** The product of the halves, weighted by where they stand. */
  lemma SplitProduct(xh: int, xl: int, rh: int, rl: int)
    ensures (TWO32 * xh + xl) * (TWO32 * rh + rl)
            == TWO32 * (TWO32 * (xh * rh) + (xh * rl + rh * xl)) + xl * rl
  {
  }

  lemma RateProduct(x: S64, rate: U64)
    ensures var xh, xl, rh, rl := Shift32(x), Low32(x), Shift32(rate), Low32(rate);
            x * rate / TWO32 == TWO32 * (xh * rh) + (xh * rl + rh * xl) + xl * rl / TWO32
  {
    var xh, xl, rh, rl := Shift32(x), Low32(x), Shift32(rate), Low32(rate);
    Halves(x);
    Halves(rate);
    SplitProduct(xh, xl, rh, rl);
    var low := xl * rl;
    Halves(low);
    Floor(x * rate, TWO32, TWO32 * (xh * rh) + (xh * rl + rh * xl) + low / TWO32, low % TWO32);
  }

  lemma SignedHalves(x: U64)
    ensures ToS64(x) == TWO32 * ToS32(Shift32(x)) + Low32(x)
    ensures Shift32(ToS64(x)) == ToS32(Shift32(x)) && Low32(ToS64(x)) == Low32(x)
  {
    Halves(x);
    Floor(ToS64(x), TWO32, ToS32(Shift32(x)), Low32(x));
  }

  /** All that is kept of the sums in between is what the whole sum keeps. */
  lemma WrappedSum(a: int, b: int, c: int, d: int, e: int)
    ensures ToU64(ToU64(ToU64(ToU64(a) * b) * TWO32) + ToU64(ToU64(ToU64(a) * c) + ToU64(d)) + e)
            == ToU64(TWO32 * (a * b) + (a * c + d) + e)
  {
    WrapMultiple(a, b);
    WrapMultiple(a * b, TWO32);
    WrapMultiple(a, c);
    WrapSum(a * c, ToU64(d));
    WrapSum(d, a * c);
    WrapSum(a * b * TWO32, ToU64(a * c + d) + e);
    WrapSum(a * c + d, a * b * TWO32 + e);
  }

  /** The rounded down product with the rate, in the bits that a word has; of the sign of `x`, as a signed word. */
  function MultiplyRate(x: U64, rate: U64): (r: U64)
    ensures ToS64(r) == ToS64(ToS64(x) * rate / TWO32)
  {
    var rHi, rLo := Shift32(rate), Low32(rate);
    var xHi, xLo := ToS32(Shift32(x)), Low32(x);
    RateProductInWord(x, rate);
    ToU64(ToU64(ToU64(ToU64(xHi) * rHi) * TWO32) + ToU64(ToU64(ToU64(xHi) * rLo) + ToU64(rHi * xLo))
          + xLo * rLo / TWO32)
  }

  lemma RateProductInWord(x: U64, rate: U64)
    ensures var rHi, rLo := Shift32(rate), Low32(rate);
            var xHi, xLo := ToS32(Shift32(x)), Low32(x);
            ToS64(ToU64(ToU64(ToU64(ToU64(xHi) * rHi) * TWO32) + ToU64(ToU64(ToU64(xHi) * rLo) + ToU64(rHi * xLo))
                        + xLo * rLo / TWO32))
            == ToS64(ToS64(x) * rate / TWO32)
  {
    var rHi, rLo := Shift32(rate), Low32(rate);
    var xHi, xLo := ToS32(Shift32(x)), Low32(x);
    SignedHalves(x);
    RateProduct(ToS64(x), rate);
    hide Low32, Shift32, ToS32, ToS64, ToU64;
    InWord(ToS64(x) * rate / TWO32, xHi, rHi, rLo, rHi * xLo, xLo * rLo / TWO32);
  }

  lemma InWord(whole: int, a: int, b: int, c: int, d: int, e: int)
    requires whole == TWO32 * (a * b) + (a * c + d) + e
    ensures ToS64(ToU64(ToU64(ToU64(ToU64(a) * b) * TWO32) + ToU64(ToU64(ToU64(a) * c) + ToU64(d)) + e)) == ToS64(whole)
  {
    hide ToS64, ToU64;
    WrappedSum(a, b, c, d, e);
    ToU64Keeps(whole);
  }

  /** With a rate of 32 bits the product always fits. */
  function MultiplyRate32(x: U64, rate: U32): (r: U64)
    ensures ToS64(r) == ToS64(x) * rate / TWO32
  {
    var xHi, xLo := ToS32(Shift32(x)), Low32(x);
    Rate32Product(x, rate);
    ToU64(ToU64(ToU64(xHi) * rate) + xLo * rate / TWO32)
  }

  lemma Rate32Product(x: U64, rate: U32)
    ensures var xHi, xLo := ToS32(Shift32(x)), Low32(x);
            ToS64(ToU64(ToU64(ToU64(xHi) * rate) + xLo * rate / TWO32)) == ToS64(x) * rate / TWO32
  {
    var xHi, xLo := ToS32(Shift32(x)), Low32(x);
    SignedHalves(x);
    assert Shift32(rate) == 0 && Low32(rate) == rate;
    hide Low32, Shift32, ToS32, ToS64, ToU64;
    RateProduct(ToS64(x), rate);
    WrapMultiple(xHi, rate);
    WrapSum(xHi * rate, xLo * rate / TWO32);
    var product := ToS64(x) * rate / TWO32;
    assert product == xHi * rate + xLo * rate / TWO32;
    RateFits(ToS64(x), rate);
    ToU64Keeps(product);
    Fits(product);
  }

  lemma RateFits(x: S64, rate: U32)
    ensures -TWO63 <= x * rate / TWO32 < TWO63
  {
    if x >= 0 {
      assert 0 <= x * rate <= x * TWO32;
    } else {
      assert x * TWO32 <= x * rate <= 0;
    }
  }
}

/** Spans of time in nanoseconds (fnd_TimeSpan.h). */
module TimeSpans {
  import opened DivisionInC
  import opened Words

  lemma HighWord(xh: int, xl: int, yh: int, yl: int, q: int, r: int, zh: int, zl: int, wh: int, wl: int)
    requires xl * yl == TWO32 * q + r
    requires xh * yl + q == TWO32 * zh + zl
    requires xl * yh + zl == TWO32 * wh + wl
    ensures (TWO32 * xh + xl) * (TWO32 * yh + yl) == TWO64 * (xh * yh + zh + wh) + (TWO32 * wl + r)
  {
    assert (TWO32 * xh + xl) * (TWO32 * yh + yl)
        == TWO64 * (xh * yh) + TWO32 * (xh * yl) + TWO32 * (xl * yh) + xl * yl;
  }

  lemma Monotone(a: int, b: int, c: int)
    requires a <= b && c >= 0
    ensures a * c <= b * c
  {
  }

  /** The sums that the parts of the product go into fit into a signed word, so nothing is lost. */
  lemma PartsFit(h: S32, l: U32, q: U32)
    ensures -TWO63 <= h * l + q < TWO63
  {
    Monotone(-0x8000_0000, h, l);
    Monotone(h, 0x7FFF_FFFF, l);
  }

  lemma NothingLost(h: S32, l: U32, q: U32)
    ensures ToS64(ToU64(h * l) + q) == h * l + q && ToS64(ToU64(l * h) + q) == l * h + q
  {
    hide ToS64, ToU64;
    WrapSum(h * l, q);
    ToU64Keeps(ToU64(h * l) + q);
    ToU64Keeps(h * l + q);
    PartsFit(h, l, q);
    Fits(h * l + q);
    assert l * h == h * l;
  }

  /** The high word of the product, rounded down, for numbers of either sign. */
  function MultiplyRightShift(x: S64, y: S64): (high: S64)
    ensures high == x * y / TWO64
  {
    var xLo, xHi := Low32(x), Shift32(x);
    var yLo, yHi := Low32(y), Shift32(y);
    var z := ToS64(ToU64(xHi * yLo) + xLo * yLo / TWO32);
    var zLo, zHi := Low32(z), Shift32(z);
    var w := ToS64(ToU64(xLo * yHi) + zLo);
    Halves(x);
    Halves(y);
    HighHalf(x);
    HighHalf(y);
    HighWordFits(x, y, xHi, xLo, yHi, yLo);
    xHi * yHi + zHi + Shift32(w)
  }

  lemma HighWordFits(x: S64, y: S64, xHi: S32, xLo: U32, yHi: S32, yLo: U32)
    requires x == TWO32 * xHi + xLo && y == TWO32 * yHi + yLo
    ensures var z := ToS64(ToU64(xHi * yLo) + xLo * yLo / TWO32);
            var w := ToS64(ToU64(xLo * yHi) + Low32(z));
            xHi * yHi + Shift32(z) + Shift32(w) == x * y / TWO64 && -TWO63 <= x * y / TWO64 < TWO63
  {
    hide Low32, Shift32, ToS64, ToU64;
    LowFits(xLo, yLo);
    InWords(xHi, xLo, yHi, yLo, xLo * yLo / TWO32);
    HighWordOfParts(x, y, xHi, xLo, yHi, yLo);
    HighBound(x, y);
  }

  lemma InWords(xHi: S32, xLo: U32, yHi: S32, yLo: U32, q: U32)
    ensures var z := ToS64(ToU64(xHi * yLo) + q);
            z == xHi * yLo + q && ToS64(ToU64(xLo * yHi) + Low32(z)) == xLo * yHi + Low32(z)
  {
    hide Low32, ToS64, ToU64;
    NothingLost(xHi, yLo, q);
    NothingLost(yHi, xLo, Low32(xHi * yLo + q));
  }

  lemma HighWordOfParts(x: int, y: int, xh: int, xl: int, yh: int, yl: int)
    requires x == TWO32 * xh + xl && y == TWO32 * yh + yl
    ensures var z := xh * yl + xl * yl / TWO32;
            var w := xl * yh + Low32(z);
            xh * yh + Shift32(z) + Shift32(w) == x * y / TWO64
  {
    hide Low32, Shift32;
    var low := xl * yl;
    var z := xh * yl + low / TWO32;
    var w := xl * yh + Low32(z);
    Halves(z);
    Halves(w);
    HighWord(xh, xl, yh, yl, low / TWO32, low % TWO32, Shift32(z), Low32(z), Shift32(w), Low32(w));
    FloorOfWord(x * y, xh * yh + Shift32(z) + Shift32(w), Low32(w), low % TWO32);
  }

  lemma FloorOfWord(a: int, q: int, h: U32, l: U32)
    requires a == TWO64 * q + (TWO32 * h + l)
    ensures a / TWO64 == q
  {
    Floor(a, TWO64, q, TWO32 * h + l);
  }

  lemma LowFits(xl: U32, yl: U32)
    ensures 0 <= xl * yl / TWO32 < TWO32
  {
    Monotone(xl, TWO32 - 1, yl);
    Monotone(0, xl, yl);
  }

  lemma HighBound(x: S64, y: S64)
    ensures -TWO63 <= x * y / TWO64 < TWO63
  {
    if y >= 0 {
      Monotone(-TWO63, x, y);
      Monotone(x, TWO63, y);
    } else {
      var z: int := y;
      Monotone(-TWO63, x, -z);
      Monotone(x, TWO63, -z);
      assert x * -z == -(x * y);
    }
  }

  // ---- division by multiplication ----

  function Pow2(n: nat): int {
    if n == 0 then 1 else 2 * Pow2(n - 1)
  }

  lemma {:induction false} Pow2Positive(n: nat)
    ensures Pow2(n) > 0
  {
    if n > 0 {
      Pow2Positive(n - 1);
    }
  }

  lemma {:induction false} Pow2Plus(m: nat, n: nat)
    ensures Pow2(m + n) == Pow2(m) * Pow2(n)
  {
    if m > 0 {
      Pow2Plus(m - 1, n);
      assert 2 * (Pow2(m - 1) * Pow2(n)) == (2 * Pow2(m - 1)) * Pow2(n);
    }
  }

  lemma Pow64()
    ensures Pow2(64) == TWO64
  {
    assert Pow2(8) == 256;
    Pow2Plus(8, 8);
    Pow2Plus(16, 16);
    Pow2Plus(32, 32);
  }

  /** The number that a multiplication by `magic` stands for: its missing top bit is put back. */
  function Multiplier(magic: S64): int {
    if magic < 0 then magic + TWO64 else magic
  }

  /** Multiplying and shifting in place of dividing by `d`: the multiplier is a little too large, but not by much. */
  predicate DividesBy(magic: S64, shift: nat, d: int) {
    d > 0 && 0 < Multiplier(magic) * d - TWO64 * Pow2(shift) <= 2 * Pow2(shift)
  }

  /** The same in powers of two: the product with the divisor is above a power, by no more than twice the shift's. */
  lemma DividesByInPowers(magic: S64, shift: nat, d: int)
    ensures DividesBy(magic, shift, d)
            <==> d > 0 && Pow2(64 + shift) < Multiplier(magic) * d <= Pow2(64 + shift) + Pow2(shift + 1)
  {
    Pow64();
    Pow2Plus(64, shift);
    hide Pow2;
    Doubled(shift);
  }

  lemma Doubled(n: nat)
    ensures Pow2(n + 1) == 2 * Pow2(n)
  {
  }

  function DivideNanoSeconds(nanoSeconds: S64, magic: S64, rightShift: nat): S64 {
    var n := MultiplyRightShift(nanoSeconds, magic);
    var m := if magic < 0 then ToS64(n + nanoSeconds) else n;
    Pow2Positive(rightShift);
    var s := m / Pow2(rightShift);
    ToS64(s + ToU64(nanoSeconds) / TWO63)
  }

  /** With a fitting multiplier the quotient is that of C, for every span of either sign. */
  lemma DividesLikeC(nanoSeconds: S64, magic: S64, rightShift: nat, d: int)
    requires DividesBy(magic, rightShift, d)
    ensures DivideNanoSeconds(nanoSeconds, magic, rightShift) == CDiv(nanoSeconds, d)
  {
    hide ToS64, ToU64, Pow2, MultiplyRightShift, Multiplier, CDiv;
    var m, p := Multiplier(magic), Pow2(rightShift);
    Pow2Positive(rightShift);
    MultipliedHigh(nanoSeconds, magic);
    NestedFloor(nanoSeconds * m, TWO64, p);
    SignBit(nanoSeconds);
    QuotientByMultiplier(nanoSeconds, m, TWO64 * p, d);
    QuotientFits(nanoSeconds, d);
    Fits(CDiv(nanoSeconds, d));
  }

  lemma SignBit(x: S64)
    ensures ToU64(x) / TWO63 == if x < 0 then 1 else 0
  {
  }

  lemma QuotientFits(n: S64, d: int)
    requires d > 0
    ensures -TWO63 <= CDiv(n, d) < TWO63
  {
    CDivision(n, d);
    Monotone(1, d, if CDiv(n, d) >= 0 then CDiv(n, d) else -CDiv(n, d));
  }

  /** The high word of the product with the whole multiplier: the addition for the missing bit does not overflow. */
  lemma MultipliedHigh(n: S64, magic: S64)
    ensures var h := MultiplyRightShift(n, magic);
            (if magic < 0 then ToS64(h + n) else h) == n * Multiplier(magic) / TWO64
  {
    hide ToS64, ToU64;
    if magic < 0 {
      WithTopBit(n, magic);
      WholeFits(n, magic + TWO64);
      Fits(n * magic / TWO64 + n);
    }
  }

  lemma WithTopBit(n: int, magic: int)
    ensures n * (magic + TWO64) / TWO64 == n * magic / TWO64 + n
  {
    var a := n * magic;
    assert n * (magic + TWO64) == a + TWO64 * n;
    Floor(a + TWO64 * n, TWO64, a / TWO64 + n, a % TWO64);
  }

  lemma WholeFits(n: S64, m: U64)
    ensures -TWO63 <= n * m / TWO64 < TWO63
  {
    Monotone(-TWO63, n, m);
    Monotone(n, TWO63 - 1, m);
  }

  lemma NestedFloor(a: int, b: int, c: int)
    requires b > 0 && c > 0
    ensures b * c > 0 && a / b / c == a / (b * c)
  {
    var q, r := a / b, a % b;
    var s, t := q / c, q % c;
    assert a == b * q + r && q == c * s + t;
    Monotone(t, c - 1, b);
    Monotone(0, t, b);
    Monotone(1, c, b);
    assert a == (b * c) * s + (b * t + r);
    Floor(a, b * c, s, b * t + r);
  }

  /** What is left over when the multiplier is a little too large stays below one part in `d`. */
  lemma Excess(k: int, m: int, p: int, d: int, q: int, r: int)
    requires d > 0 && p > 0 && 0 < m * d - p && (m * d - p) * TWO63 <= p
    requires k == d * q + r && 0 <= r < d && 0 <= k <= TWO63
    ensures 0 <= k * m - q * p <= p
    ensures k > 0 ==> 0 < k * m - q * p
    ensures k < TWO63 ==> k * m - q * p < p
  {
    var e := m * d - p;
    var t := k * m - q * p;
    TimesDivisor(k, m, p, d, q, r);
    RestBelow(p, d, r);
    Monotone(0, k, e);
    Monotone(k, TWO63, e);
    if k > 0 {
      Monotone(1, k, e);
    }
    if k < TWO63 {
      Monotone(k, TWO63 - 1, e);
    }
    Bounded(d, t, p);
  }

  lemma TimesDivisor(k: int, m: int, p: int, d: int, q: int, r: int)
    requires k == d * q + r
    ensures d * (k * m - q * p) == r * p + k * (m * d - p)
  {
    assert d * (k * m) == k * (m * d);
    assert k * p == d * (q * p) + r * p;
  }

  lemma RestBelow(p: int, d: int, r: int)
    requires 0 <= r < d && p > 0
    ensures 0 <= r * p <= d * p - p
  {
    Monotone(r, d - 1, p);
    Monotone(0, r, p);
    assert d * p == (d - 1) * p + p;
  }

  lemma Bounded(d: int, t: int, p: int)
    requires d > 0 && 0 <= d * t <= d * p
    ensures 0 <= t <= p && (d * t > 0 ==> t > 0) && (d * t < d * p ==> t < p)
  {
    AtLeastOnce(d, t);
    AtLeastOnce(d, t - p);
    assert d * (t - p) == d * t - d * p;
  }

  lemma QuotientByMultiplier(n: S64, m: int, p: int, d: int)
    requires d > 0 && p > 0 && 0 < m * d - p && (m * d - p) * TWO63 <= p
    ensures n * m / p + (if n < 0 then 1 else 0) == CDiv(n, d)
  {
    if n >= 0 {
      Excess(n, m, p, d, n / d, n % d);
      FromZero(n * m, p, n / d);
    } else {
      var k: int := n;
      k := -k;
      Excess(k, m, p, d, k / d, k % d);
      BelowZero(n, m, p, k, k / d);
    }
  }

  lemma FromZero(a: int, p: int, q: int)
    requires p > 0 && 0 <= a - q * p < p
    ensures a / p == q
  {
    Floor(a, p, q, a - q * p);
  }

  lemma BelowZero(n: int, m: int, p: int, k: int, q: int)
    requires k == -n && p > 0 && 0 < k * m - q * p <= p
    ensures n * m / p == -q - 1
  {
    assert n * m == -(k * m);
    assert (-q - 1) * p == -(q * p) - p;
    FromZero(n * m, p, -q - 1);
  }

  /** For every divisor from 2 on there is such a multiplier: the smallest shift that fits has one. */
  lemma SomeMagicDivides(d: int, s: nat) returns (magic: S64)
    requires Pow2(s) < d <= 2 * Pow2(s) && d <= TWO63
    ensures DividesBy(magic, s, d)
  {
    var p := TWO64 * Pow2(s);
    var m := p / d + 1;
    Pow2Positive(s);
    assert p == d * (p / d) + p % d;
    assert m * d == d * (p / d) + d;
    assert 0 < m < TWO64 by {
      Monotone(Pow2(s) + 1, d, TWO64);
      var q := p / d;
      assert (TWO64 - 1) * d == TWO64 * d - d;
      if q >= TWO64 - 1 {
        Monotone(TWO64 - 1, q, d);
        assert false;
      }
    }
    magic := if m < TWO63 then m else m - TWO64;
  }
}

/** Ticks of the processor and nanoseconds (os_Tick.h). */
module Ticks {
  import opened MathMisc
  import opened Words

  const TICKS_PER_SECOND := 134055928
  const NANOSECONDS := 1000 * 1000 * 1000

  const TICK_RATE: U32 := 575765826
  const NANOSECOND_RATE: U64 := 32038622685

  lemma RatesAreMade()
    ensures TICK_RATE == MakeRate(TICKS_PER_SECOND, NANOSECONDS)
    ensures NANOSECOND_RATE == MakeRate(NANOSECONDS, TICKS_PER_SECOND)
  {
  }

  function FromTimeSpan(nanoSeconds: S64): S64 {
    ToS64(MultiplyRate32(ToU64(nanoSeconds), TICK_RATE))
  }

  function ToTimeSpan(tick: S64): S64 {
    ToS64(MultiplyRate(ToU64(tick), NANOSECOND_RATE))
  }

  /** Whether the nanoseconds of a number of ticks fit into the word. */
  predicate NotTooMany(tick: S64) {
    -TWO63 * TWO32 <= tick * NANOSECOND_RATE < TWO63 * TWO32
  }

  lemma FloorBounds(a: int)
    ensures TWO32 * (a / TWO32) <= a < TWO32 * (a / TWO32) + TWO32
  {
  }

  lemma TicksOf(nanoSeconds: S64)
    ensures var tick := FromTimeSpan(nanoSeconds);
            TWO32 * tick <= nanoSeconds * TICK_RATE < TWO32 * tick + TWO32
  {
    hide MultiplyRate32, ToS64, ToU64;
    Fits(nanoSeconds);
    FloorBounds(nanoSeconds * TICK_RATE);
    assert ToS64(MultiplyRate32(ToU64(nanoSeconds), TICK_RATE)) == nanoSeconds * TICK_RATE / TWO32;
  }

  lemma NanoSecondsOf(tick: S64)
    requires NotTooMany(tick)
    ensures var back := ToTimeSpan(tick);
            TWO32 * back <= tick * NANOSECOND_RATE < TWO32 * back + TWO32
  {
    hide MultiplyRate, ToS64, ToU64;
    Fits(tick);
    FloorBounds(tick * NANOSECOND_RATE);
    Fits(tick * NANOSECOND_RATE / TWO32);
    assert ToS64(MultiplyRate(ToU64(tick), NANOSECOND_RATE)) == ToS64(tick * NANOSECOND_RATE / TWO32);
  }

  /** The ticks of a span are never too many. */
  lemma NeverTooMany(nanoSeconds: S64)
    ensures NotTooMany(FromTimeSpan(nanoSeconds))
  {
    hide FromTimeSpan;
    TicksOf(nanoSeconds);
  }

  /** There and back again: time is lost, but no more than 8 parts in 2 to the 32nd and 9 nanoseconds. */
  lemma ThereAndBack(nanoSeconds: S64)
    requires nanoSeconds >= 0
    ensures var back := ToTimeSpan(FromTimeSpan(nanoSeconds));
            0 <= nanoSeconds - back && TWO32 * (nanoSeconds - back) < 8 * nanoSeconds + 9 * TWO32
  {
    hide FromTimeSpan, ToTimeSpan, NotTooMany;
    NeverTooMany(nanoSeconds);
    TicksOf(nanoSeconds);
    NanoSecondsOf(FromTimeSpan(nanoSeconds));
  }

  /** Times before zero come back within the same bounds, on the other side of the rounding. */
  lemma ThereAndBackBelowZero(nanoSeconds: S64)
    requires nanoSeconds < 0
    ensures var back := ToTimeSpan(FromTimeSpan(nanoSeconds));
            -9 < back - nanoSeconds && TWO32 * (back - nanoSeconds) < -8 * nanoSeconds
  {
    hide FromTimeSpan, ToTimeSpan, NotTooMany;
    NeverTooMany(nanoSeconds);
    TicksOf(nanoSeconds);
    NanoSecondsOf(FromTimeSpan(nanoSeconds));
  }

  /** Neither conversion changes the order of times, as long as they fit. */
  lemma OrderKept(a: S64, b: S64)
    requires a <= b
    ensures FromTimeSpan(a) <= FromTimeSpan(b)
    ensures NotTooMany(a) && NotTooMany(b) ==> ToTimeSpan(a) <= ToTimeSpan(b)
  {
    hide FromTimeSpan, ToTimeSpan, NotTooMany;
    TicksOf(a);
    TicksOf(b);
    if NotTooMany(a) && NotTooMany(b) {
      NanoSecondsOf(a);
      NanoSecondsOf(b);
    }
  }
}
