/** Words of 32 and 64 bits: what is kept of a number that does not fit. */
module Words {
  const TWO32 := 0x1_0000_0000
  const TWO63 := 0x8000_0000_0000_0000
  const TWO64 := 0x1_0000_0000_0000_0000

  type U32 = x: int | 0 <= x < TWO32
  type U64 = x: int | 0 <= x < TWO64
  type S32 = x: int | -0x8000_0000 <= x < 0x8000_0000
  type S64 = x: int | -TWO63 <= x < TWO63

  function ToU64(x: int): U64 {
    x % TWO64
  }

  function ToS64(x: int): S64 {
    var r := x % TWO64;
    if r < TWO63 then r else r - TWO64
  }

  function ToS32(x: int): S32 {
    var r := x % TWO32;
    if r < 0x8000_0000 then r else r - TWO32
  }

  /** The shift to the right of a number of either sign. */
  function Shift32(x: int): int {
    x / TWO32
  }

  function Low32(x: int): U32 {
    x % TWO32
  }

  lemma Fits(x: S64)
    ensures ToS64(x) == x && ToS64(ToU64(x)) == x
  {
  }

  lemma Remainder(x: int, q: int, r: int)
    requires x == TWO64 * q + r && 0 <= r < TWO64
    ensures x % TWO64 == r
  {
  }

  lemma SameWord(x: int, y: int, k: int)
    requires x == y + TWO64 * k
    ensures ToU64(x) == ToU64(y) && ToS64(x) == ToS64(y)
  {
    Remainder(x, y / TWO64 + k, y % TWO64);
  }

  lemma ToU64Keeps(x: int)
    ensures ToS64(ToU64(x)) == ToS64(x) && ToU64(ToS64(x)) == ToU64(x)
  {
    SameWord(ToS64(x), x, if x % TWO64 < TWO63 then -(x / TWO64) else -(x / TWO64) - 1);
  }

  lemma HighHalf(x: S64)
    ensures -0x8000_0000 <= Shift32(x) < 0x8000_0000
  {
  }

  lemma Halves(x: int)
    ensures x == TWO32 * Shift32(x) + Low32(x)
  {
  }

  lemma Floor(a: int, b: int, q: int, r: int)
    requires b > 0 && a == b * q + r && 0 <= r < b
    ensures a / b == q
  {
    var d := a / b - q;
    assert a == b * (a / b) + a % b;
    assert b * d == r - a % b;
    AtLeastOnce(b, d);
  }

  lemma AtLeastOnce(b: int, d: int)
    requires b > 0
    ensures (d > 0 ==> b * d >= b) && (d < 0 ==> b * d <= -b)
  {
  }

  lemma WrapMultiple(a: int, b: int)
    ensures ToU64(ToU64(a) * b) == ToU64(a * b)
  {
    var k := a / TWO64;
    assert a * b == (TWO64 * k + ToU64(a)) * b == TWO64 * (k * b) + ToU64(a) * b;
    SameWord(a * b, ToU64(a) * b, k * b);
  }

  lemma WrapSum(a: int, b: int)
    ensures ToU64(ToU64(a) + b) == ToU64(a + b)
  {
    SameWord(a + b, ToU64(a) + b, a / TWO64);
  }
}
