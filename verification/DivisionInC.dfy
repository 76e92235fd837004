/** Division as in C: the quotient is cut off, and the remainder has the sign of the dividend. */
module DivisionInC {
  function CDiv(a: int, b: int): int
    requires b > 0
  {
    if a >= 0 then a / b else -(-a / b)
  }

  function CMod(a: int, b: int): int
    requires b > 0
  {
    if a >= 0 then a % b else -(-a % b)
  }

  lemma CDivision(a: int, b: int)
    requires b > 0
    ensures a == b * CDiv(a, b) + CMod(a, b)
    ensures if a >= 0 then 0 <= CMod(a, b) < b else -b < CMod(a, b) <= 0
  {
    if a < 0 {
      assert -a == b * (-a / b) + -a % b;
    }
  }
}
