/** The C++ integer semantics the rasterizer depends on. */
module CTypes {

  import opened Arith

  /** A `char` of std::string under MSVC: a signed 8-bit value. */
  type CChar = c: int | -128 <= c < 128

  /** C++ `/` and `%` on int, which truncate toward zero: the quotient
      times b never passes a on the far side of zero and falls short of it
      by less than b. */
  function TruncDiv(a: int, b: int): (q: int)
    requires b > 0
    ensures a >= 0 ==> 0 <= q * b <= a < q * b + b
    ensures a < 0 ==> q * b - b < a <= q * b <= 0
  {
    if a >= 0 then
      QuotientBounds(a, b);
      a / b
    else
      QuotientBounds(-a, b);
      NegMul((-a) / b, b);
      -((-a) / b)
  }

  /** The remainder has the sign of a and is smaller than b in size. */
  function TruncMod(a: int, b: int): (m: int)
    requires b > 0
    ensures a >= 0 ==> 0 <= m < b
    ensures a < 0 ==> -b < m <= 0
  {
    a - b * TruncDiv(a, b)
  }

  lemma TruncDivMod(a: int, b: int)
    requires b > 0
    ensures a == b * TruncDiv(a, b) + TruncMod(a, b)
    ensures a >= 0 ==> TruncDiv(a, b) == a / b && TruncMod(a, b) == a % b
    ensures a < 0 ==> TruncDiv(a, b) <= 0 && -b < TruncMod(a, b) <= 0
  {
    if a < 0 {
      assert -a == b * ((-a) / b) + (-a) % b;
    }
  }
}
