/**
 * Java's integer division `/` truncates toward zero and its remainder `%`
 * takes the sign of the dividend, while Dafny's are Euclidean (the remainder
 * is never negative). Euclid's algorithm and the least common multiple in the
 * circle detection apply them to arbitrary `long` values, so the model keeps
 * Java's meaning.
 */
module JavaInt {

  function Abs(a: int): nat {
    if a < 0 then -a else a
  }

  /** Java's `a % b`: the remainder of `|a|` by `|b|`, carrying the sign of `a`. */
  function Rem(a: int, b: int): (r: int)
    requires b != 0
    ensures a >= 0 && b > 0 ==> r == a % b
    ensures Abs(r) < Abs(b)
    ensures a >= 0 ==> r >= 0
    ensures a < 0 ==> r <= 0
  {
    if a >= 0 then a % Abs(b) else -((-a) % Abs(b))
  }

  /** Java's `a / b`: the quotient of `|a|` by `|b|`, negative when the signs differ. */
  function Div(a: int, b: int): (r: int)
    requires b != 0
    ensures a >= 0 && b > 0 ==> r == a / b
    ensures r * b + Rem(a, b) == a
  {
    if (a >= 0) == (b > 0) then Abs(a) / Abs(b) else -(Abs(a) / Abs(b))
  }
}
