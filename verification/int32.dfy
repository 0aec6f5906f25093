/**
 Go's `int32` arithmetic: two's-complement wrap-around on overflow and
 division that truncates toward zero.
 */
module Int32 {

  const Min: int := -0x8000_0000
  const Max: int := 0x7fff_ffff
  const Modulus: int := 0x1_0000_0000

  predicate InRange(x: int) {
    Min <= x <= Max
  }

  function Abs(x: int): nat {
    if x < 0 then -x else x
  }

  /** The int32 that an exact result wraps around to: the one value in
      range that is congruent to it modulo 2^32. */
  function Wrap(x: int): (r: int)
    ensures InRange(r)
    ensures (x - r) % Modulus == 0
    ensures InRange(x) ==> r == x
  {
    (x - Min) % Modulus + Min
  }

  /** `a / b` on Go integers: the quotient rounded toward zero, so that the
      remainder is smaller than the divisor and takes the dividend's sign. */
  function Quot(a: int, b: int): (q: int)
    requires b != 0
    ensures Abs(a - b * q) < Abs(b)
    ensures a - b * q == 0 || (a - b * q < 0 <==> a < 0)
  {
    var n := Abs(a) / Abs(b);
    QuotRemainder(a, b, n, Abs(a) % Abs(b));
    if (a < 0) == (b < 0) then n else -n
  }

  /** The four sign cases of truncated division, from Euclidean division
      of the magnitudes. */
  lemma QuotRemainder(a: int, b: int, n: int, r: int)
    requires b != 0
    requires Abs(a) == Abs(b) * n + r && 0 <= r < Abs(b)
    ensures var q := if (a < 0) == (b < 0) then n else -n;
      a - b * q == (if a < 0 then -r else r)
  {
  }
}
