/** Go's 64-bit `int` range and its integer division, which truncates toward zero
    (Dafny's own `/` on `int` is Euclidean and rounds negative quotients down). */
module GoArith {

  const MinInt64: int := -0x8000_0000_0000_0000
  const MaxInt64: int :=  0x7fff_ffff_ffff_ffff

  predicate IsInt64(n: int)
  {
    MinInt64 <= n <= MaxInt64
  }

  function Abs(n: int): nat
  {
    if n < 0 then -n else n
  }

  /** Go's `a / b` for a positive divisor: the quotient truncated toward zero.
      The remainder `a - q * b` is smaller than `b` in magnitude and never has
      the opposite sign of `a`, which is how the Go specification defines it. */
  function TruncDiv(a: int, b: int): (q: int)
    requires b > 0
    ensures -b < a - q * b < b
    ensures a >= 0 ==> 0 <= a - q * b
    ensures a <= 0 ==> a - q * b <= 0
  {
    if a >= 0 then a / b else -((-a) / b)
  }

  /** The quotient is unique: any `q` meeting the Go definition is `TruncDiv(a, b)`. */
  lemma TruncDivUnique(a: int, b: int, q: int)
    requires b > 0
    requires -b < a - q * b < b
    requires a >= 0 ==> 0 <= a - q * b
    requires a <= 0 ==> a - q * b <= 0
    ensures q == TruncDiv(a, b)
  {
    var t := TruncDiv(a, b);
    if q < t {
      assert (t - q) * b == t * b - q * b;
      MulAtLeastDivisor(t - q, b);
    } else if q > t {
      assert (q - t) * b == q * b - t * b;
      MulAtLeastDivisor(q - t, b);
    }
  }

  lemma MulAtLeastDivisor(d: int, b: int)
    requires d >= 1 && b > 0
    ensures d * b >= b
  {
    assert d * b == (d - 1) * b + b;
    assert (d - 1) * b >= 0;
  }

  /** Truncation is symmetric about zero, unlike Euclidean division. */
  lemma TruncDivOdd(a: int, b: int)
    requires b > 0
    ensures TruncDiv(-a, b) == -TruncDiv(a, b)
  {
    TruncDivUnique(-a, b, -TruncDiv(a, b));
  }

  /** Relation to Dafny's Euclidean `/`: equal for non-negative dividends and for
      exact multiples, one more (toward zero) for every other negative dividend. */
  lemma TruncDivVersusEuclid(a: int, b: int)
    requires b > 0
    ensures a >= 0 || a % b == 0 ==> TruncDiv(a, b) == a / b
    ensures a < 0 && a % b != 0 ==> TruncDiv(a, b) == a / b + 1
  {
    if a < 0 && a % b != 0 {
      TruncDivUnique(a, b, a / b + 1);
    } else if a < 0 {
      TruncDivUnique(a, b, a / b);
    }
  }

  /** A quotient of an `int64` by a divisor of at least 1 is again an `int64`. */
  lemma TruncDivInt64(a: int, b: int)
    requires b > 0 && IsInt64(a)
    ensures IsInt64(TruncDiv(a, b))
    ensures Abs(TruncDiv(a, b)) <= Abs(a)
  {
    var n := Abs(a);
    var q := n / b;
    assert n == q * b + n % b;
    MulGrows(q, b);
    assert q <= n;
    assert TruncDiv(a, b) == if a >= 0 then q else -q;
  }

  lemma MulGrows(q: nat, b: int)
    requires b > 0
    ensures q * b >= q
  {
    assert q * b == q * (b - 1) + q;
    assert q * (b - 1) >= 0;
  }
}
