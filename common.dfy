/** Helpers shared by the per-day modules: an optional value, integer
    absolute value and sign, Rust's truncating division and remainder,
    `div_floor`, and decimal digit strings. */
module Common {

  datatype Option<T> = None | Some(value: T)

  /** An unsigned 8-bit value, as the sources read their inputs. */
  type Byte = b: int | 0 <= b < 256

  function Abs(x: int): (r: nat)
    ensures r == x || r == -x
  {
    if x < 0 then -x else x
  }

  /** -1, 0 or 1, as Rust's `signum`. */
  function Sign(x: int): (r: int)
    ensures x > 0 ==> r == 1
    ensures x == 0 ==> r == 0
    ensures x < 0 ==> r == -1
  {
    if x > 0 then 1 else if x < 0 then -1 else 0
  }

  /** Rust's `/` on signed integers: the quotient is rounded toward zero. */
  function TruncDiv(a: int, b: int): (q: int)
    requires b != 0
    ensures a >= 0 && b > 0 ==> q == a / b
    ensures (a >= 0) == (b > 0) || a == 0 ==> q >= 0
    ensures (a >= 0) != (b > 0) ==> q <= 0
  {
    if a >= 0 then
      (if b > 0 then a / b else -(a / -b))
    else
      (if b > 0 then -((-a) / b) else (-a) / (-b))
  }

  /** Rust's `%` on signed integers: the remainder takes the sign of the
      dividend, and `a == b * TruncDiv(a, b) + TruncRem(a, b)`. */
  function TruncRem(a: int, b: int): (r: int)
    requires b != 0
    ensures a == b * TruncDiv(a, b) + r
    ensures a >= 0 ==> 0 <= r < Abs(b)
    ensures a <= 0 ==> r <= 0 && r + Abs(b) > 0
  {
    TruncRemFacts(a, b);
    a - b * TruncDiv(a, b)
  }

  lemma TruncRemFacts(a: int, b: int)
    requires b != 0
    ensures a >= 0 ==> 0 <= a - b * TruncDiv(a, b) < Abs(b)
    ensures a <= 0 ==> a - b * TruncDiv(a, b) <= 0 && a - b * TruncDiv(a, b) + Abs(b) > 0
  {
    var q := TruncDiv(a, b);
    var na: int, nb: int := Abs(a), Abs(b);
    var m := na / nb;
    EuclidFacts(na, nb);
    if a >= 0 && b > 0 {
      assert q == m && a == na && b == nb;
    } else if a >= 0 {
      assert q == -m && a == na && b == -nb;
      assert b * q == nb * m;
    } else if b > 0 {
      assert q == -m && a == -na && b == nb;
      assert b * q == -(nb * m);
    } else {
      assert q == m && a == -na && b == -nb;
      assert b * q == -(nb * m);
    }
  }

  lemma EuclidFacts(a: int, b: int)
    requires a >= 0 && b > 0
    ensures b * (a / b) + a % b == a && 0 <= a % b < b && a / b >= 0
  {
  }

  /** For a non-negative dividend and a positive divisor, Rust's `%` and
      Dafny's Euclidean `%` agree. */
  lemma TruncRemNonNegative(a: int, b: int)
    requires a >= 0 && b > 0
    ensures TruncRem(a, b) == a % b && TruncDiv(a, b) == a / b
  {
  }

  /** Truncating division undoes an exact multiplication. */
  lemma TruncDivOfProduct(a: int, k: int)
    requires k != 0
    ensures TruncDiv(a * k, k) == a
  {
    var p := a * k;
    var q, r := TruncDiv(p, k), TruncRem(p, k);
    assert Abs(r) < Abs(k);
    assert k * (a - q) == r by {
      assert k * a == p;
      MulSub(k, a, q);
    }
    if a != q {
      MulAbsAtLeast(k, a - q);
      assert false;
    }
  }

  /** Floor division undoes an exact multiplication. */
  lemma FloorDivOfProduct(a: int, k: int)
    requires k != 0
    ensures FloorDiv(a * k, k) == a
  {
    var p := a * k;
    var f := FloorDiv(p, k);
    assert k * (a - f) == p - k * f by {
      assert k * a == p;
      MulSub(k, a, f);
    }
    assert Abs(p - k * f) < Abs(k);
    if a != f {
      MulAbsAtLeast(k, a - f);
      assert false;
    }
  }

  lemma ProductNonNegative(a: int, b: int)
    requires a >= 0 && b >= 0
    ensures a * b >= 0
  {
  }

  lemma MulSub(k: int, a: int, b: int)
    ensures k * (a - b) == k * a - k * b
  {
  }

  /** A non-zero multiple of `k` is at least as large as `k` in magnitude. */
  lemma MulAbsAtLeast(k: int, d: int)
    requires d != 0
    ensures Abs(k * d) >= Abs(k)
  {
    var ak, ad: int := Abs(k), Abs(d);
    assert ak * ad == ak * (ad - 1) + ak;
    assert ak * (ad - 1) >= 0;
    if (k >= 0) == (d >= 0) {
      assert k * d == ak * ad;
    } else {
      assert k * d == -(ak * ad);
    }
  }

  /** Rust's `div_floor`: the quotient is rounded toward negative infinity. */
  function FloorDiv(a: int, b: int): (q: int)
    requires b != 0
    ensures b > 0 ==> b * q <= a < b * q + b
    ensures b < 0 ==> b * q >= a > b * q + b
  {
    if b > 0 then a / b else (-a) / (-b)
  }

  predicate IsDigit(c: char)
  {
    '0' <= c <= '9'
  }

  function DigitValue(c: char): (d: nat)
    requires IsDigit(c)
    ensures d < 10
  {
    (c as int) - ('0' as int)
  }

  predicate AllDigits(s: string)
  {
    forall i | 0 <= i < |s| :: IsDigit(s[i])
  }

  /** The value of a string of decimal digits, most significant first, as
      Rust's `parse` reads it. */
  function DecimalValue(s: string): (n: nat)
    requires AllDigits(s)
  {
    if s == [] then 0 else 10 * DecimalValue(s[..|s| - 1]) + DigitValue(s[|s| - 1])
  }

  /** The sum of a sequence of integers. */
  function Sum(s: seq<int>): int
  {
    if s == [] then 0 else Sum(s[..|s| - 1]) + s[|s| - 1]
  }

  /** Rust's `i64::from_str`: an optional sign and at least one digit. */
  function ParseInt(s: string): (r: Option<int>)
    ensures AllDigits(s) && s != [] ==> r == Some(DecimalValue(s))
    ensures |s| > 1 && s[0] == '-' && AllDigits(s[1..]) ==> r == Some(-(DecimalValue(s[1..]) as int))
    ensures |s| > 1 && s[0] == '+' && AllDigits(s[1..]) ==> r == Some(DecimalValue(s[1..]))
    ensures r.Some? <==>
      (s != [] && AllDigits(s)) || (|s| > 1 && (s[0] == '-' || s[0] == '+') && AllDigits(s[1..]))
  {
    if s == [] then None
    else if (s[0] == '-' || s[0] == '+') && |s| > 1 && AllDigits(s[1..]) then
      var v: int := DecimalValue(s[1..]);
      Some(if s[0] == '-' then -v else v)
    else if AllDigits(s) then Some(DecimalValue(s))
    else None
  }
}
