/** Go's numeric conversions as the pipeline uses them, over exact reals.

    Float expressions of the source are reals here; `int(x)` and `uint(x)` of a
    float truncate toward zero, `uint8(x)` of a float is defined only when the
    value fits, and `math.Round` rounds half away from zero. */
module GoNumeric {

  /** An 8-bit sample (`uint8`). */
  type Byte = b: int | 0 <= b <= 255

  /** Go's `int(x)` for a float `x`: truncation toward zero. */
  function Trunc(x: real): (r: int)
    ensures 0.0 <= x ==> 0 <= r && r as real <= x < r as real + 1.0
    ensures x < 0.0 ==> r <= 0 && r as real - 1.0 < x <= r as real
  {
    if x >= 0.0 then x.Floor else -((-x).Floor)
  }

  /** Truncation commutes with negation: `int(-v) == -int(v)`. */
  lemma TruncOdd(x: real)
    ensures Trunc(-x) == -Trunc(x)
  {
  }

  /** Truncation is monotone. */
  lemma TruncMonotone(x: real, y: real)
    requires x <= y
    ensures Trunc(x) <= Trunc(y)
  {
  }

  /** `math.Ceil`. */
  function Ceil(x: real): (r: int)
    ensures r as real - 1.0 < x <= r as real
  {
    -((-x).Floor)
  }

  /** Go's `uint8(x)` for a float that fits in a byte. */
  function ToByte(x: real): (b: Byte)
    requires 0.0 <= x < 256.0
    ensures b as real <= x < b as real + 1.0
  {
    x.Floor
  }

  /** Converting to a byte is monotone. */
  lemma ToByteMonotone(x: real, y: real)
    requires 0.0 <= x <= y < 256.0
    ensures ToByte(x) <= ToByte(y)
  {
  }

  /** `math.Round` on a non-negative value: halves go up. */
  function RoundHalfUp(x: real): (r: int)
    requires 0.0 <= x
    ensures 0 <= r && r as real - 0.5 <= x < r as real + 0.5
  {
    (x + 0.5).Floor
  }

  /** Dividing by a positive weight keeps a weighted sum between its bounds. */
  lemma QuotientBetween(s: real, w: real, lo: real, hi: real)
    requires w > 0.0 && lo * w <= s <= hi * w
    ensures lo <= s / w <= hi
  {
    var q := s / w;
    assert q * w == s;
    assert (lo - q) * w <= 0.0;
    assert (q - hi) * w <= 0.0;
  }

  function Min(a: int, b: int): int { if a < b then a else b }
  function Max(a: int, b: int): int { if a < b then b else a }

  // ------------------------------------------------------ integer facts

  lemma MulMonotone(a: int, b: int, c: nat)
    requires a <= b
    ensures a * c <= b * c
  {
  }

  /** Multiplying by a positive factor keeps strict order, in both directions. */
  lemma MulStrict(a: int, c: int, b: nat)
    requires b >= 1
    ensures a < c <==> a * b < c * b
  {
    if a < c {
      MulMonotone(a + 1, c, b);
    } else {
      MulMonotone(c, a, b);
    }
  }

  lemma {:induction false} DivOfMultiple(q: nat, b: nat)
    requires b >= 1
    ensures (q * b) / b == q
  {
    var a := q * b;
    var d := a / b - q;
    assert a == (a / b) * b + a % b;
    assert d * b == -(a % b);
    if d >= 1 {
      MulMonotone(1, d, b);
    } else if d <= -1 {
      MulMonotone(d, -1, b);
    }
  }

  /** `n / s * s` is a multiple of `s`, at most `n`, and within `s` of it. */
  lemma RoundDownFacts(n: nat, s: nat)
    requires s >= 1
    ensures (n / s * s) % s == 0 && n / s * s <= n < n / s * s + s
  {
    var q := n / s;
    assert n == q * s + n % s;
    DivOfMultiple(q, s);
    assert q * s == (q * s) / s * s + (q * s) % s;
  }
}
