/** Division with remainder. */
module Arithmetic {

  lemma SmallFactor(d: int, e: int)
    requires d > 0 && -d < d * e < d
    ensures e == 0
  {
    assert e >= 1 ==> d * e >= d;
    assert e <= -1 ==> d * e <= -d;
  }

  lemma DivideUniquely(x: int, d: int, q: int, r: int)
    requires d > 0 && x == d * q + r && 0 <= r < d
    ensures x / d == q && x % d == r
  {
    assert d * (x / d - q) == r - x % d;
    SmallFactor(d, x / d - q);
  }

  /** Dividing twice is dividing by the product. */
  lemma DivideTwice(v: int, a: int, b: int)
    requires a > 0 && b > 0
    ensures a * b > 0 && v / a / b == v / (a * b)
  {
    var q, r := v / a, v % a;
    var s, t := q / b, q % b;
    Regroup(a, b, s, t);
    RemainderWithin(a, b, r, t);
    DivideUniquely(v, a * b, s, a * t + r);
  }

  lemma Regroup(a: int, b: int, s: int, t: int)
    ensures a * (b * s + t) == (a * b) * s + a * t
  {}

  lemma RemainderWithin(a: int, b: int, r: int, t: int)
    requires 0 <= r < a && 0 <= t < b
    ensures 0 <= a * t + r < a * b
  {
    assert a * t >= 0;
    assert a * (t + 1) <= a * b;
  }

  /** Adding a multiple of the divisor adds to the quotient alone. */
  lemma AddMultiple(v: int, d: int, m: int)
    requires d > 0
    ensures (v + d * m) / d == v / d + m && (v + d * m) % d == v % d
  {
    assert v + d * m == d * (v / d + m) + v % d;
    DivideUniquely(v + d * m, d, v / d + m, v % d);
  }
}
