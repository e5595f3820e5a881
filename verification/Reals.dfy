/** What is assumed of the two real functions the source takes from `math`: callers pass them in. */
module Reals {

  ghost predicate IsLog(log: real -> real) {
    log(1.0) == 0.0 && forall x, y :: 0.0 < x < y ==> log(x) < log(y)
  }

  ghost predicate IsSqrt(sqrt: real -> real) {
    forall d :: d >= 0.0 ==> sqrt(d) >= 0.0 && sqrt(d) * sqrt(d) == d
  }

  // The facts about products below name each product, so that nothing has to be multiplied out to use them.

  lemma ProductPositive(x: real, y: real, p: real)
    requires x > 0.0 && y > 0.0 && p == x * y
    ensures p > 0.0
  {
  }

  lemma ProductNonNegative(x: real, y: real, p: real)
    requires x >= 0.0 && y >= 0.0 && p == x * y
    ensures p >= 0.0
  {
    if x > 0.0 && y > 0.0 {
      ProductPositive(x, y, p);
    }
  }

  lemma Square(x: real, s: real)
    requires s == x * x
    ensures s >= 0.0
    ensures x == 0.0 ==> s == 0.0
    ensures x != 0.0 ==> s > 0.0
  {
    if x > 0.0 {
      ProductPositive(x, x, s);
    } else if x < 0.0 {
      ProductPositive(-x, -x, s);
    }
  }

  lemma SquareOrder(x: real, y: real, s: real, t: real)
    requires 0.0 <= x && 0.0 <= y && s == x * x && t == y * y
    ensures x < y ==> s < t
    ensures x == y ==> s == t
    ensures y < x ==> t < s
  {
    var d, e := y - x, x + y;
    assert t - s == d * e;
    if d > 0.0 {
      ProductPositive(d, e, t - s);
    } else if d < 0.0 {
      ProductPositive(-d, e, s - t);
    }
  }

  lemma SqrtZero(sqrt: real -> real)
    requires IsSqrt(sqrt)
    ensures sqrt(0.0) == 0.0
  {
    Square(sqrt(0.0), 0.0);
  }

  lemma SqrtMonotone(sqrt: real -> real, a: real, b: real)
    requires IsSqrt(sqrt) && 0.0 <= a < b
    ensures sqrt(a) < sqrt(b)
  {
    SquareOrder(sqrt(a), sqrt(b), a, b);
  }

  lemma DivMonotone(a: real, b: real, c: real)
    requires c > 0.0
    ensures a < b ==> a / c < b / c
    ensures a <= b ==> a / c <= b / c
  {
    var x, y := a / c, b / c;
    assert x * c == a && y * c == b;
    assert (y - x) * c == b - a;
    if y < x {
      ProductPositive(x - y, c, a - b);
    }
  }

  /** A part over its whole. */
  lemma UnitRatio(x: real, c: real)
    requires 0.0 <= x <= c && c > 0.0
    ensures 0.0 <= x / c <= 1.0
    ensures (x / c == 0.0 <==> x == 0.0) && (x / c == 1.0 <==> x == c)
  {
    var y := x / c;
    assert y * c == x;
    DivMonotone(0.0, x, c);
    DivMonotone(x, c, c);
  }

  lemma ReciprocalFalls(c: real, d: real)
    requires 0.0 < c < d
    ensures 0.0 < 1.0 / d < 1.0 / c
  {
    var x, y := 1.0 / c, 1.0 / d;
    assert x * c == 1.0 && y * d == 1.0;
    assert x > 0.0 && y > 0.0;
    assert (x - y) * d == x * (d - c);
    ProductPositive(x, d - c, x * (d - c));
    if x <= y {
      ProductNonNegative(y - x, d, (y - x) * d);
    }
  }
}
