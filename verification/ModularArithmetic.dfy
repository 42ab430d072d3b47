/** Powers and congruences over the integers, as needed by Montgomery reduction. */
module ModularArithmetic {

  function Pow(b: int, e: nat): int {
    if e == 0 then 1 else b * Pow(b, e - 1)
  }

  lemma {:induction false} PowPositive(b: int, e: nat)
    requires b > 0
    ensures Pow(b, e) > 0
  {
    if e > 0 {
      PowPositive(b, e - 1);
      MulPositive(b, Pow(b, e - 1));
    }
  }

  lemma {:induction false} PowAdd(b: int, i: nat, j: nat)
    ensures Pow(b, i + j) == Pow(b, i) * Pow(b, j)
  {
    if i == 0 {
    } else {
      PowAdd(b, i - 1, j);
      MulAssociative(b, Pow(b, i - 1), Pow(b, j));
    }
  }

  lemma {:induction false} PowProduct(a: int, b: int, e: nat)
    ensures Pow(a * b, e) == Pow(a, e) * Pow(b, e)
  {
    if e > 0 {
      var p, q := Pow(a, e - 1), Pow(b, e - 1);
      PowProduct(a, b, e - 1);
      calc {
        Pow(a * b, e);
        (a * b) * (p * q);
        { MulSwapMiddle(a, b, p, q); }
        (a * p) * (b * q);
      }
    }
  }

  lemma MulPositive(a: int, b: int)
    requires a > 0 && b > 0
    ensures a * b > 0
  {
  }

  lemma MulMonotone(a: int, x: int, y: int)
    requires a >= 0 && x <= y
    ensures a * x <= a * y
  {
  }

  lemma MulAssociative(a: int, b: int, c: int)
    ensures (a * b) * c == a * (b * c)
  {
  }

  lemma MulSwapMiddle(a: int, b: int, p: int, q: int)
    ensures (a * b) * (p * q) == (a * p) * (b * q)
  {
    MulAssociative(a, b, p * q);
    MulAssociative(a, p, b * q);
    assert b * (p * q) == p * (b * q);
  }

  // A number n * k + r with 0 <= r < n has quotient k and remainder r.
  lemma DivModUnique(x: int, n: int, k: int, r: int)
    requires n > 0 && x == n * k + r && 0 <= r < n
    ensures x / n == k && x % n == r
  {
    var d := x / n - k;
    assert n * d == n * (x / n) - n * k;
    assert n * d == r - x % n;
    if d >= 1 {
      MulMonotone(n, 1, d);
      assert false;
    } else if d <= -1 {
      MulMonotone(n, d, -1);
      assert false;
    }
  }

  // ----- congruence

  predicate Congruent(x: int, y: int, n: int)
    requires n > 0
  {
    x % n == y % n
  }

  lemma CongruentBy(x: int, y: int, n: int, q: int)
    requires n > 0 && x - y == n * q
    ensures Congruent(x, y, n)
  {
    var k := y / n + q;
    assert n * k == n * (y / n) + n * q;
    DivModUnique(x, n, k, y % n);
  }

  lemma CongruentQuotient(x: int, y: int, n: int) returns (q: int)
    requires n > 0 && Congruent(x, y, n)
    ensures x - y == n * q
  {
    q := x / n - y / n;
    assert n * q == n * (x / n) - n * (y / n);
  }

  lemma CongruentAdd(x: int, y: int, u: int, v: int, n: int)
    requires n > 0 && Congruent(x, y, n) && Congruent(u, v, n)
    ensures Congruent(x + u, y + v, n)
  {
    var p := CongruentQuotient(x, y, n);
    var q := CongruentQuotient(u, v, n);
    assert n * (p + q) == n * p + n * q;
    CongruentBy(x + u, y + v, n, p + q);
  }

  lemma CongruentScale(x: int, y: int, z: int, n: int)
    requires n > 0 && Congruent(x, y, n)
    ensures Congruent(z * x, z * y, n)
  {
    var q := CongruentQuotient(x, y, n);
    calc {
      z * x - z * y;
      z * (x - y);
      z * (n * q);
      n * (z * q);
    }
    CongruentBy(z * x, z * y, n, z * q);
  }

  lemma CongruentMul(x: int, y: int, u: int, v: int, n: int)
    requires n > 0 && Congruent(x, y, n) && Congruent(u, v, n)
    ensures Congruent(x * u, y * v, n)
  {
    CongruentScale(x, y, u, n);
    CongruentScale(u, v, y, n);
    assert x * u == u * x && u * y == y * u;
  }

  lemma {:induction false} CongruentPow(x: int, y: int, e: nat, n: int)
    requires n > 0 && Congruent(x, y, n)
    ensures Congruent(Pow(x, e), Pow(y, e), n)
  {
    if e > 0 {
      CongruentPow(x, y, e - 1, n);
      CongruentMul(x, y, Pow(x, e - 1), Pow(y, e - 1), n);
    }
  }

  lemma {:induction false} PowOne(e: nat)
    ensures Pow(1, e) == 1
  {
    if e > 0 { PowOne(e - 1); }
  }

  // A factor that has an inverse can be cancelled.
  lemma CongruentCancel(f: int, g: int, x: int, y: int, n: int)
    requires n > 0 && Congruent(g * f, 1, n) && Congruent(f * x, f * y, n)
    ensures Congruent(x, y, n)
  {
    CongruentScale(f * x, f * y, g, n);
    CongruentMul(g * f, 1, x, x, n);
    CongruentMul(g * f, 1, y, y, n);
    MulAssociative(g, f, x);
    MulAssociative(g, f, y);
  }
}
