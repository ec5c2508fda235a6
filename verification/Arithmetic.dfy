/** Products, quotients and remainders. */
module Arithmetic {

  lemma MulMono(k: int, m: int)
    requires m > 0
    ensures k > 0 ==> k * m >= m
    ensures k < 0 ==> k * m <= -m
  {
  }

  lemma MultipleIsZero(q: int, m: int)
    requires m > 0
    ensures (q * m) % m == 0
  {
    var d, r := (q * m) / m, (q * m) % m;
    assert q * m == d * m + r;
    assert (q - d) * m == q * m - d * m;
    MulMono(q - d, m);
  }

  lemma ModAdd(a: int, b: int, m: int)
    requires m > 0 && a % m == 0 && b % m == 0
    ensures (a + b) % m == 0 && (a - b) % m == 0
  {
    var x, y := a / m, b / m;
    assert a == x * m && b == y * m;
    assert (x + y) * m == x * m + y * m;
    assert (x - y) * m == x * m - y * m;
    MultipleIsZero(x + y, m);
    MultipleIsZero(x - y, m);
  }

  lemma MulLe(a: int, b: int, m: int)
    requires m >= 0
    ensures a <= b ==> a * m <= b * m
  {
    if a <= b { assert b * m - a * m == (b - a) * m >= 0; }
  }

  lemma DivUnique(x: int, q: int, m: int)
    requires m > 0 && q * m <= x < (q + 1) * m
    ensures x / m == q
  {
    var d := x / m;
    assert d * m <= x < (d + 1) * m;
    MulLe(d + 1, q, m);
    MulLe(q + 1, d, m);
  }

  /** Dividing by a product in two steps. */
  lemma DivDiv(x: nat, a: nat, b: nat)
    requires a > 0 && b > 0
    ensures a * b > 0 && x / (a * b) == x / a / b
  {
    var p := x / a;
    var q := p / b;
    Quotient(x, a);
    Quotient(p, b);
    MulLe(q * b, p, a);
    MulLe(p + 1, (q + 1) * b, a);
    assert q * (a * b) == (q * b) * a && (q + 1) * (a * b) == ((q + 1) * b) * a;
    DivUnique(x, q, a * b);
  }

  lemma Quotient(x: int, m: int)
    requires m > 0
    ensures x == (x / m) * m + x % m == m * (x / m) + x % m
    ensures (x / m) * m <= x < (x / m + 1) * m
  {
  }
}
