/** Facts the rasterizers lean on: products are monotone, and a quotient is pinned down by
    the multiples of the divisor around the dividend. */
module Arithmetic {

  function Abs(n: int): nat {
    if n < 0 then -n else n
  }

  function Max(a: int, b: int): int {
    if a > b then a else b
  }

  function Min(a: int, b: int): int {
    if a < b then a else b
  }

  // No element of a log comes twice.
  ghost predicate NoneTwice<T>(s: seq<T>) {
    forall i, j :: 0 <= i < j < |s| ==> s[i] != s[j]
  }

  lemma MulMono(a: int, b: int, c: int)
    requires a <= b && 0 <= c
    ensures a * c <= b * c
  {
    assert 0 <= (b - a) * c;
  }

  lemma MulCommutes(a: int, b: int)
    ensures a * b == b * a
  {
  }

  lemma MulPred(a: int, b: int)
    ensures (a - 1) * b == a * b - b
  {
  }

  // Comparing multiples of a positive number is comparing the factors.
  lemma MulCancel(a: int, b: int, c: int)
    requires 0 < c && a * c < b * c
    ensures a < b
  {
    if b <= a {
      MulMono(b, a, c);
    }
  }

  lemma DivUnique(a: int, b: int, q: int)
    requires 0 < b && q * b <= a < q * b + b
    ensures a / b == q
  {
    var r := a - a / b * b;
    assert 0 <= r < b;
    if a / b < q {
      MulMono(a / b + 1, q, b);
    } else if q < a / b {
      MulMono(q + 1, a / b, b);
    }
  }

  // The quotient rounded up is within i exactly when the dividend is within i divisors.
  lemma CeilReaches(a: int, d: int, i: int)
    requires 0 < d
    ensures (a + d - 1) / d <= i <==> a <= i * d
  {
    var q, r := (a + d - 1) / d, (a + d - 1) % d;
    assert a + d - 1 == d * q + r;
    MulCommutes(d, q);
    MulPred(q, d);
    if q <= i {
      MulMono(q, i, d);
    } else {
      MulMono(i, q - 1, d);
    }
  }
}
