/** The dot picture: column x gets a dot on every row x divides. Read by rows, a row with
    exactly two dots is a prime. */
module PrimeRows {
  import opened Arithmetic
  import opened Scanline

  // The dots the loops leave, whatever the order.
  predicate Dotted(savedX: nat, savedY: nat, p: Pixel) {
    && 0 < p.x < savedX && p.x <= savedY
    && 0 <= p.y < savedY && p.y % p.x == 0
  }

  method DrawDots(savedX: nat, savedY: nat) returns (log: seq<Pixel>)
    ensures forall p :: p in log <==> Dotted(savedX, savedY, p)
    ensures NoneTwice(log)
  {
    log := [];
    var x := 0;
    while x < savedX
      invariant x <= savedX && (x == 0 || x - 1 < savedY)
      invariant forall p :: p in log <==> Dotted(savedX, savedY, p) && p.x < x
      invariant NoneTwice(log)
    {
      var y := 0;
      while y < savedY
        invariant y <= savedY
        invariant forall p :: p in log <==> Dotted(savedX, savedY, p) && (p.x < x || (p.x == x && p.y < y))
        invariant NoneTwice(log)
      {
        if x != 0 {
          if y % x == 0 {
            assert Dotted(savedX, savedY, Pixel(x, y));
            log := log + [Pixel(x, y)];
          }
        }
        y := y + 1;
      }
      if x >= savedY { break; }
      x := x + 1;
    }
  }

  /** On every row but the top one the dots are exactly the row's divisors: stopping at column
      savedY loses none of them. */
  lemma RowOfDivisors(savedX: nat, savedY: nat, x: nat, y: nat)
    requires 1 <= y < savedY
    ensures Dotted(savedX, savedY, Pixel(x, y)) <==> 0 < x < savedX && y % x == 0
  {
    if 0 < x && y % x == 0 {
      DivisorWithin(x, y);
    }
  }

  /** On the top row there is a dot in every column from 1 to savedY that the width leaves. */
  lemma TopRow(savedX: nat, savedY: nat, x: int)
    requires 0 < savedY
    ensures x in RowDots(savedX, savedY, 0) <==> 1 <= x <= Min(savedX - 1, savedY)
  {
    if 0 < x {
      assert 0 % x == 0;
      assert Dotted(savedX, savedY, Pixel(x, 0)) <==> x < savedX && x <= savedY;
    }
  }

  lemma DivisorWithin(d: nat, n: nat)
    requires 0 < d && 0 < n && n % d == 0
    ensures d <= n
  {
    assert n == d * (n / d) + n % d;
    MulCommutes(d, n / d);
    MulCancel(0, n / d, d);
    MulMono(1, n / d, d);
  }

  predicate Prime(n: nat) {
    1 < n && forall d :: 1 < d < n ==> n % d != 0
  }

  ghost function RowDots(savedX: nat, savedY: nat, y: nat): set<int> {
    set x | 0 <= x < savedX && Dotted(savedX, savedY, Pixel(x, y)) :: x
  }

  lemma PairIsAll(s: set<int>, a: int, b: int, c: int)
    requires a in s && b in s && a != b && |s| == 2 && c in s
    ensures c == a || c == b
  {
    var rest := s - {a} - {b};
    assert |rest| == 0;
    assert s == {a, b} + rest;
  }

  /** A row within the picture and left of its width has exactly two dots if and only if its
      number is prime. */
  lemma TwoDotsIsPrime(savedX: nat, savedY: nat, y: nat)
    requires 1 < y < savedX && y < savedY
    ensures |RowDots(savedX, savedY, y)| == 2 <==> Prime(y)
  {
    hide Dotted;
    var s := RowDots(savedX, savedY, y);
    forall x: nat ensures x in s <==> 0 < x < savedX && y % x == 0 {
      RowOfDivisors(savedX, savedY, x, y);
    }
    assert y % 1 == 0 && y % y == 0;
    assert 1 in s && y in s;
    if |s| == 2 {
      forall d | 1 < d < y ensures y % d != 0 {
        if y % d == 0 {
          assert d in s;
          PairIsAll(s, 1, y, d);
        }
      }
    }
    if Prime(y) {
      forall x | x in s ensures x == 1 || x == y {
        DivisorWithin(x, y);
      }
      assert s == {1, y};
    }
  }
}
