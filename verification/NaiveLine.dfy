/** The floor-division line, in the machine's 64-bit unsigned arithmetic, as a reference the
    incremental line is compared with. */
module NaiveLine {
  import opened Arithmetic
  import opened Line3d
  import opened LineProperties
  import opened Scanline

  predicate UnsignedLong(n: int) {
    0 <= n < TWO_64
  }

  // The row computed for the k-th column, every operation wrapping around.
  function NaiveY(dx: nat, dy: nat, y1: nat, k: nat): nat
    requires 0 < dx
  {
    (y1 + dy * k % TWO_64 / dx) % TWO_64
  }

  function Naive(x1: nat, x2: nat, y1: nat, y2: nat): (log: seq<Pixel>)
    ensures |log| == if x1 < x2 then x2 - x1 else 0
  {
    if x1 < x2 then
      seq(x2 - x1, (k: nat) => Pixel(LowInt(x1 + k), LowInt(NaiveY(x2 - x1, ToUnsignedLong(y2 - y1), y1, k))))
    else []
  }

  method DrawNaively(x1: nat, x2: nat, y1: nat, y2: nat) returns (log: seq<Pixel>)
    requires UnsignedLong(x1) && UnsignedLong(x2) && UnsignedLong(y1) && UnsignedLong(y2)
    ensures log == Naive(x1, x2, y1, y2)
  {
    hide LowInt, ToUnsignedLong, NaiveY;
    var dx, dy := (x2 - x1) % TWO_64, ToUnsignedLong(y2 - y1);
    var x := x1;
    log := [];
    while x < x2
      invariant x1 <= x && (x1 < x2 ==> x <= x2)
      invariant |log| == x - x1 && log <= Naive(x1, x2, y1, y2)
    {
      var y := NaiveY(dx, dy, y1, x - x1);
      log := log + [Pixel(LowInt(x), LowInt(y))];
      x := x + 1;
    }
  }

  // On an ascending line of int coordinates nothing wraps: the row is the floor.
  lemma NaiveIsFloor(x1: nat, x2: nat, y1: nat, y2: nat, k: nat)
    requires x1 < x2 < TWO_31 && y1 <= y2 < TWO_31 && k < x2 - x1
    ensures Naive(x1, x2, y1, y2)[k] == Pixel(x1 + k, y1 + k * (y2 - y1) / (x2 - x1))
    ensures y1 <= y1 + k * (y2 - y1) / (x2 - x1) <= y2
  {
    hide LowInt, NaiveY, ToUnsignedLong;
    var dx, dy := x2 - x1, y2 - y1;
    MulMono(k, dx, dy);
    MulCommutes(dx, dy);
    MulMono(0, k, dy);
    FloorWithin(k * dy, dx, dy);
    NaiveYIsFloor(dx, dy, y1, k);
    SmallSurvives(dy);
    SmallSurvives(x1 + k);
    SmallSurvives(y1 + k * dy / dx);
  }

  lemma SmallSurvives(n: nat)
    requires n < TWO_31
    ensures ToUnsignedLong(n) == n && LowInt(n) == n
  {
  }

  lemma NaiveYIsFloor(dx: nat, dy: nat, y1: nat, k: nat)
    requires 0 < dx && dy < TWO_31 && k < TWO_31 && 0 <= k * dy / dx && y1 + k * dy / dx < TWO_31
    ensures NaiveY(dx, dy, y1, k) == y1 + k * dy / dx
  {
    MulCommutes(k, dy);
    MulMono(dy, TWO_31, k);
    MulMono(0, k, dy);
    Unwrapped(dy * k);
    Unwrapped(y1 + k * dy / dx);
  }

  lemma Unwrapped(n: nat)
    requires n < TWO_64
    ensures n % TWO_64 == n
  {
  }

  lemma FloorWithin(n: nat, d: nat, q: nat)
    requires 0 < d && n <= q * d
    ensures 0 <= n / d <= q
  {
    assert n == d * (n / d) + n % d;
    MulCommutes(d, n / d);
    if q < n / d {
      MulMono(q + 1, n / d, d);
    }
  }

  /** The incremental line is the naive one rounded to the nearest row: at every column but
      the last, which the naive one leaves out, it is on the same row or one below, and below
      exactly where more than half a row was cut off. */
  lemma FastRoundsNaive(x1: nat, x2: nat, y1: nat, y2: nat, z: int, k: nat)
    requires x1 < x2 < TWO_31 && y1 <= y2 < TWO_31 && y2 - y1 <= x2 - x1 && k < x2 - x1
    ensures var p, q := Point(x1, y1, z), Point(x2, y2, z);
            var fast, naive := Line(p, q)[k], Naive(x1, x2, y1, y2)[k];
            && |Line(p, q)| == |Naive(x1, x2, y1, y2)| + 1
            && fast.x == naive.x && fast.z == z && y1 <= naive.y <= y2
            && (fast.y == naive.y || fast.y == naive.y + 1)
            && (fast.y == naive.y + 1 <==> x2 - x1 < 2 * (k * (y2 - y1) % (x2 - x1)))
  {
    hide Steps, Naive;
    var dx, dy := x2 - x1, y2 - y1;
    NaiveIsFloor(x1, x2, y1, y2, k);
    StepsEnd(dx, dy, k);
    ZeroSteps(dx, k);
    StepsIsRounding(dx, dy, k);
  }

  lemma StepsIsRounding(dm: nat, d: nat, k: nat)
    requires 0 < dm
    ensures var f, r := k * d / dm, k * d % dm; Steps(dm, d, k) == if dm < 2 * r then f + 1 else f
  {
    var f, r := k * d / dm, k * d % dm;
    assert k * d == dm * f + r;
    MulCommutes(dm, f);
    assert (f + 1) * dm == f * dm + dm;
    StepsIs(dm, d, k, if dm < 2 * r then f + 1 else f);
  }

  // ---------------------------------------------------------------- descending lines

  predicate PowerOfTwo(n: nat)
    requires 0 < n
  {
    n == 1 || (n % 2 == 0 && PowerOfTwo(n / 2))
  }

  function Pow2(j: nat): (p: nat)
    ensures 0 < p
  {
    if j == 0 then 1 else 2 * Pow2(j - 1)
  }

  // The powers of two up to 2^j are its divisors.
  lemma {:induction false} PowersDivide(n: nat, j: nat)
    requires 0 < n <= Pow2(j)
    ensures Pow2(j) % n == 0 <==> PowerOfTwo(n)
    decreases j
  {
    var q := Pow2(j) / n;
    assert Pow2(j) == n * q + Pow2(j) % n;
    if j == 0 {
    } else if n % 2 == 0 {
      PowersDivide(n / 2, j - 1);
      HalvesDivide(Pow2(j - 1), n / 2);
    } else if n == 1 {
    } else if Pow2(j) % n == 0 {
      OddFactor(n, q, j);
    }
  }

  lemma HalvesDivide(a: nat, n: nat)
    requires 0 < n
    ensures 2 * a % (2 * n) == 0 <==> a % n == 0
  {
    assert a == n * (a / n) + a % n;
    assert a / n * (2 * n) == 2 * (n * (a / n));
    DivUnique(2 * a, 2 * n, a / n);
    MulCommutes(2 * n, a / n);
    assert 2 * a == 2 * n * (2 * a / (2 * n)) + 2 * a % (2 * n);
  }

  // The only odd divisor of a power of two is 1.
  lemma {:induction false} OddFactor(n: nat, q: nat, j: nat)
    requires n % 2 == 1 && n * q == Pow2(j)
    ensures n == 1
    decreases j
  {
    if j == 0 {
      if 1 < n {
        MulMono(2, n, q);
      }
    } else {
      var h := n / 2;
      assert n * q == 2 * (h * q) + q;
      assert q % 2 == 0;
      assert n * q == 2 * (n * (q / 2));
      OddFactor(n, q / 2, j - 1);
    }
  }

  lemma WidthDivides(dx: nat)
    requires 0 < dx < TWO_31
    ensures TWO_32 % dx == 0 <==> PowerOfTwo(dx)
  {
    assert Pow2(32) == TWO_32 by {
      assert Pow2(8) == 256;
      assert Pow2(16) == 65536;
      assert Pow2(24) == 16777216;
    }
    PowersDivide(dx, 32);
  }

  // With 2^32 == dx * a + b: the wrapped quotients are off by 2^32 * a, which the conversion
  // to int cuts away, and by this much, which it does not.
  function Drift(dx: nat): (o: nat)
    requires 0 < dx
  {
    TWO_32 * (TWO_32 % dx) / dx
  }

  // The rows a descending line has gone down by column k, before the drift.
  function Fall(dx: nat, drop: nat, k: nat): int
    requires 0 < dx
  {
    (TWO_32 * (TWO_32 % dx) % dx - drop * k) / dx
  }

  // The wrapped difference, divided, in terms of the drift and the fall.
  lemma QuotientSplit(dx: nat, drop: nat, k: nat)
    requires 0 < dx
    ensures (TWO_64 - drop * k) / dx == TWO_32 * (TWO_32 / dx) + Drift(dx) + Fall(dx, drop, k)
  {
    var a, b := TWO_32 / dx, TWO_32 % dx;
    var o, r, n := TWO_32 * b / dx, TWO_32 * b % dx, drop * k;
    var t := (r - n) / dx;
    assert r - n == dx * t + (r - n) % dx;
    assert TWO_32 == dx * a + b;
    assert TWO_32 * b == dx * o + r;
    var q := TWO_32 * a + o + t;
    assert q * dx == TWO_32 * (dx * a) + dx * o + dx * t;
    DivUnique(TWO_64 - n, dx, q);
  }

  lemma FallBounds(dx: nat, drop: nat, k: nat)
    requires k < dx
    ensures -(drop as int) <= Fall(dx, drop, k) <= 0
    ensures var t, r := Fall(dx, drop, k), TWO_32 * (TWO_32 % dx) % dx; t * dx <= r - drop * k < t * dx + dx
  {
    var t, r, n := Fall(dx, drop, k), TWO_32 * (TWO_32 % dx) % dx, drop * k;
    assert r - n == dx * t + (r - n) % dx;
    MulCommutes(dx, t);
    MulMono(0, k, drop);
    MulCommutes(drop, k);
    MulCancel(t, 1, dx);
    MulMono(k, dx, drop);
    MulCommutes(drop, dx);
    NegatedProduct(drop, dx);
    MulCancel(-(drop as int), t + 1, dx);
  }

  lemma NegatedProduct(a: nat, b: nat)
    ensures -(a as int) * b == -(a * b)
  {
  }

  // The column's row: the line's own, moved by the drift and read as an int.
  lemma DescendingRow(x1: nat, x2: nat, y1: nat, y2: nat, k: nat)
    requires x1 < x2 < TWO_31 && y2 < y1 < TWO_31 && 1 <= k < x2 - x1
    ensures y2 <= y1 + Fall(x2 - x1, y1 - y2, k) <= y1
    ensures Naive(x1, x2, y1, y2)[k] ==
            Pixel(x1 + k, LowInt(y1 + Fall(x2 - x1, y1 - y2, k) + Drift(x2 - x1)))
  {
    hide LowInt, Fall, Drift, ToUnsignedLong, NaiveY;
    var dx, drop := x2 - x1, y1 - y2;
    FallBounds(dx, drop, k);
    SmallSurvives(x1 + k);
    WrappedQuotient(dx, drop, y1, k);
    var a := TWO_32 / dx;
    LowIntPeriod(y1 + Fall(dx, drop, k) + Drift(dx), a);
    assert NaiveY(dx, ToUnsignedLong(y2 - y1), y1, k) == y1 + Fall(dx, drop, k) + Drift(dx) + TWO_32 * a;
  }

  lemma WrappedQuotient(dx: nat, drop: nat, y1: nat, k: nat)
    requires 1 <= k < dx < TWO_31 && 1 <= drop <= y1 < TWO_31
    ensures NaiveY(dx, ToUnsignedLong(0 - drop), y1, k)
            == y1 + Fall(dx, drop, k) + Drift(dx) + TWO_32 * (TWO_32 / dx)
  {
    hide Fall, Drift;
    Wrapped(drop);
    WrappedProduct(drop, k);
    QuotientSplit(dx, drop, k);
    var n := TWO_64 - drop * k;
    QuotientHalves(n, dx);
    Unwrapped(y1 + n / dx);
  }

  lemma Wrapped(drop: nat)
    requires 1 <= drop < TWO_31
    ensures ToUnsignedLong(0 - drop) == TWO_64 - drop
  {
    DivUnique(0 - drop, TWO_64, -1);
    assert 0 - drop == TWO_64 * ((0 - drop) / TWO_64) + (0 - drop) % TWO_64;
  }

  lemma WrappedProduct(drop: nat, k: nat)
    requires 1 <= k < TWO_31 && 1 <= drop < TWO_31
    ensures 0 < drop * k < TWO_64
    ensures (TWO_64 - drop) * k % TWO_64 == TWO_64 - drop * k
  {
    MulMono(1, k, drop);
    MulMono(drop, TWO_31, k);
    MulCommutes(drop, k);
    var n := (TWO_64 - drop) * k;
    assert n == (k - 1) * TWO_64 + (TWO_64 - drop * k);
    DivUnique(n, TWO_64, k - 1);
    assert n == TWO_64 * (n / TWO_64) + n % TWO_64;
  }

  lemma QuotientHalves(n: nat, d: nat)
    requires 2 <= d && n < TWO_64
    ensures 0 <= n / d <= TWO_64 / 2
  {
    assert n == d * (n / d) + n % d;
    MulMono(2, d, n / d);
  }

  lemma LowIntPeriod(n: nat, a: nat)
    ensures LowInt(n + TWO_32 * a) == LowInt(n)
  {
    DivUnique(n + TWO_32 * a, TWO_32, n / TWO_32 + a);
    assert n == TWO_32 * (n / TWO_32) + n % TWO_32;
    assert n + TWO_32 * a == TWO_32 * ((n + TWO_32 * a) / TWO_32) + (n + TWO_32 * a) % TWO_32;
  }

  // All plotted rows lie between the rows of the two ends.
  ghost predicate StaysBetween(x1: nat, x2: nat, y1: nat, y2: nat)
    requires x1 < x2
  {
    forall k :: 0 <= k < x2 - x1 ==> Min(y1, y2) <= Naive(x1, x2, y1, y2)[k].y <= Max(y1, y2)
  }

  lemma FirstRow(x1: nat, x2: nat, y1: nat, y2: nat)
    requires x1 < x2 && y1 < TWO_31
    ensures Naive(x1, x2, y1, y2)[0].y == y1
  {
    var dx, dy := x2 - x1, ToUnsignedLong(y2 - y1);
    assert dy * 0 == 0;
    DivUnique(0, dx, 0);
    SmallSurvives(y1);
  }

  // Descending over a width that divides 2^32 nothing drifts: the row is the floor.
  lemma PowerOfTwoWidth(x1: nat, x2: nat, y1: nat, y2: nat, k: nat)
    requires x1 < x2 < TWO_31 && y2 < y1 < TWO_31 && 1 <= k < x2 - x1 && TWO_32 % (x2 - x1) == 0
    ensures Naive(x1, x2, y1, y2)[k].y == y1 + k * (y2 - y1) / (x2 - x1)
    ensures y2 <= y1 + k * (y2 - y1) / (x2 - x1) <= y1
  {
    hide LowInt;
    var dx, drop := x2 - x1, y1 - y2;
    DescendingRow(x1, x2, y1, y2, k);
    DivUnique(0, dx, 0);
    assert 0 - drop * k == k * (y2 - y1);
    SmallSurvives(y1 + Fall(dx, drop, k));
  }

  // Over any other width a row near one of the ends leaves the line's range.
  lemma OtherWidth(x1: nat, x2: nat, y1: nat, y2: nat) returns (k: nat)
    requires x1 < x2 < TWO_31 && y2 < y1 < TWO_31 && TWO_32 % (x2 - x1) != 0
    ensures k < x2 - x1 && !(y2 <= Naive(x1, x2, y1, y2)[k].y <= y1)
  {
    hide Fall, Drift, Naive, LowInt;
    var dx, drop := x2 - x1, y1 - y2;
    k := if Drift(dx) < TWO_31 then 1 else dx - 1;
    assert 2 <= dx by { assert TWO_32 % 1 == 0; }
    DescendingRow(x1, x2, y1, y2, k);
    DriftIsFar(dx, drop);
    LowIntAround(y1 + Fall(dx, drop, k) + Drift(dx));
  }

  lemma LowIntAround(n: nat)
    requires n < TWO_32 + TWO_31
    ensures LowInt(n) == if n < TWO_31 then n else n - TWO_32
  {
  }

  lemma DriftIsFar(dx: nat, drop: nat)
    requires 2 <= dx < TWO_31 && 1 <= drop < TWO_31 && TWO_32 % dx != 0
    ensures 0 < Fall(dx, drop, 1) + Drift(dx)
    ensures drop + Fall(dx, drop, dx - 1) + Drift(dx) < TWO_32
    ensures 0 < Drift(dx) < TWO_32
  {
    hide Fall;
    var b := TWO_32 % dx;
    var o, r := Drift(dx), TWO_32 * b % dx;
    assert TWO_32 * b == dx * o + r;
    MulCommutes(dx, o);
    MulCancel(o, TWO_32, dx);
    FallBounds(dx, drop, 1);
    FallBounds(dx, drop, dx - 1);
    DriftAbove(dx, drop, b, o, r, Fall(dx, drop, 1));
    DriftBelow(dx, drop, b, o, r, Fall(dx, drop, dx - 1));
  }

  lemma DriftAbove(dx: nat, drop: nat, b: nat, o: nat, r: nat, t: int)
    requires 2 <= dx < TWO_31 && 1 <= drop < TWO_31 && 1 <= b && r < dx
    requires TWO_32 * b == o * dx + r && r - drop < t * dx + dx && t <= 0
    ensures 0 < t + o && 0 < o
  {
    assert (t + o) * dx == t * dx + o * dx;
    MulCancel(0, t + o, dx);
  }

  lemma DriftBelow(dx: nat, drop: nat, b: nat, o: nat, r: nat, t: int)
    requires 2 <= dx < TWO_31 && 1 <= drop < TWO_31 && 1 <= b < dx && r < dx
    requires TWO_32 * b == o * dx + r && t * dx <= r - drop * (dx - 1)
    ensures drop + t + o < TWO_32
  {
    assert drop * (dx - 1) == drop * dx - drop;
    assert (drop + t + o) * dx == drop * dx + t * dx + o * dx;
    MulCancel(drop + t + o, TWO_32, dx);
  }

  /** For non-negative int coordinates the naive line keeps to the rows between its ends if and
      only if it ascends or its width is a power of two. */
  lemma NaiveStaysBetween(x1: nat, x2: nat, y1: nat, y2: nat)
    requires x1 < x2 < TWO_31 && y1 < TWO_31 && y2 < TWO_31
    ensures StaysBetween(x1, x2, y1, y2) <==> y1 <= y2 || PowerOfTwo(x2 - x1)
  {
    hide Naive, PowerOfTwo;
    WidthDivides(x2 - x1);
    if y1 <= y2 {
      forall k | 0 <= k < x2 - x1 ensures y1 <= Naive(x1, x2, y1, y2)[k].y <= y2 {
        NaiveIsFloor(x1, x2, y1, y2, k);
      }
    } else if PowerOfTwo(x2 - x1) {
      FirstRow(x1, x2, y1, y2);
      forall k | 1 <= k < x2 - x1 ensures y2 <= Naive(x1, x2, y1, y2)[k].y <= y1 {
        PowerOfTwoWidth(x1, x2, y1, y2, k);
      }
    } else {
      var k := OtherWidth(x1, x2, y1, y2);
    }
  }

  /** Where it does, every row is the floor of the ideal one. */
  lemma NaiveIsFloorBetween(x1: nat, x2: nat, y1: nat, y2: nat, k: nat)
    requires x1 < x2 < TWO_31 && y1 < TWO_31 && y2 < TWO_31 && k < x2 - x1
    requires StaysBetween(x1, x2, y1, y2)
    ensures Naive(x1, x2, y1, y2)[k].y == y1 + k * (y2 - y1) / (x2 - x1)
  {
    hide Naive, PowerOfTwo, StaysBetween;
    NaiveStaysBetween(x1, x2, y1, y2);
    WidthDivides(x2 - x1);
    if y1 <= y2 {
      NaiveIsFloor(x1, x2, y1, y2, k);
    } else if k == 0 {
      FirstRow(x1, x2, y1, y2);
      assert 0 * (y2 - y1) == 0;
      DivUnique(0, x2 - x1, 0);
    } else {
      PowerOfTwoWidth(x1, x2, y1, y2, k);
    }
  }

  // One of the descending lines that leave their range, far off the screen.
  lemma NaiveDescending()
    ensures Naive(0, 3, 1, 0)[1] == Pixel(1, 1431655766)
  {
    DescendingRow(0, 3, 1, 0, 1);
  }
}
