/** What the closed form of the 3D line means: it runs from end to end in unit steps, keeps
    every axis at a nearest lattice value, and reverses exactly when no step falls halfway. */
module LineProperties {
  import opened Arithmetic
  import opened DigitalEdge
  import opened EdgeWalk
  import opened Line3d
  import Scanline
  import opened Triangle

  // ---------------------------------------------------------------- ends, steps, accuracy

  // The longest axis steps every time, and every axis arrives.
  lemma StepsEnd(dm: nat, d: nat, k: nat)
    requires 0 < dm
    ensures Steps(dm, d, 0) == 0 && Steps(dm, d, dm) == d && Steps(dm, dm, k) == k
  {
    StepsIs(dm, d, 0, 0);
    MulCommutes(dm, d);
    StepsIs(dm, d, dm, d);
    StepsIs(dm, dm, k, k);
  }

  lemma StepsWithin(dm: nat, d: nat, k: nat)
    requires 0 < dm && k <= dm
    ensures 0 <= Steps(dm, d, k) <= d
  {
    var c := Steps(dm, d, k);
    StepsIs(dm, d, k, c);
    MulMono(0, k, d);
    MulCancel(-1, c, dm);
    MulMono(k, dm, d);
    MulCommutes(dm, d);
    MulCancel(c, d + 1, dm);
  }

  lemma StepsNext(dm: nat, d: nat, k: nat)
    requires d <= dm && 0 < dm
    ensures Steps(dm, d, k) <= Steps(dm, d, k + 1) <= Steps(dm, d, k) + 1
  {
    StepsIs(dm, d, k, Steps(dm, d, k));
    ErrorNext(dm, d, k, dm / 2 - k * d + Steps(dm, d, k) * dm);
  }

  lemma LineEnds(p: Point, q: Point)
    ensures var dm := |Line(p, q)| - 1;
            && Line(p, q)[0] == p && Line(p, q)[dm] == q
            && Abs(q.x - p.x) <= dm && Abs(q.y - p.y) <= dm && Abs(q.z - p.z) <= dm
            && (dm == Abs(q.x - p.x) || dm == Abs(q.y - p.y) || dm == Abs(q.z - p.z))
  {
    hide Steps;
    var dm := Extent(p, q);
    if 0 < dm {
      StepsEnd(dm, Abs(q.x - p.x), 0);
      StepsEnd(dm, Abs(q.y - p.y), 0);
      StepsEnd(dm, Abs(q.z - p.z), 0);
    }
    LineBegins(p, q);
  }

  predicate Near(u: int, v: int) {
    -1 <= v - u <= 1
  }

  // From one point to the next no coordinate moves by more than one, and one of them moves.
  lemma LineConnected(p: Point, q: Point, k: nat)
    requires k < Extent(p, q)
    ensures var a, b := Line(p, q)[k], Line(p, q)[k + 1];
            Near(a.x, b.x) && Near(a.y, b.y) && Near(a.z, b.z) && a != b
  {
    hide Steps;
    var dm := Extent(p, q);
    StepsNext(dm, Abs(q.x - p.x), k);
    StepsNext(dm, Abs(q.y - p.y), k);
    StepsNext(dm, Abs(q.z - p.z), k);
    StepsEnd(dm, 0, k);
    StepsEnd(dm, 0, k + 1);
  }

  /** After k rounds the axis has made c steps with |2(dm*c - k*d)| <= dm, so no other lattice
      value is nearer to the ideal one, k*d/dm. */
  lemma StepsNearest(dm: nat, d: nat, k: nat, other: int)
    requires 0 < dm
    ensures Abs(2 * (dm * Steps(dm, d, k) - k * d)) <= dm
    ensures Abs(dm * Steps(dm, d, k) - k * d) <= Abs(dm * other - k * d)
  {
    var c := Steps(dm, d, k);
    StepsIs(dm, d, k, c);
    MulCommutes(dm, c);
    NearestMultiple(dm, c, other, k * d);
  }

  lemma NearestMultiple(dm: nat, c: int, other: int, t: int)
    requires 0 < dm && Abs(2 * (dm * c - t)) <= dm
    ensures Abs(dm * c - t) <= Abs(dm * other - t)
  {
    var gap := dm * (other - c);
    assert gap == dm * other - dm * c;
    if other < c {
      MulMono(other - c, -1, dm);
    } else if c < other {
      MulMono(1, other - c, dm);
    }
  }

  lemma LineAccuracy(p: Point, q: Point, k: nat)
    requires k <= Extent(p, q)
    ensures var dm, a := Extent(p, q), Line(p, q)[k];
            && Abs(2 * (dm * (a.x - p.x) - k * (q.x - p.x))) <= dm
            && Abs(2 * (dm * (a.y - p.y) - k * (q.y - p.y))) <= dm
            && Abs(2 * (dm * (a.z - p.z) - k * (q.z - p.z))) <= dm
  {
    hide Steps;
    CoordinateAccuracy(Extent(p, q), p.x, q.x, k);
    CoordinateAccuracy(Extent(p, q), p.y, q.y, k);
    CoordinateAccuracy(Extent(p, q), p.z, q.z, k);
  }

  lemma CoordinateAccuracy(dm: nat, u: int, v: int, k: nat)
    requires Abs(v - u) <= dm
    ensures Abs(2 * (dm * (Coordinate(dm, u, v, k) - u) - k * (v - u))) <= dm
  {
    hide Steps;
    var d := Abs(v - u);
    if dm == 0 {
      assert k * (v - u) == 0;
    } else {
      var c: int := Steps(dm, d, k);
      StepsNearest(dm, d, k, 0);
      if v <= u {
        assert v - u + d == 0 && Coordinate(dm, u, v, k) - u + c == 0;
        assert dm * (Coordinate(dm, u, v, k) - u) + dm * c == 0;
        assert k * (v - u) + k * d == 0;
      }
    }
  }

  // c lies between u and v, nearest to where k of dm rounds from u to v should be, a half
  // going to the side of u.
  predicate NearestToStart(dm: nat, u: int, v: int, k: nat, c: int) {
    && Between(u, c, v)
    && (0 < dm ==> -(dm as int) <= 2 * (dm * Abs(c - u) - k * Abs(v - u)) < dm)
  }

  lemma CoordinateExact(dm: nat, u: int, v: int, k: nat, c: int)
    requires Abs(v - u) <= dm && k <= dm
    ensures c == Coordinate(dm, u, v, k) <==> NearestToStart(dm, u, v, k, c)
  {
    hide Steps;
    var d, t := Abs(v - u), Abs(c - u);
    if dm == 0 {
      NoSteps(d, k);
    } else {
      StepsWithin(dm, d, k);
      StepsIs(dm, d, k, t);
      MulCommutes(dm, t);
      if u == v {
        ZeroSteps(dm, k);
      }
    }
  }

  lemma NoSteps(d: nat, k: nat)
    ensures Steps(0, d, k) == 0
  {
  }

  /** The k-th plotted point, exactly: on each axis the nearest lattice value to the ideal one,
      halves going back towards the start. */
  lemma LineExact(p: Point, q: Point, k: nat, a: Point)
    requires k < |Line(p, q)|
    ensures a == Line(p, q)[k] <==>
            var dm := |Line(p, q)| - 1;
            && NearestToStart(dm, p.x, q.x, k, a.x)
            && NearestToStart(dm, p.y, q.y, k, a.y)
            && NearestToStart(dm, p.z, q.z, k, a.z)
  {
    hide Coordinate, NearestToStart;
    var dm := Extent(p, q);
    CoordinateExact(dm, p.x, q.x, k, a.x);
    CoordinateExact(dm, p.y, q.y, k, a.y);
    CoordinateExact(dm, p.z, q.z, k, a.z);
  }

  // ---------------------------------------------------------------- reversal

  function Reverse<T>(s: seq<T>): seq<T> {
    seq(|s|, (i: nat) requires i < |s| => s[|s| - 1 - i])
  }

  // Round k meets the ideal value exactly halfway between two lattice values.
  predicate Halfway(dm: nat, d: nat, k: nat)
    requires 0 < dm
  {
    2 * (k * d) % (2 * dm) == dm
  }

  // Walking from the other end leaves the same number of steps to go, except halfway, where
  // both directions have waited.
  lemma StepsReversed(dm: nat, d: nat, k: nat)
    requires 0 < dm && d <= dm && k <= dm
    ensures Steps(dm, d, k) + Steps(dm, d, dm - k) == if Halfway(dm, d, k) then d - 1 else d
  {
    var c := Steps(dm, d, k);
    StepsIs(dm, d, k, c);
    assert (dm - k) * d == d * dm - k * d;
    var w := k * d - c * dm;
    HalfwayIs(dm, k * d, c);
    if 2 * w == dm {
      assert (d - 1 - c) * dm == d * dm - dm - c * dm;
      StepsIs(dm, d, dm - k, d - 1 - c);
    } else {
      assert (d - c) * dm == d * dm - c * dm;
      StepsIs(dm, d, dm - k, d - c);
    }
  }

  lemma HalfwayIs(dm: nat, a: nat, c: int)
    requires 0 < dm && 0 < 2 * (a - c * dm) + dm <= 2 * dm
    ensures 2 * a % (2 * dm) == dm <==> 2 * (a - c * dm) == dm
  {
    var w := a - c * dm;
    var q := if w < 0 then c - 1 else c;
    assert q * (2 * dm) == 2 * (q * dm);
    assert (c - 1) * dm == c * dm - dm;
    DivUnique(2 * a, 2 * dm, q);
    assert 2 * a == 2 * dm * (2 * a / (2 * dm)) + 2 * a % (2 * dm);
    MulCommutes(2 * dm, q);
  }

  lemma CoordinateReversed(dm: nat, u: int, v: int, k: nat)
    requires 0 < dm && Abs(v - u) <= dm && k <= dm
    ensures Near(Coordinate(dm, u, v, k), Coordinate(dm, v, u, dm - k))
    ensures Coordinate(dm, u, v, k) == Coordinate(dm, v, u, dm - k) <==> !Halfway(dm, Abs(v - u), k)
  {
    hide Steps;
    StepsReversed(dm, Abs(v - u), k);
    if u == v {
      ZeroSteps(dm, k);
      ZeroSteps(dm, dm - k);
      assert k * 0 == 0;
    }
  }

  lemma ZeroSteps(dm: nat, k: nat)
    requires 0 < dm
    ensures Steps(dm, 0, k) == 0
  {
    StepsIs(dm, 0, k, 0);
  }

  /** Plotted from the other end, the line passes within one of the same point on every axis,
      and off it exactly where that axis is halfway. */
  lemma LineReversed(p: Point, q: Point, k: nat)
    requires 0 < Extent(p, q) && k <= Extent(p, q)
    ensures var dm := Extent(p, q);
            var a, b := At(p, q, k), At(q, p, dm - k);
            && Near(a.x, b.x) && (a.x == b.x <==> !Halfway(dm, Abs(q.x - p.x), k))
            && Near(a.y, b.y) && (a.y == b.y <==> !Halfway(dm, Abs(q.y - p.y), k))
            && Near(a.z, b.z) && (a.z == b.z <==> !Halfway(dm, Abs(q.z - p.z), k))
  {
    hide Coordinate, Halfway;
    var dm := Extent(p, q);
    CoordinateReversed(dm, p.x, q.x, k);
    CoordinateReversed(dm, p.y, q.y, k);
    CoordinateReversed(dm, p.z, q.z, k);
  }

  // Halving both numbers until one is odd shows whether an axis is ever halfway.
  predicate NeverHalfway(dm: nat, d: nat)
    requires 0 < dm
  {
    dm % 2 == 1 || (d % 2 == 0 && NeverHalfway(dm / 2, d / 2))
  }

  lemma {:induction false} NeverHalfwayMeans(dm: nat, d: nat, k: nat)
    requires 0 < dm && NeverHalfway(dm, d)
    ensures !Halfway(dm, d, k)
  {
    var a := 2 * (k * d);
    assert a == 2 * dm * (a / (2 * dm)) + a % (2 * dm);
    if dm % 2 == 1 {
      assert 2 * dm * (a / (2 * dm)) == 2 * (dm * (a / (2 * dm)));
    } else {
      NeverHalfwayMeans(dm / 2, d / 2, k);
      HalfwayHalves(dm / 2, d / 2, k);
    }
  }

  lemma {:induction false} SometimesHalfway(dm: nat, d: nat) returns (k: nat)
    requires 0 < dm && !NeverHalfway(dm, d)
    ensures k <= dm && Halfway(dm, d, k)
  {
    if d % 2 == 1 {
      k := dm / 2;
      HalfwayInMiddle(k, d / 2);
    } else {
      k := SometimesHalfway(dm / 2, d / 2);
      HalfwayHalves(dm / 2, d / 2, k);
    }
  }

  // An even extent and an odd one: halfway after half the rounds.
  lemma HalfwayInMiddle(k: nat, h: nat)
    requires 0 < k
    ensures Halfway(2 * k, 2 * h + 1, k)
  {
    var a, m := 2 * (k * (2 * h + 1)), 4 * k;
    assert a == h * m + 2 * k;
    DivUnique(a, m, h);
    MulCommutes(h, m);
    assert a == m * (a / m) + a % m;
  }

  lemma HalfwayHalves(dm: nat, d: nat, k: nat)
    requires 0 < dm
    ensures Halfway(2 * dm, 2 * d, k) <==> Halfway(dm, d, k)
  {
    var a, m := 2 * (k * d), 2 * dm;
    assert 2 * (k * (2 * d)) == 2 * a;
    assert a == m * (a / m) + a % m;
    assert a / m * (2 * m) == 2 * (m * (a / m));
    DivUnique(2 * a, 2 * m, a / m);
    MulCommutes(2 * m, a / m);
    assert 2 * a == 2 * m * (2 * a / (2 * m)) + 2 * a % (2 * m);
  }

  /** Swapping the ends reverses the plotted sequence exactly when no axis is ever halfway;
      an odd longest extent is enough. */
  lemma ReversalExact(p: Point, q: Point)
    ensures Line(q, p) == Reverse(Line(p, q)) <==>
            var dm := Extent(p, q);
            dm == 0 || (&& NeverHalfway(dm, Abs(q.x - p.x))
                        && NeverHalfway(dm, Abs(q.y - p.y))
                        && NeverHalfway(dm, Abs(q.z - p.z)))
  {
    hide At, Halfway, NeverHalfway;
    var dm := Extent(p, q);
    var l, r := Line(q, p), Reverse(Line(p, q));
    assert forall k :: 0 <= k <= dm ==> r[k] == At(p, q, dm - k) && l[k] == At(q, p, k);
    if dm == 0 {
      LineEnds(p, q);
      LineEnds(q, p);
    } else if NeverHalfway(dm, Abs(q.x - p.x)) && NeverHalfway(dm, Abs(q.y - p.y)) && NeverHalfway(dm, Abs(q.z - p.z)) {
      forall k | 0 <= k <= dm ensures At(p, q, k) == At(q, p, dm - k) {
        LineReversed(p, q, k);
        NeverHalfwayMeans(dm, Abs(q.x - p.x), k);
        NeverHalfwayMeans(dm, Abs(q.y - p.y), k);
        NeverHalfwayMeans(dm, Abs(q.z - p.z), k);
      }
      forall k | 0 <= k <= dm ensures l[k] == r[k] {
        assert At(p, q, dm - k) == At(q, p, dm - (dm - k));
      }
    } else {
      var k;
      if !NeverHalfway(dm, Abs(q.x - p.x)) {
        k := SometimesHalfway(dm, Abs(q.x - p.x));
      } else if !NeverHalfway(dm, Abs(q.y - p.y)) {
        k := SometimesHalfway(dm, Abs(q.y - p.y));
      } else {
        k := SometimesHalfway(dm, Abs(q.z - p.z));
      }
      LineReversed(p, q, k);
      assert l[dm - k] != r[dm - k];
    }
  }

  // ---------------------------------------------------------------- the filler's edges

  // Rounding halves up from one end is rounding them down from the other.
  lemma RoundedFromFarEnd(major: nat, minor: nat, i: nat)
    requires 0 < major && i <= major
    ensures Rounded(major, minor, i) == minor - Steps(major, minor, major - i)
  {
    var r := Rounded(major, minor, i);
    RoundedIs(major, minor, i, r);
    assert (major - i) * minor == minor * major - i * minor;
    assert (minor - r) * major == minor * major - r * major;
    StepsIs(major, minor, major - i, minor - r);
  }

  function Flat(v: Vertex): Point {
    Point(v.x, v.y, 0)
  }

  /** The pixels the filler walks along an edge are exactly those the line plotter draws from
      the edge's lower end to its upper end. */
  lemma EdgeIsLine(a: Vertex, b: Vertex, x: int, y: int)
    requires a.y <= b.y
    ensures EdgePixel(a, b, x, y) <==> Point(x, y, 0) in Line(Flat(b), Flat(a))
  {
    hide Steps, Rounded;
    var p, q, dm := Flat(b), Flat(a), Extent(Flat(b), Flat(a));
    var s := ShapeOf(a, b);
    if EdgePixel(a, b, x, y) {
      var k := if s.steep then b.y - y else Abs(b.x - x);
      EdgePointAt(a, b, x, y, k);
      assert Line(p, q)[k] == At(p, q, k);
    }
    if Point(x, y, 0) in Line(p, q) {
      var k :| 0 <= k <= dm && Line(p, q)[k] == Point(x, y, 0);
      EdgePointAt(a, b, x, y, k);
    }
  }

  lemma EdgePointAt(a: Vertex, b: Vertex, x: int, y: int, k: nat)
    requires a.y <= b.y && k <= ShapeOf(a, b).major
    ensures Extent(Flat(b), Flat(a)) == ShapeOf(a, b).major
    ensures At(Flat(b), Flat(a), k) == Point(x, y, 0) <==>
            EdgePixel(a, b, x, y) && k == if ShapeOf(a, b).steep then b.y - y else Abs(b.x - x)
  {
    hide Steps, Rounded;
    var s := ShapeOf(a, b);
    var dm := s.major;
    if dm == 0 {
      LineBegins(Flat(b), Flat(a));
    } else {
      StepsEnd(dm, s.minor, k);
      ZeroSteps(dm, k);
      RoundedFromFarEnd(dm, s.minor, dm - k);
      StepsWithin(dm, s.minor, k);
    }
  }

  /** So a span of the fill is the hull, on its row, of three plotted lines' pixels: the long
      edge's and, above or from the middle vertex on, the upper or the lower edge's. */
  lemma SpanIsLineHull(v1: Vertex, v2: Vertex, v3: Vertex, s: Scanline.Span)
    requires v1.y <= v2.y <= v3.y && IsHull(v1, v2, v3, s)
    ensures var long := Line(Flat(v3), Flat(v1));
            var short := if s.y < v2.y then Line(Flat(v2), Flat(v1)) else Line(Flat(v3), Flat(v2));
            && Point(s.minx, s.y, 0) in long + short
            && Point(s.maxx, s.y, 0) in long + short
            && forall x :: Point(x, s.y, 0) in long + short ==> s.minx <= x <= s.maxx
  {
    hide Line, EdgePixel;
    forall x
      ensures RowPixel(v1, v2, v3, x, s.y) <==>
              || Point(x, s.y, 0) in Line(Flat(v3), Flat(v1))
              || (if s.y < v2.y then Point(x, s.y, 0) in Line(Flat(v2), Flat(v1))
                  else Point(x, s.y, 0) in Line(Flat(v3), Flat(v2)))
    {
      EdgeIsLine(v1, v3, x, s.y);
      EdgeIsLine(v1, v2, x, s.y);
      EdgeIsLine(v2, v3, x, s.y);
    }
  }
}
