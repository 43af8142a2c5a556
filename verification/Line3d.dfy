/** The 3D Bresenham line: every axis keeps an error term, and the longest axis steps each
    time. The specification is the closed form, `Steps` increments after k rounds. */
module Line3d {
  import opened Arithmetic

  datatype Point = Point(x: int, y: int, z: int)

  // grMAX3
  function Max3(x: int, y: int, z: int): int {
    if x > y then (if x > z then x else z) else (if y > z then y else z)
  }

  function Extent(p: Point, q: Point): nat {
    Max3(Abs(q.x - p.x), Abs(q.y - p.y), Abs(q.z - p.z))
  }

  // How often an axis of extent d has stepped after k of dm rounds: k*d/dm, halves going down.
  function Steps(dm: nat, d: nat, k: nat): int {
    if dm == 0 then 0 else (k * d + (dm - 1 - dm / 2)) / dm
  }

  // One coordinate after k rounds from u towards v.
  function Coordinate(dm: nat, u: int, v: int, k: nat): int {
    if u < v then u + Steps(dm, v - u, k) else u - Steps(dm, u - v, k)
  }

  function At(p: Point, q: Point, k: nat): Point {
    var dm := Extent(p, q);
    Point(Coordinate(dm, p.x, q.x, k), Coordinate(dm, p.y, q.y, k), Coordinate(dm, p.z, q.z, k))
  }

  function Line(p: Point, q: Point): seq<Point> {
    seq(Extent(p, q) + 1, (k: nat) => At(p, q, k))
  }

  // ---------------------------------------------------------------- the error term

  lemma StepsIs(dm: nat, d: nat, k: nat, c: int)
    requires 0 < dm
    ensures Steps(dm, d, k) == c <==> 0 <= dm / 2 - k * d + c * dm < dm
  {
    var a := k * d + (dm - 1 - dm / 2);
    if 0 <= dm / 2 - k * d + c * dm < dm {
      DivUnique(a, dm, c);
    }
    if Steps(dm, d, k) == c {
      assert a == dm * (a / dm) + a % dm;
    }
  }

  // The axis' error term after k rounds.
  ghost predicate Error(dm: nat, d: nat, k: nat, e: int) {
    d <= dm && if dm == 0 then e == 0 else 0 <= e < dm && e == dm / 2 - k * d + Steps(dm, d, k) * dm
  }

  lemma ErrorBegins(dm: nat, d: nat)
    requires d <= dm
    ensures Error(dm, d, 0, dm / 2) && Steps(dm, d, 0) == 0
  {
    if 0 < dm {
      StepsIs(dm, d, 0, 0);
    }
  }

  lemma LineBegins(p: Point, q: Point)
    ensures At(p, q, 0) == p
    ensures var dm := Extent(p, q);
            && Error(dm, Abs(q.x - p.x), 0, dm / 2)
            && Error(dm, Abs(q.y - p.y), 0, dm / 2)
            && Error(dm, Abs(q.z - p.z), 0, dm / 2)
  {
    hide Steps, Error;
    var dm := Extent(p, q);
    ErrorBegins(dm, Abs(q.x - p.x));
    ErrorBegins(dm, Abs(q.y - p.y));
    ErrorBegins(dm, Abs(q.z - p.z));
  }

  lemma ErrorNext(dm: nat, d: nat, k: nat, e: int)
    requires 0 < dm && Error(dm, d, k, e)
    ensures var e' := if e - d < 0 then e - d + dm else e - d; Error(dm, d, k + 1, e')
    ensures Steps(dm, d, k + 1) == Steps(dm, d, k) + (if e - d < 0 then 1 else 0)
  {
    var c := Steps(dm, d, k);
    assert (k + 1) * d == k * d + d;
    if e - d < 0 {
      assert (c + 1) * dm == c * dm + dm;
      StepsIs(dm, d, k + 1, c + 1);
    } else {
      StepsIs(dm, d, k + 1, c);
    }
  }

  // ---------------------------------------------------------------- the two plotters

  // One round of one axis, running from u to v; the plotters do this for x, y and z in turn.
  method StepAxis(dm: nat, d: nat, sign: int, e0: int, c0: int, ghost u: int, ghost v: int, ghost k: nat)
    returns (e: int, c: int)
    requires 0 < dm && d == Abs(v - u) && sign == (if u < v then 1 else -1)
    requires Error(dm, d, k, e0) && c0 == Coordinate(dm, u, v, k)
    ensures Error(dm, d, k + 1, e) && c == Coordinate(dm, u, v, k + 1)
  {
    hide Steps, Error;
    ErrorNext(dm, d, k, e0);
    e, c := e0 - d, c0;
    if e < 0 {
      e, c := e + dm, c + sign;
    }
  }

  // The three axes' extents, directions, error terms and current coordinates.
  datatype Pen = Pen(dm: nat, d: Point, sign: Point, err: Point, at: Point)

  // The pen of the line from p to q after k rounds.
  ghost predicate PenAt(p: Point, q: Point, k: nat, pen: Pen) {
    && pen.dm == Extent(p, q)
    && pen.d == Point(Abs(q.x - p.x), Abs(q.y - p.y), Abs(q.z - p.z))
    && pen.sign == Point(Direction(p.x, q.x), Direction(p.y, q.y), Direction(p.z, q.z))
    && Error(pen.dm, Abs(q.x - p.x), k, pen.err.x)
    && Error(pen.dm, Abs(q.y - p.y), k, pen.err.y)
    && Error(pen.dm, Abs(q.z - p.z), k, pen.err.z)
    && pen.at == At(p, q, k)
  }

  function Direction(u: int, v: int): int {
    if u < v then 1 else -1
  }

  method StartPen(p: Point, q: Point) returns (pen: Pen)
    ensures PenAt(p, q, 0, pen)
  {
    hide Steps, Error;
    var d := Point(Abs(q.x - p.x), Abs(q.y - p.y), Abs(q.z - p.z));
    var sign := Point(Direction(p.x, q.x), Direction(p.y, q.y), Direction(p.z, q.z));
    var dm := Max3(d.x, d.y, d.z);
    pen := Pen(dm, d, sign, Point(dm / 2, dm / 2, dm / 2), p);
    LineBegins(p, q);
  }

  method Advance(pen: Pen, ghost p: Point, ghost q: Point, ghost k: nat) returns (pen': Pen)
    requires 0 < pen.dm && PenAt(p, q, k, pen)
    ensures PenAt(p, q, k + 1, pen')
  {
    hide Steps, Error, Coordinate;
    var x1, x0 := StepAxis(pen.dm, pen.d.x, pen.sign.x, pen.err.x, pen.at.x, p.x, q.x, k);
    var y1, y0 := StepAxis(pen.dm, pen.d.y, pen.sign.y, pen.err.y, pen.at.y, p.y, q.y, k);
    var z1, z0 := StepAxis(pen.dm, pen.d.z, pen.sign.z, pen.err.z, pen.at.z, p.z, q.z, k);
    pen' := pen.(err := Point(x1, y1, z1), at := Point(x0, y0, z0));
  }

  method PlotLine3d(p: Point, q: Point) returns (npixels: int, log: seq<Point>)
    ensures log == Line(p, q)
    ensures npixels == |log|
  {
    hide At, Error;
    var pen := StartPen(p, q);
    var i := pen.dm;
    npixels, log := 0, [];
    while true
      invariant 0 <= i <= Extent(p, q) && PenAt(p, q, Extent(p, q) - i, pen)
      invariant npixels == |log| == Extent(p, q) - i
      invariant forall k :: 0 <= k < |log| ==> log[k] == At(p, q, k)
      decreases i
    {
      log := log + [pen.at];
      npixels := npixels + 1;
      if i == 0 { break; }
      pen := Advance(pen, p, q, Extent(p, q) - i);
      i := i - 1;
    }
  }

  // An `int` variable of the caller, passed by address.
  class IntCell {
    var value: int

    constructor (v: int)
      ensures value == v
    {
      value := v;
    }
  }

  /** The line again, reporting through three optional addresses the point reached when `n`
      rounds were left. When two addresses are the same cell, the later axis is kept. */
  method PlotLine3dTracked(p: Point, q: Point, x2: IntCell?, y2: IntCell?, z2: IntCell?, n: int, draw: bool)
    returns (vectors: int, log: seq<Point>)
    modifies x2, y2, z2
    ensures vectors == Extent(p, q)
    ensures log == if draw then Line(p, q) else []
    ensures z2 != null ==>
              z2.value == if 0 <= n <= Extent(p, q) then At(p, q, Extent(p, q) - n).z else old(z2.value)
    ensures y2 != null && y2 != z2 ==>
              y2.value == if 0 <= n <= Extent(p, q) then At(p, q, Extent(p, q) - n).y else old(y2.value)
    ensures x2 != null && x2 != y2 && x2 != z2 ==>
              x2.value == if 0 <= n <= Extent(p, q) then At(p, q, Extent(p, q) - n).x else old(x2.value)
  {
    hide At, Error;
    var pen := StartPen(p, q);
    var i := pen.dm;
    vectors, log := i, [];
    ghost var dm := Extent(p, q);
    while true
      invariant 0 <= i <= dm && PenAt(p, q, dm - i, pen)
      invariant if draw then |log| == dm - i && forall k :: 0 <= k < |log| ==> log[k] == At(p, q, k) else log == []
      invariant z2 != null ==> z2.value == if i < n <= dm then At(p, q, dm - n).z else old(z2.value)
      invariant y2 != null && y2 != z2 ==> y2.value == if i < n <= dm then At(p, q, dm - n).y else old(y2.value)
      invariant x2 != null && x2 != y2 && x2 != z2 ==>
                  x2.value == if i < n <= dm then At(p, q, dm - n).x else old(x2.value)
      decreases i
    {
      if draw {
        log := log + [pen.at];
      }
      if i == n {
        if x2 != null { x2.value := pen.at.x; }
        if y2 != null { y2.value := pen.at.y; }
        if z2 != null { z2.value := pen.at.z; }
      }
      if i == 0 { break; }
      pen := Advance(pen, p, q, dm - i);
      i := i - 1;
    }
  }
}
