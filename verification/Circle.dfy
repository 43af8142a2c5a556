/** The circle: a walk through one quadrant, from (-r, 0) towards (0, r), plotted in all four.
    `err` is kept by increments in the code and is a closed form here. */
module Circle {
  import opened Arithmetic
  import opened Line3d

  datatype Offset = Offset(x: int, y: int)

  // Distance of an offset from the circle, in squares.
  function Residual(r: int, o: Offset): int {
    o.x * o.x + o.y * o.y - r * r
  }

  // The walk's next offset: up when the diagonal neighbour is far enough inside, right when
  // it is not, both in between.
  function Next(r: int, o: Offset): Offset {
    var e := Residual(r, Offset(o.x + 1, o.y + 1));
    var y := if e <= o.y then o.y + 1 else o.y;
    var x := if e > o.x || Residual(r, Offset(o.x + 1, y + 1)) > y then o.x + 1 else o.x;
    Offset(x, y)
  }

  // What holds of every offset the walk plots.
  ghost predicate OnWalk(r: int, o: Offset) {
    && 1 <= r && -r <= o.x < 0 && 0 <= o.y < r + 1
    && -r <= Residual(r, o) < r
  }

  lemma Square(a: int)
    ensures (a + 1) * (a + 1) == a * a + 2 * a + 1
  {
  }

  /** One step of the walk: it moves by at most one on each axis and moves on at least one,
      stays within r of the circle's square, and reaches x == 0 only at (0, r). */
  lemma NextOnWalk(r: int, o: Offset)
    requires OnWalk(r, o)
    ensures var n := Next(r, o);
            && o.x <= n.x <= o.x + 1 && o.y <= n.y <= o.y + 1 && n != o
            && (n.x < 0 ==> OnWalk(r, n))
            && (n.x == 0 ==> n.y == r)
  {
    hide Residual;
    var n := Next(r, o);
    Neighbours(r, o);
    if n.x == 0 {
      EndsAtTop(r, n.y);
    }
  }

  lemma Neighbours(r: int, o: Offset)
    ensures var d, x, y := Residual(r, o), o.x, o.y;
            && Residual(r, Offset(x + 1, y)) == d + 2 * x + 1
            && Residual(r, Offset(x, y + 1)) == d + 2 * y + 1
            && Residual(r, Offset(x + 1, y + 1)) == d + 2 * x + 2 * y + 2
            && Residual(r, Offset(x + 1, y + 2)) == d + 2 * x + 4 * y + 5
            && (y == r ==> -2 * x - 1 <= d)
  {
    Square(o.x);
    Square(o.y);
    Square(o.y + 1);
    MulMono(0, (o.x + 1) * (o.x + 1), 1);
  }

  // y*y + y >= r*r leaves no y below r.
  lemma EndsAtTop(r: int, y: int)
    requires 1 <= r && 0 <= y <= r && -y <= Residual(r, Offset(0, y))
    ensures y == r
  {
    if y < r {
      MulMono(y, r - 1, y + 1);
      MulMono(y + 1, r, r - 1);
    }
  }

  // ---------------------------------------------------------------- the quarter walk

  function Start(r: int): Offset {
    Offset(-r, 0)
  }

  // The offsets the walk plots from o on.
  ghost function ArcFrom(r: int, o: Offset): seq<Offset>
    requires OnWalk(r, o)
    decreases r - o.x - o.y
  {
    NextOnWalk(r, o);
    [o] + if Next(r, o).x < 0 then ArcFrom(r, Next(r, o)) else []
  }

  // Without a positive radius the loop body runs once.
  ghost function Arc(r: int): seq<Offset> {
    if 1 <= r then ArcFrom(r, Start(r)) else [Start(r)]
  }

  ghost predicate IsArc(r: int, arc: seq<Offset>) {
    && arc != []
    && (forall t :: 0 <= t < |arc| ==> OnWalk(r, arc[t]))
    && (forall t :: 0 <= t < |arc| - 1 ==> arc[t + 1] == Next(r, arc[t]))
    && Next(r, arc[|arc| - 1]) == Offset(0, r)
  }

  lemma {:induction false} ArcFromIsArc(r: int, o: Offset)
    requires OnWalk(r, o)
    ensures IsArc(r, ArcFrom(r, o)) && ArcFrom(r, o)[0] == o
    decreases r - o.x - o.y
  {
    hide Next, Residual;
    NextOnWalk(r, o);
    if Next(r, o).x < 0 {
      ArcFromIsArc(r, Next(r, o));
    }
  }

  // Along the walk x + y grows, so no offset comes twice.
  lemma {:induction false} ArcGrows(r: int, arc: seq<Offset>, t: nat, t': nat)
    requires IsArc(r, arc) && t < t' < |arc|
    ensures arc[t].x + arc[t].y < arc[t'].x + arc[t'].y
    decreases t'
  {
    hide OnWalk, Next;
    NextOnWalk(r, arc[t' - 1]);
    if t < t' - 1 {
      ArcGrows(r, arc, t, t' - 1);
    }
  }

  // ---------------------------------------------------------------- plotting

  // The four points plotted for one offset, in the order of the calls.
  function Quad(xm: int, ym: int, z: int, o: Offset): (four: seq<Point>)
    ensures |four| == 4
  {
    [Point(xm - o.x, ym + o.y, z), Point(xm - o.y, ym - o.x, z),
     Point(xm + o.x, ym - o.y, z), Point(xm + o.y, ym + o.x, z)]
  }

  function Quads(xm: int, ym: int, z: int, arc: seq<Offset>): seq<Point> {
    if arc == [] then [] else Quads(xm, ym, z, arc[..|arc| - 1]) + Quad(xm, ym, z, arc[|arc| - 1])
  }

  // The loop's updates of x, y and err, the radius variable doubling as a scratch copy.
  method Step(ghost radius: int, x0: int, y0: int, err0: int) returns (x: int, y: int, err: int)
    requires err0 == Residual(radius, Offset(x0 + 1, y0 + 1))
    ensures Offset(x, y) == Next(radius, Offset(x0, y0)) && x0 <= x
    ensures err == Residual(radius, Offset(x + 1, y + 1))
  {
    x, y, err := x0, y0, err0;
    Square(x + 1);
    Square(y + 1);
    var r := err;
    if r <= y {
      y := y + 1;
      err := err + (y * 2 + 1);
    }
    if r > x || err > y {
      x := x + 1;
      err := err + (x * 2 + 1);
    }
  }

  /** The plotting loop, for any radius; the plain circle is the case z == 0. */
  method PlotCircle(xm: int, ym: int, r: int, z: int) returns (log: seq<Point>)
    ensures log == Quads(xm, ym, z, Arc(r))
  {
    hide Residual, Next, OnWalk, ArcFrom, Quad, Quads;
    var x, y, err := -r, 0, 2 - 2 * r;
    ghost var done := [];
    log := [];
    Begin(r);
    QuadsNext(xm, ym, z, done, Start(r));
    while true
      invariant r < 1 ==> done == [] && x == -r && y == 0
      invariant 1 <= r ==> OnWalk(r, Offset(x, y)) && Arc(r) == done + ArcFrom(r, Offset(x, y))
      invariant err == Residual(r, Offset(x + 1, y + 1))
      invariant log == Quads(xm, ym, z, done)
      decreases r - x - y
    {
      ghost var o := Offset(x, y);
      log := log + Quad(xm, ym, z, Offset(x, y));
      QuadsNext(xm, ym, z, done, o);
      if 1 <= r {
        ArcUnrolled(r, done, o);
      }
      done := done + [o];
      x, y, err := Step(r, x, y, err);
      assert r < 1 ==> done == [Start(r)];
      if !(x < 0) { break; }
    }
  }

  lemma Begin(r: int)
    ensures 2 - 2 * r == Residual(r, Offset(1 - r, 1))
    ensures 1 <= r ==> OnWalk(r, Start(r))
  {
    Square(0 - r);
  }

  // One offset moves from the walk ahead to the walk done.
  lemma ArcUnrolled(r: int, done: seq<Offset>, o: Offset)
    requires OnWalk(r, o)
    ensures var n := Next(r, o);
            && o.x + o.y < n.x + n.y <= r + 1
            && (n.x < 0 ==> OnWalk(r, n))
            && done + ArcFrom(r, o) == if n.x < 0 then done + [o] + ArcFrom(r, n) else done + [o]
  {
    hide Residual, Next;
    NextOnWalk(r, o);
  }

  lemma QuadsNext(xm: int, ym: int, z: int, arc: seq<Offset>, o: Offset)
    ensures Quads(xm, ym, z, arc + [o]) == Quads(xm, ym, z, arc) + Quad(xm, ym, z, o)
    ensures Quads(xm, ym, z, []) == []
  {
    assert (arc + [o])[..|arc|] == arc;
  }

  lemma ArcIsArc(r: int)
    requires 1 <= r
    ensures IsArc(r, Arc(r)) && Arc(r)[0] == Start(r)
  {
    hide OnWalk, IsArc, ArcFrom;
    Begin(r);
    ArcFromIsArc(r, Start(r));
  }

  // ---------------------------------------------------------------- the figure as a whole

  // A quarter turn.
  function Turn(o: Offset): Offset {
    Offset(-o.y, o.x)
  }

  function Turned(s: seq<Offset>): seq<Offset> {
    seq(|s|, (i: nat) requires i < |s| => Turn(s[i]))
  }

  // The arc in the first quadrant, as the first of each four calls plots it.
  function Mirrored(arc: seq<Offset>): seq<Offset> {
    seq(|arc|, (i: nat) requires i < |arc| => Offset(-arc[i].x, arc[i].y))
  }

  // The arc and its three quarter turns, one after the other.
  function Figure(arc: seq<Offset>): seq<Offset> {
    var a := Mirrored(arc);
    a + Turned(a) + Turned(Turned(a)) + Turned(Turned(Turned(a)))
  }

  predicate Touching(o: Offset, n: Offset) {
    o != n && -1 <= n.x - o.x <= 1 && -1 <= n.y - o.y <= 1
  }

  // Each offset touches the next, and the last one touches `end`.
  ghost predicate Leads(s: seq<Offset>, end: Offset) {
    && s != []
    && (forall i :: 0 <= i < |s| - 1 ==> Touching(s[i], s[i + 1]))
    && Touching(s[|s| - 1], end)
  }

  lemma LeadsOn(s: seq<Offset>, t: seq<Offset>, end: Offset)
    requires t != [] && Leads(s, t[0]) && Leads(t, end)
    ensures Leads(s + t, end)
  {
  }

  lemma LeadsTurned(s: seq<Offset>, end: Offset)
    requires Leads(s, end)
    ensures Leads(Turned(s), Turn(end)) && Turned(s) != [] && Turned(s)[0] == Turn(s[0])
  {
  }

  /** The four arcs close into one 8-connected curve: the walk of each quarter leads to the
      first pixel of the next, and the last to the first. */
  lemma CircleIsClosed(r: int)
    requires 1 <= r
    ensures Leads(Figure(Arc(r)), Figure(Arc(r))[0])
  {
    hide IsArc, Leads, Turned, Arc;
    var arc := Arc(r);
    ArcIsArc(r);
    ArcLeads(r, arc);
    var a := Mirrored(arc);
    var b := Turned(a);
    var c := Turned(b);
    var d := Turned(c);
    LeadsTurned(a, Offset(0, r));
    LeadsTurned(b, Turn(Offset(0, r)));
    LeadsTurned(c, Turn(Turn(Offset(0, r))));
    LeadsOn(c, d, a[0]);
    LeadsOn(b, c + d, a[0]);
    LeadsOn(a, b + (c + d), a[0]);
    assert a + (b + (c + d)) == Figure(arc);
  }

  lemma ArcLeads(r: int, arc: seq<Offset>)
    requires IsArc(r, arc) && arc[0] == Start(r)
    ensures Leads(Mirrored(arc), Offset(0, r)) && Mirrored(arc)[0] == Offset(r, 0)
  {
    hide Next;
    forall t | 0 <= t < |arc|
      ensures var n := if t < |arc| - 1 then arc[t + 1] else Offset(0, r);
              Touching(Mirrored(arc)[t], Offset(-n.x, n.y))
    {
      NextOnWalk(r, arc[t]);
    }
  }

  // The calls plot the figure's offsets around the centre, four by four.
  lemma {:induction false} QuadsAt(xm: int, ym: int, z: int, arc: seq<Offset>, t: nat, q: nat)
    requires t < |arc| && q < 4
    ensures |Quads(xm, ym, z, arc)| == 4 * |arc|
    ensures Quads(xm, ym, z, arc)[4 * t + q] == Quad(xm, ym, z, arc[t])[q]
    ensures var o := Figure(arc)[q * |arc| + t]; Quad(xm, ym, z, arc[t])[q] == Point(xm + o.x, ym + o.y, z)
  {
    hide Quad;
    var n := |arc| - 1;
    if t < n {
      QuadsAt(xm, ym, z, arc[..n], t, q);
    } else if 0 < n {
      QuadsAt(xm, ym, z, arc[..n], 0, 0);
    }
    FigureAt(xm, ym, z, arc, t, q);
  }

  lemma FigureAt(xm: int, ym: int, z: int, arc: seq<Offset>, t: nat, q: nat)
    requires t < |arc| && q < 4
    ensures var o := Figure(arc)[q * |arc| + t]; Quad(xm, ym, z, arc[t])[q] == Point(xm + o.x, ym + o.y, z)
  {
    var n, a := |arc|, Mirrored(arc);
    var f := Figure(arc);
    if q == 0 {
      assert f[t] == a[t];
    } else if q == 1 {
      assert f[n + t] == Turned(a)[t];
    } else if q == 2 {
      assert f[2 * n + t] == Turned(Turned(a))[t];
    } else {
      assert f[3 * n + t] == Turned(Turned(Turned(a)))[t];
    }
  }

  // All four corners of a quad are as far from the circle as the offset.
  lemma QuadResidual(xm: int, ym: int, z: int, r: int, o: Offset, q: nat)
    requires q < 4
    ensures var p := Quad(xm, ym, z, o)[q];
            Residual(r, Offset(p.x - xm, p.y - ym)) == Residual(r, o) && p.z == z
  {
    assert (-o.x) * (-o.x) == o.x * o.x && (-o.y) * (-o.y) == o.y * o.y;
  }

  /** Accuracy: every plotted pixel's squared distance from the centre lies in
      [r*r - r, r*r + r). */
  lemma CircleAccuracy(xm: int, ym: int, z: int, r: int, p: Point)
    requires 1 <= r && p in Quads(xm, ym, z, Arc(r))
    ensures var d := Offset(p.x - xm, p.y - ym); -r <= Residual(r, d) < r && p.z == z
  {
    hide Arc, Residual, Next, Quads, Quad, Figure;
    var arc := Arc(r);
    ArcIsArc(r);
    QuadsAt(xm, ym, z, arc, 0, 0);
    var i :| 0 <= i < |Quads(xm, ym, z, arc)| && Quads(xm, ym, z, arc)[i] == p;
    QuadsAt(xm, ym, z, arc, i / 4, i % 4);
    QuadResidual(xm, ym, z, r, arc[i / 4], i % 4);
    assert OnWalk(r, arc[i / 4]);
  }

  // ---------------------------------------------------------------- the pixels, exactly

  /** The pixels of the circle: those at most half a step from it along the longer of their
      two distances u and v from the centre, without the corner on the diagonal when the curve
      passes inside it. */
  ghost predicate Covered(r: int, u: int, v: int) {
    var d, m := u * u + v * v - r * r, Max(u, v);
    -m <= d < m && !(u == v && d == m - 1)
  }

  ghost predicate OnArc(r: int, o: Offset) {
    o.x < 0 <= o.y && Covered(r, -o.x, o.y)
  }

  lemma CoveredWithin(r: int, u: nat, v: nat)
    requires 0 <= r && Covered(r, u, v)
    ensures u <= r && v <= r
  {
    if r < u {
      FarOutside(r, u, v);
    }
    if r < v {
      FarOutside(r, v, u);
    }
  }

  lemma FarOutside(r: nat, m: nat, n: nat)
    requires r < m
    ensures n <= m ==> m <= m * m + n * n - r * r
    ensures m <= n ==> n <= m * m + n * n - r * r
  {
    MulMono(r + 1, m, m);
    MulMono(r, m, r);
    assert (r + 1) * m == r * m + m;
    MulCommutes(r, m);
    MulMono(0, n, n);
    if 0 < n {
      MulMono(1, n, n);
    }
  }

  lemma NegatedSquare(a: int)
    ensures -a * -a == a * a
  {
  }

  // On the first row the circle has only its leftmost pixel.
  lemma FirstRow(r: int, o: Offset)
    requires 1 <= r && OnArc(r, o) && o.y == 0
    ensures o == Start(r)
  {
    CoveredWithin(r, -o.x, o.y);
    NegatedSquare(o.x);
    if -o.x < r {
      MulMono(-o.x + 1, r, r);
      MulMono(-o.x + 1, r, -o.x + 1);
      Square(-o.x);
    }
  }

  lemma OnArcNext(r: int, o: Offset)
    requires OnArc(r, o) && Next(r, o).x < 0
    ensures OnArc(r, Next(r, o))
  {
    hide Residual, Covered;
    Neighbours(r, o);
    ArcResidual(r, o);
    ArcResidual(r, Next(r, o));
  }

  lemma ArcResidual(r: int, o: Offset)
    ensures Covered(r, -o.x, o.y) <==>
            var d, m := Residual(r, o), Max(-o.x, o.y); -m <= d < m && !(-o.x == o.y && d == m - 1)
  {
    NegatedSquare(o.x);
  }

  // Every other pixel of the arc is entered from one of the arc.
  lemma ArcEntered(r: int, o: Offset) returns (p: Offset)
    requires 1 <= r && OnArc(r, o) && o != Start(r)
    ensures OnArc(r, p) && Next(r, p) == o && p.x + p.y < o.x + o.y
  {
    hide Residual, Covered;
    if o.y == 0 {
      FirstRow(r, o);
    }
    var below, aside, both := Offset(o.x, o.y - 1), Offset(o.x - 1, o.y), Offset(o.x - 1, o.y - 1);
    ArcResidual(r, o);
    ArcResidual(r, below);
    ArcResidual(r, aside);
    ArcResidual(r, both);
    Neighbours(r, below);
    Neighbours(r, aside);
    Neighbours(r, both);
    p := if OnArc(r, below) && Next(r, below) == o then below
         else if OnArc(r, both) && Next(r, both) == o then both else aside;
  }

  lemma {:induction false} OnArcIsWalked(r: int, o: Offset) returns (t: nat)
    requires 1 <= r && OnArc(r, o)
    ensures t < |Arc(r)| && Arc(r)[t] == o
    decreases r + o.x + o.y
  {
    hide Next, Arc;
    ArcIsArc(r);
    t := 0;
    if o != Start(r) {
      var p := ArcEntered(r, o);
      CoveredWithin(r, -p.x, p.y);
      var before := OnArcIsWalked(r, p);
      t := before + 1;
    }
  }

  lemma {:induction false} WalkedIsOnArc(r: int, t: nat)
    requires 1 <= r && t < |Arc(r)|
    ensures OnArc(r, Arc(r)[t])
  {
    hide Next, Arc, Residual;
    ArcIsArc(r);
    if t == 0 {
      NegatedSquare(r);
    } else {
      WalkedIsOnArc(r, t - 1);
      assert Next(r, Arc(r)[t - 1]) == Arc(r)[t - 1 + 1] && OnWalk(r, Arc(r)[t]);
      OnArcNext(r, Arc(r)[t - 1]);
    }
  }

  // The quarter a pixel is plotted in, and the offset it is plotted for.
  lemma QuarterOf(xm: int, ym: int, z: int, p: Point) returns (o: Offset, q: nat)
    requires p.z == z && (p.x != xm || p.y != ym)
    ensures q < 4 && o.x < 0 <= o.y && Quad(xm, ym, z, o)[q] == p
  {
    var dx, dy := p.x - xm, p.y - ym;
    if 0 < dx && 0 <= dy {
      o, q := Offset(-dx, dy), 0;
    } else if dx <= 0 && 0 < dy {
      o, q := Offset(-dy, -dx), 1;
    } else if dx < 0 && dy <= 0 {
      o, q := Offset(dx, -dy), 2;
    } else {
      o, q := Offset(dy, dx), 3;
    }
  }

  lemma QuadCovered(xm: int, ym: int, z: int, r: int, o: Offset, q: nat)
    requires q < 4 && o.x < 0 <= o.y
    ensures var p := Quad(xm, ym, z, o)[q];
            p.z == z && (Covered(r, Abs(p.x - xm), Abs(p.y - ym)) <==> Covered(r, -o.x, o.y))
  {
  }

  /** The whole circle: a pixel is plotted if and only if its distances from the centre are
      covered. */
  lemma CircleExact(xm: int, ym: int, z: int, r: int, p: Point)
    requires 1 <= r
    ensures p in Quads(xm, ym, z, Arc(r)) <==> p.z == z && Covered(r, Abs(p.x - xm), Abs(p.y - ym))
  {
    hide Arc, Covered, Quads, Quad, Figure;
    var arc := Arc(r);
    ArcIsArc(r);
    QuadsAt(xm, ym, z, arc, 0, 0);
    if p in Quads(xm, ym, z, arc) {
      var i :| 0 <= i < |Quads(xm, ym, z, arc)| && Quads(xm, ym, z, arc)[i] == p;
      QuadsAt(xm, ym, z, arc, i / 4, i % 4);
      WalkedIsOnArc(r, i / 4);
      QuadCovered(xm, ym, z, r, arc[i / 4], i % 4);
    }
    if p.z == z && Covered(r, Abs(p.x - xm), Abs(p.y - ym)) {
      CentreIsNotCovered(r);
      var o, q := QuarterOf(xm, ym, z, p);
      QuadCovered(xm, ym, z, r, o, q);
      var t := OnArcIsWalked(r, o);
      QuadsAt(xm, ym, z, arc, t, q);
    }
  }

  lemma CentreIsNotCovered(r: int)
    ensures !Covered(r, 0, 0)
  {
  }

  /** Without a positive radius the four calls go to the ends of the axes. */
  lemma CircleOfNothing(xm: int, ym: int, z: int, r: int, p: Point)
    requires r < 1
    ensures p in Quads(xm, ym, z, Arc(r)) <==>
            && p.z == z
            && ((Abs(p.x - xm) == -r && p.y == ym) || (p.x == xm && Abs(p.y - ym) == -r))
  {
    var quads := Quads(xm, ym, z, []);
    QuadsNext(xm, ym, z, [], Start(r));
    assert [] + [Start(r)] == Arc(r) && quads == [];
    var four := Quad(xm, ym, z, Start(r));
    assert p in four <==> p == four[0] || p == four[1] || p == four[2] || p == four[3];
  }

  // Quads of different offsets, and different corners of one quad, do not meet.
  lemma QuadsApart(xm: int, ym: int, z: int, o: Offset, q: nat, o': Offset, q': nat)
    requires o.x < 0 <= o.y && o'.x < 0 <= o'.y && q < 4 && q' < 4
    requires Quad(xm, ym, z, o)[q] == Quad(xm, ym, z, o')[q']
    ensures o == o' && q == q'
  {
  }

  /** No pixel of the circle is plotted twice. */
  lemma CirclePlotsOnce(xm: int, ym: int, z: int, r: int)
    requires 1 <= r
    ensures NoneTwice(Quads(xm, ym, z, Arc(r)))
  {
    hide Arc, Residual, Next, Quads, Figure, Quad;
    var arc := Arc(r);
    ArcIsArc(r);
    QuadsAt(xm, ym, z, arc, 0, 0);
    forall i, j | 0 <= i < j < |Quads(xm, ym, z, arc)|
      ensures Quads(xm, ym, z, arc)[i] != Quads(xm, ym, z, arc)[j]
    {
      QuadsAt(xm, ym, z, arc, i / 4, i % 4);
      QuadsAt(xm, ym, z, arc, j / 4, j % 4);
      assert OnWalk(r, arc[i / 4]) && OnWalk(r, arc[j / 4]);
      if Quads(xm, ym, z, arc)[i] == Quads(xm, ym, z, arc)[j] {
        QuadsApart(xm, ym, z, arc[i / 4], i % 4, arc[j / 4], j % 4);
        ArcGrows(r, arc, i / 4, j / 4);
      }
    }
  }
}
