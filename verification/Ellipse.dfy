/** The ellipse inscribed in a box of width a and height b. The loop state is the width w and
    the height h of the rectangle whose four corners are plotted: it starts wide and flat and
    ends narrow and tall, around a fixed centre. The running error term is a closed form. */
module Ellipse {
  import opened Arithmetic
  import opened Line3d

  datatype Rect = Rect(w: int, h: int)

  // Signed distance of the rectangle's corners from the ellipse, scaled by 4*a*a*b*b.
  function Residual(a: nat, b: nat, o: Rect): int {
    b * b * (o.w * o.w) + a * a * (o.h * o.h) - a * a * (b * b)
  }

  function Dx(b: nat, w: int): int {
    4 * (b * b - b * b * w)
  }

  function Dy(a: nat, h: int): int {
    4 * (a * a * h + a * a)
  }

  // Taller, narrower, or both.
  function Next(a: nat, b: nat, o: Rect): Rect {
    var e := Residual(a, b, Rect(o.w - 2, o.h + 2));
    var h := if 2 * e <= Dy(a, o.h) then o.h + 2 else o.h;
    var w := if 2 * e >= Dx(b, o.w) || 2 * Residual(a, b, Rect(o.w - 2, h + 2)) > Dy(a, h) then o.w - 2 else o.w;
    Rect(w, h)
  }

  lemma Neighbours(a: nat, b: nat, o: Rect)
    ensures var d, dx, dy := Residual(a, b, o), Dx(b, o.w), Dy(a, o.h);
            && Residual(a, b, Rect(o.w - 2, o.h)) == d + dx
            && Residual(a, b, Rect(o.w, o.h + 2)) == d + dy
            && Residual(a, b, Rect(o.w - 2, o.h + 2)) == d + dx + dy
            && Residual(a, b, Rect(o.w - 2, o.h + 4)) == d + dx + 2 * dy + 8 * (a * a)
            && Dx(b, o.w - 2) == dx + 8 * (b * b) && Dy(a, o.h + 2) == dy + 8 * (a * a)
  {
    var A, B, w, h := a * a, b * b, o.w, o.h;
    assert B * ((w - 2) * (w - 2)) == B * (w * w) - 4 * (B * w) + 4 * B;
    assert A * ((h + 2) * (h + 2)) == A * (h * h) + 4 * (A * h) + 4 * A;
    assert A * ((h + 4) * (h + 4)) == A * (h * h) + 8 * (A * h) + 16 * A;
    assert B * (w - 2) == B * w - 2 * B;
    assert A * (h + 2) == A * h + 2 * A;
  }

  // The rectangle is off the ellipse by no more than half of what widening or heightening it
  // by two pixels changes.
  ghost predicate Close(a: nat, b: nat, o: Rect) {
    Abs(Residual(a, b, o)) <= 2 * Max(b * b * o.w + b * b, a * a * o.h + a * a)
  }

  // What holds whenever the main loop plots.
  ghost predicate Inside(a: nat, b: nat, o: Rect) {
    && 0 <= o.w <= a && o.w % 2 == a % 2
    && b % 2 <= o.h <= b && o.h % 2 == b % 2
    && Close(a, b, o)
  }

  function Start(a: nat, b: nat): Rect {
    Rect(a, b % 2)
  }

  lemma StartInside(a: nat, b: nat)
    ensures Inside(a, b, Start(a, b))
    ensures Residual(a, b, Start(a, b)) == b % 2 * (a * a)
  {
    var A, B := a * a, b * b;
    assert B * (a * a) == A * B;
    assert A * (1 * 1) == A;
    assert A * (0 * 0) == 0;
    MulMono(0, a, a);
    MulMono(0, b % 2, A);
    assert b % 2 == 0 || b % 2 == 1;
    assert A * (b % 2) == b % 2 * A;
  }

  lemma TopResidual(a: nat, b: nat, w: int)
    ensures Residual(a, b, Rect(w - 2, b + 2)) == b * b * ((w - 2) * (w - 2)) + Dy(a, b)
  {
    assert (b + 2) * (b + 2) == b * b + 4 * b + 4;
    assert a * a * (b * b + 4 * b + 4) == a * a * (b * b) + 4 * (a * a * b) + 4 * (a * a);
  }

  // On the box's top row the walk only narrows, or is about to end.
  lemma AtTop(a: nat, b: nat, o: Rect)
    requires 0 <= o.w <= a && o.h == b
    ensures Next(a, b, o).h == b || Next(a, b, o).w < 0
  {
    hide Residual;
    TopResidual(a, b, o.w);
    MulMono(0, b * b, (o.w - 2) * (o.w - 2));
    MulMono(0, b, b);
    MulMono(0, b, a * a);
    if 0 < a {
      MulMono(1, a, a);
    } else {
      FlatTop(b);
    }
  }

  // A box without width: the first step narrows it away.
  lemma FlatTop(b: nat)
    ensures Dx(b, 0) == b * b * ((0 - 2) * (0 - 2)) && Dy(0, b) == 0
  {
  }

  lemma Products(a: nat, b: nat, w: int, h: int)
    requires 0 <= w && 0 <= h
    ensures 0 <= b * b && 0 <= a * a && 0 <= b * b * w && 0 <= a * a * h && (2 <= w ==> 2 * (b * b) <= b * b * w)
  {
    MulMono(0, a, a);
    MulMono(0, b, b);
    MulMono(0, w, b * b);
    MulMono(0, h, a * a);
    if 2 <= w {
      MulMono(2, w, b * b);
    }
  }

  /** A step changes the width or the height, each by 0 or 2 pixels, and while the width lasts
      the rectangle stays inside the box and close to the ellipse. */
  lemma NextInside(a: nat, b: nat, o: Rect)
    requires Inside(a, b, o)
    ensures var n := Next(a, b, o);
            && (n.w == o.w || n.w == o.w - 2) && (n.h == o.h || n.h == o.h + 2) && n != o
            && (0 <= n.w ==> Inside(a, b, n))
  {
    hide Residual, Close, Dx, Dy;
    if o.h == b {
      AtTop(a, b, o);
    }
    if 0 <= Next(a, b, o).w {
      NextClose(a, b, o);
    }
  }

  lemma NextClose(a: nat, b: nat, o: Rect)
    requires 0 <= o.w && 0 <= o.h && Close(a, b, o) && 0 <= Next(a, b, o).w
    ensures Close(a, b, Next(a, b, o))
  {
    hide Residual;
    var n := Next(a, b, o);
    Neighbours(a, b, o);
    Products(a, b, o.w, o.h);
    assert n.h == o.h + 2 ==> a * a * n.h == a * a * o.h + 2 * (a * a);
    assert n.w == o.w - 2 ==> b * b * n.w == b * b * o.w - 2 * (b * b);
  }

  // ---------------------------------------------------------------- the rectangles plotted

  // The main loop's rectangles from o on: at least o, and then while there is width left.
  ghost function MainFrom(a: nat, b: nat, o: Rect): seq<Rect>
    requires Inside(a, b, o)
    decreases o.w + b - o.h
  {
    NextInside(a, b, o);
    [o] + if 0 <= Next(a, b, o).w then MainFrom(a, b, Next(a, b, o)) else []
  }

  // The state the main loop leaves behind.
  ghost function Leftover(a: nat, b: nat, o: Rect): Rect
    requires Inside(a, b, o)
    decreases o.w + b - o.h
  {
    NextInside(a, b, o);
    if 0 <= Next(a, b, o).w then Leftover(a, b, Next(a, b, o)) else Next(a, b, o)
  }

  // The tips: the last width, from the height left behind up to, but not with, the box's.
  function TipsFrom(b: nat, o: Rect): seq<Rect>
    decreases b - o.h
  {
    if o.h < b then [Rect(o.w + 2, o.h)] + TipsFrom(b, Rect(o.w, o.h + 2)) else []
  }

  // ---------------------------------------------------------------- plotting

  // A box's doubled centre, and the plane it is drawn in.
  datatype Centre = Centre(sx: int, sy: int, z: int)

  // The corners of a rectangle in the order the main loop, or the tip loop, plots them.
  function Four(c: Centre, o: Rect, tip: bool): (four: seq<Point>)
    ensures |four| == 4
  {
    var left, right := (c.sx - o.w) / 2, (c.sx + o.w) / 2;
    var low, high := (c.sy + o.h) / 2, (c.sy - o.h) / 2;
    if tip then [Point(left, low, c.z), Point(right, low, c.z), Point(left, high, c.z), Point(right, high, c.z)]
    else [Point(right, low, c.z), Point(left, low, c.z), Point(left, high, c.z), Point(right, high, c.z)]
  }

  function Plots(c: Centre, rects: seq<Rect>, tip: bool): seq<Point> {
    if rects == [] then []
    else Plots(c, rects[..|rects| - 1], tip) + Four(c, rects[|rects| - 1], tip)
  }

  lemma PlotsNext(c: Centre, rects: seq<Rect>, o: Rect, tip: bool)
    ensures Plots(c, rects + [o], tip) == Plots(c, rects, tip) + Four(c, o, tip)
    ensures Plots(c, [], tip) == []
  {
    assert (rects + [o])[..|rects|] == rects;
  }

  // The cursors stand on the corners of the rectangle o around the centre c.
  ghost predicate Cursors(c: Centre, o: Rect, x0: int, y0: int, x1: int, y1: int) {
    && x1 - x0 == o.w && x0 + x1 == c.sx
    && y0 - y1 == o.h && y0 + y1 == c.sy
  }

  // The loop's increments belong to the rectangle o.
  ghost predicate Increments(a: nat, b: nat, o: Rect, dx: int, dy: int, err: int) {
    && dx == Dx(b, o.w) && dy == Dy(a, o.h)
    && err == Residual(a, b, Rect(o.w - 2, o.h + 2))
  }

  method Step(ghost a: nat, ghost b: nat, ghost c: Centre, ghost o: Rect, ddy: int, ddx: int,
              x0: int, y0: int, x1: int, y1: int, dx: int, dy: int, err: int)
    returns (x0': int, y0': int, x1': int, y1': int, dx': int, dy': int, err': int)
    requires ddy == 8 * (a * a) && ddx == 8 * (b * b)
    requires Cursors(c, o, x0, y0, x1, y1) && Increments(a, b, o, dx, dy, err)
    ensures Cursors(c, Next(a, b, o), x0', y0', x1', y1')
    ensures Increments(a, b, Next(a, b, o), dx', dy', err')
  {
    hide Residual, Dx, Dy;
    Neighbours(a, b, o);
    Neighbours(a, b, Rect(o.w - 2, o.h + 2));
    Neighbours(a, b, Rect(o.w - 2, o.h));
    x0', y0', x1', y1', dx', dy', err' := x0, y0, x1, y1, dx, dy, err;
    var e2 := 2 * err';
    if e2 <= dy' {
      y0', y1' := y0' + 1, y1' - 1;
      dy' := dy' + ddy;
      err' := err' + dy';
    }
    if e2 >= dx' || 2 * err' > dy' {
      x0', x1' := x0' + 1, x1' - 1;
      dx' := dx' + ddx;
      err' := err' + dx';
    }
  }

  // The rectangles of the main loop, and of the tips, for a whole box.
  ghost function Main(a: nat, b: nat): seq<Rect> {
    StartInside(a, b);
    MainFrom(a, b, Start(a, b))
  }

  ghost function Tips(a: nat, b: nat): seq<Rect> {
    StartInside(a, b);
    TipsFrom(b, Leftover(a, b, Start(a, b)))
  }

  // All the calls for the box with the given width, height and centre.
  ghost function Drawn(a: nat, b: nat, c: Centre): seq<Point> {
    Plots(c, Main(a, b), false) + Plots(c, Tips(a, b), true)
  }

  method PlotEllipse(xa: int, ya: int, xb: int, yb: int, z: int) returns (log: seq<Point>)
    ensures log == Drawn(Abs(xb - xa), Abs(yb - ya), Centre(xa + xb, ya + yb, z))
  {
    hide Residual, Dx, Dy, Inside, Next, MainFrom, Leftover, TipsFrom, Four, Plots;
    var x0, y0, x1, y1 := xa, ya, xb, yb;
    var a, b := Abs(x1 - x0), Abs(y1 - y0);
    var b1 := b % 2;
    ghost var c := Centre(xa + xb, ya + yb, z);
    var dx, dy := 4 * (1 - a) * b * b, 4 * (b1 + 1) * a * a;
    var err := dx + dy + b1 * a * a;
    StartIncrements(a, b, dx, dy, err);
    if x0 > x1 {
      x0 := x1;
      x1 := x1 + a;
    }
    if y0 > y1 {
      y0 := y1;
    }
    y0 := y0 + (b + 1) / 2;
    y1 := y0 - b1;
    var ddy, ddx := a * (8 * a), 8 * b * b;

    ghost var o, done := Start(a, b), [];
    StartInside(a, b);
    log := [];
    PlotsNext(c, done, o, false);
    while true
      invariant Inside(a, b, o)
      invariant Cursors(c, o, x0, y0, x1, y1) && Increments(a, b, o, dx, dy, err)
      invariant done + MainFrom(a, b, o) == MainFrom(a, b, Start(a, b))
      invariant Leftover(a, b, o) == Leftover(a, b, Start(a, b))
      invariant log == Plots(c, done, false)
      decreases o.w + b - o.h
    {
      CursorsAreCorners(c, o, x0, y0, x1, y1);
      log := log + [Point(x1, y0, z), Point(x0, y0, z), Point(x0, y1, z), Point(x1, y1, z)];
      PlotsNext(c, done, o, false);
      MainUnrolled(a, b, done, o);
      x0, y0, x1, y1, dx, dy, err := Step(a, b, c, o, ddy, ddx, x0, y0, x1, y1, dx, dy, err);
      done, o := done + [o], Next(a, b, o);
      if !(x0 <= x1) { break; }
    }

    ghost var main, tips := log, [];
    PlotsNext(c, tips, o, true);
    while y0 - y1 < b
      invariant Cursors(c, o, x0, y0, x1, y1)
      invariant tips + TipsFrom(b, o) == TipsFrom(b, Leftover(a, b, Start(a, b)))
      invariant log == main + Plots(c, tips, true)
      decreases b - (y0 - y1)
    {
      ghost var r := Rect(o.w + 2, o.h);
      CursorsAreCorners(c, r, x0 - 1, y0, x1 + 1, y1);
      log := log + [Point(x0 - 1, y0, z), Point(x1 + 1, y0, z), Point(x0 - 1, y1, z), Point(x1 + 1, y1, z)];
      PlotsNext(c, tips, r, true);
      TipsUnrolled(b, tips, o);
      y0, y1 := y0 + 1, y1 - 1;
      tips, o := tips + [r], Rect(o.w, o.h + 2);
    }
    TipsUnrolled(b, tips, o);
  }

  lemma StartIncrements(a: nat, b: nat, dx: int, dy: int, err: int)
    requires dx == 4 * (1 - a) * b * b && dy == 4 * (b % 2 + 1) * a * a && err == dx + dy + b % 2 * a * a
    ensures Increments(a, b, Start(a, b), dx, dy, err)
    ensures a * (8 * a) == 8 * (a * a) && 8 * b * b == 8 * (b * b)
  {
    hide Residual, Dx, Dy, Inside;
    StartInside(a, b);
    Neighbours(a, b, Start(a, b));
    FirstDx(a, b);
    FirstDy(a, b % 2);
  }

  lemma FirstDx(a: nat, b: nat)
    ensures 4 * (1 - a) * b * b == Dx(b, a) && 8 * b * b == 8 * (b * b)
  {
    var B := b * b;
    assert 4 * (1 - a) * b * b == 4 * (1 - a) * B;
    assert (1 - a) * B == B - B * a;
  }

  lemma FirstDy(a: nat, b1: nat)
    requires b1 == 0 || b1 == 1
    ensures 4 * (b1 + 1) * a * a == Dy(a, b1) && b1 * a * a == b1 * (a * a) && a * (8 * a) == 8 * (a * a)
  {
    var A := a * a;
    if b1 == 0 {
      assert A * b1 == 0 && b1 * a == 0;
    } else {
      assert A * b1 == A && b1 * a == a;
    }
  }

  lemma CursorsAreCorners(c: Centre, o: Rect, x0: int, y0: int, x1: int, y1: int)
    requires Cursors(c, o, x0, y0, x1, y1)
    ensures Four(c, o, false) == [Point(x1, y0, c.z), Point(x0, y0, c.z), Point(x0, y1, c.z), Point(x1, y1, c.z)]
    ensures Four(c, o, true) == [Point(x0, y0, c.z), Point(x1, y0, c.z), Point(x0, y1, c.z), Point(x1, y1, c.z)]
  {
  }

  // One rectangle moves from the loop ahead to the loop done.
  lemma MainUnrolled(a: nat, b: nat, done: seq<Rect>, o: Rect)
    requires Inside(a, b, o)
    ensures var n := Next(a, b, o);
            if 0 <= n.w then
              && Inside(a, b, n)
              && done + MainFrom(a, b, o) == done + [o] + MainFrom(a, b, n)
              && Leftover(a, b, o) == Leftover(a, b, n)
              && 0 <= n.w + b - n.h < o.w + b - o.h
            else
              done + MainFrom(a, b, o) == done + [o] && Leftover(a, b, o) == n
  {
    hide Residual, Dx, Dy, Next, Close;
    NextInside(a, b, o);
  }

  lemma TipsUnrolled(b: nat, done: seq<Rect>, o: Rect)
    ensures o.h < b ==> done + TipsFrom(b, o) == done + [Rect(o.w + 2, o.h)] + TipsFrom(b, Rect(o.w, o.h + 2))
    ensures b <= o.h ==> done + TipsFrom(b, o) == done
  {
  }

  // ---------------------------------------------------------------- what is drawn

  // Every rectangle of the main loop is inside, and the one left behind has just run out of
  // width, unless the box is a single column and row.
  lemma {:induction false} MainIsInside(a: nat, b: nat, o: Rect)
    requires Inside(a, b, o)
    ensures forall i :: 0 <= i < |MainFrom(a, b, o)| ==> Inside(a, b, MainFrom(a, b, o)[i])
    ensures var l := Leftover(a, b, o); -2 <= l.w < 0 && l.w % 2 == a % 2 && l.h % 2 == b % 2 && b % 2 <= l.h
    decreases o.w + b - o.h
  {
    hide Residual, Dx, Dy, Next, Close;
    NextInside(a, b, o);
    if 0 <= Next(a, b, o).w {
      MainIsInside(a, b, Next(a, b, o));
    }
  }

  lemma {:induction false} TipsAreInside(b: nat, o: Rect, i: nat)
    requires i < |TipsFrom(b, o)|
    ensures TipsFrom(b, o)[i] == Rect(o.w + 2, o.h + 2 * i) && o.h + 2 * i < b
    decreases b - o.h
  {
    if 0 < i {
      TipsAreInside(b, Rect(o.w, o.h + 2), i - 1);
    }
  }

  lemma {:induction false} InPlots(c: Centre, rects: seq<Rect>, tip: bool, p: Point)
    ensures p in Plots(c, rects, tip) <==> exists i :: 0 <= i < |rects| && p in Four(c, rects[i], tip)
  {
    hide Four;
    if rects != [] {
      var n, before := |rects| - 1, rects[..|rects| - 1];
      InPlots(c, before, tip, p);
      if p in Plots(c, before, tip) {
        var i :| 0 <= i < n && p in Four(c, before[i], tip);
        assert p in Four(c, rects[i], tip);
      }
      forall i | 0 <= i < n && p in Four(c, rects[i], tip) ensures p in Plots(c, before, tip) {
        assert p in Four(c, before[i], tip);
      }
    }
  }

  lemma DrawnParts(a: nat, b: nat, c: Centre, p: Point)
    ensures p in Drawn(a, b, c) <==> p in Plots(c, Main(a, b), false) || p in Plots(c, Tips(a, b), true)
  {
    hide Plots, Main, Tips;
  }

  lemma MainRects(a: nat, b: nat)
    ensures forall i :: 0 <= i < |Main(a, b)| ==> Inside(a, b, Main(a, b)[i])
  {
    hide MainFrom, Inside;
    StartInside(a, b);
    MainIsInside(a, b, Start(a, b));
  }

  lemma TipRects(a: nat, b: nat, i: nat)
    requires i < |Tips(a, b)|
    ensures var o := Tips(a, b)[i]; o.w == a % 2 && b % 2 <= o.h < b && o.h % 2 == b % 2
  {
    hide MainFrom, Leftover, TipsFrom, Inside;
    StartInside(a, b);
    MainIsInside(a, b, Start(a, b));
    TipsAreInside(b, Leftover(a, b, Start(a, b)), i);
  }

  /** A plotted pixel is a corner of a rectangle that is either one of the main loop's or a
      tip, of the last width and short of the box's height. */
  lemma DrawnFrom(a: nat, b: nat, c: Centre, p: Point) returns (o: Rect, tip: bool)
    requires p in Drawn(a, b, c)
    ensures p in Four(c, o, tip) && forall q :: q in Four(c, o, tip) ==> q in Drawn(a, b, c)
    ensures 0 <= o.w <= a && o.w % 2 == a % 2 && 0 <= o.h <= b && o.h % 2 == b % 2
    ensures !tip ==> Inside(a, b, o)
    ensures tip ==> o.w == a % 2 && o.h < b
  {
    hide Close, Four, Plots, Main, Tips, Drawn;
    DrawnParts(a, b, c, p);
    MainRects(a, b);
    tip := p !in Plots(c, Main(a, b), false);
    var rects := if tip then Tips(a, b) else Main(a, b);
    InPlots(c, rects, tip, p);
    var i: nat :| i < |rects| && p in Four(c, rects[i], tip);
    o := rects[i];
    if tip {
      TipRects(a, b, i);
    }
    forall q | q in Four(c, o, tip) ensures q in Drawn(a, b, c) {
      DrawnParts(a, b, c, q);
      InPlots(c, rects, tip, q);
    }
  }

  /** For corners in any order, every plotted pixel lies in their box, and its mirror images
      about the box's centre lines are plotted too. */
  lemma EllipseInBox(xa: int, ya: int, xb: int, yb: int, z: int, p: Point)
    requires p in Drawn(Abs(xb - xa), Abs(yb - ya), Centre(xa + xb, ya + yb, z))
    ensures Min(xa, xb) <= p.x <= Max(xa, xb) && Min(ya, yb) <= p.y <= Max(ya, yb) && p.z == z
    ensures var log := Drawn(Abs(xb - xa), Abs(yb - ya), Centre(xa + xb, ya + yb, z));
            && Point(xa + xb - p.x, p.y, z) in log
            && Point(p.x, ya + yb - p.y, z) in log
  {
    hide Drawn, Inside;
    var a, b, c := Abs(xb - xa), Abs(yb - ya), Centre(xa + xb, ya + yb, z);
    var o, tip := DrawnFrom(a, b, c, p);
    FourInBox(xa, ya, xb, yb, z, o, tip, p);
  }

  // The rectangle has pixel corners around the centre.
  predicate SameParity(c: Centre, o: Rect) {
    0 <= o.w && 0 <= o.h && c.sx % 2 == o.w % 2 && c.sy % 2 == o.h % 2
  }

  lemma HalfExact(s: int, w: int, x: int)
    requires 0 <= w && s % 2 == w % 2
    ensures x == (s - w) / 2 || x == (s + w) / 2 <==> Abs(2 * x - s) == w
  {
    assert s - w == 2 * ((s - w) / 2) && s + w == 2 * ((s + w) / 2);
  }

  // A rectangle's corners are the pixels that far from the centre lines.
  lemma FourExact(c: Centre, o: Rect, tip: bool, p: Point)
    requires SameParity(c, o)
    ensures p in Four(c, o, tip) <==> p.z == c.z && Rect(Abs(2 * p.x - c.sx), Abs(2 * p.y - c.sy)) == o
  {
    HalfExact(c.sx, o.w, p.x);
    HalfExact(c.sy, o.h, p.y);
    var four := Four(c, o, tip);
    assert p in four <==> p == four[0] || p == four[1] || p == four[2] || p == four[3];
  }

  lemma FourInBox(xa: int, ya: int, xb: int, yb: int, z: int, o: Rect, tip: bool, p: Point)
    requires var a, b := Abs(xb - xa), Abs(yb - ya);
             0 <= o.w <= a && o.w % 2 == a % 2 && 0 <= o.h <= b && o.h % 2 == b % 2
    requires p in Four(Centre(xa + xb, ya + yb, z), o, tip)
    ensures Min(xa, xb) <= p.x <= Max(xa, xb) && Min(ya, yb) <= p.y <= Max(ya, yb) && p.z == z
    ensures var four := Four(Centre(xa + xb, ya + yb, z), o, tip);
            Point(xa + xb - p.x, p.y, z) in four && Point(p.x, ya + yb - p.y, z) in four
  {
    hide Four;
    var c := Centre(xa + xb, ya + yb, z);
    FourExact(c, o, tip, p);
    FourExact(c, o, tip, Point(xa + xb - p.x, p.y, z));
    FourExact(c, o, tip, Point(p.x, ya + yb - p.y, z));
  }

  /** Accuracy of the main loop: with u and v the pixel's doubled distances from the centre
      lines, b*b*u*u + a*a*v*v differs from a*a*b*b by at most the greater of 2*b*b*(u+1) and
      2*a*a*(v+1), half of what a pixel more on both sides adds. The remaining pixels are the
      tips, at most one column off the centre line. */
  lemma EllipseAccuracy(a: nat, b: nat, c: Centre, p: Point)
    requires p in Drawn(a, b, c) && c.sx % 2 == a % 2 && c.sy % 2 == b % 2
    ensures var u, v := 2 * p.x - c.sx, 2 * p.y - c.sy;
            || Close(a, b, Rect(Abs(u), Abs(v)))
            || (Abs(u) == a % 2 && Abs(v) < b)
  {
    hide Drawn, Close;
    var o, tip := DrawnFrom(a, b, c, p);
    FourExact(c, o, tip, p);
  }

  // ---------------------------------------------------------------- no row is skipped

  // Heights grow two at a time, from o's to the one left behind.
  lemma {:induction false} HeightsVisited(a: nat, b: nat, o: Rect, h: int) returns (i: nat)
    requires Inside(a, b, o) && o.h <= h < Leftover(a, b, o).h && h % 2 == b % 2
    ensures i < |MainFrom(a, b, o)| && MainFrom(a, b, o)[i].h == h
    decreases o.w + b - o.h
  {
    hide Residual, Dx, Dy, Next, Close;
    NextInside(a, b, o);
    if h == o.h {
      i := 0;
    } else {
      var j := HeightsVisited(a, b, Next(a, b, o), h);
      i := j + 1;
    }
  }

  lemma {:induction false} TipsVisited(b: nat, o: Rect, i: nat)
    requires o.h + 2 * i < b
    ensures i < |TipsFrom(b, o)|
    decreases b - o.h
  {
    if 0 < i {
      TipsVisited(b, Rect(o.w, o.h + 2), i - 1);
    }
  }

  lemma RectOfHeight(a: nat, b: nat, c: Centre, h: int) returns (o: Rect, tip: bool)
    requires b % 2 <= h < b && h % 2 == b % 2
    ensures o.h == h && forall p :: p in Four(c, o, tip) ==> p in Drawn(a, b, c)
  {
    hide Residual, Next, Close, Plots, MainFrom, Leftover, TipsFrom, Drawn, Four;
    StartInside(a, b);
    MainIsInside(a, b, Start(a, b));
    var l := Leftover(a, b, Start(a, b));
    var main, tips := MainFrom(a, b, Start(a, b)), TipsFrom(b, l);
    tip := l.h <= h;
    var i: nat;
    if tip {
      i := (h - l.h) / 2;
      TipsVisited(b, l, i);
      TipsAreInside(b, l, i);
      o := tips[i];
    } else {
      i := HeightsVisited(a, b, Start(a, b), h);
      o := main[i];
    }
    forall p | p in Four(c, o, tip) ensures p in Drawn(a, b, c) {
      InPlots(c, if tip then tips else main, tip, p);
      DrawnParts(a, b, c, p);
    }
  }

  /** Every row strictly inside the box is reached: for each height short of the box's, pixels
      are plotted on both rows that far apart. */
  lemma EllipseRows(a: nat, b: nat, c: Centre, h: int)
    requires b % 2 <= h < b && h % 2 == b % 2
    ensures exists p :: p in Drawn(a, b, c) && p.y == (c.sy + h) / 2
    ensures exists p :: p in Drawn(a, b, c) && p.y == (c.sy - h) / 2
  {
    hide Drawn;
    var o, tip := RectOfHeight(a, b, c, h);
    var four := Four(c, o, tip);
    assert four[0] in four && four[3] in four;
  }

  // ---------------------------------------------------------------- the pixels, exactly

  // Not too far inside the ellipse.
  ghost predicate Reaches(a: nat, b: nat, o: Rect) {
    var W, H, d := b * b * o.w, a * a * o.h, Residual(a, b, o);
    -2 * (W + b * b) <= d || -2 * (H + a * a) < d
  }

  // Not too far outside, in one direction or the other.
  ghost predicate Upright(a: nat, b: nat, o: Rect) {
    Residual(a, b, o) <= 2 * (a * a * o.h - a * a)
  }

  ghost predicate Keeps(a: nat, b: nat, o: Rect) {
    Residual(a, b, o) < 2 * (b * b * o.w - b * b) || Upright(a, b, o)
  }

  // The rectangle has pixel corners in the box.
  predicate Fits(a: nat, b: nat, o: Rect) {
    0 <= o.w <= a && o.w % 2 == a % 2 && b % 2 <= o.h <= b && o.h % 2 == b % 2
  }

  // A corner: both inner neighbours would do.
  ghost predicate Corner(a: nat, b: nat, o: Rect) {
    Reaches(a, b, Rect(o.w, o.h - 2)) && Reaches(a, b, Rect(o.w - 2, o.h))
  }

  /** The rectangles of the main loop: neither too far inside nor, past the first row, too far
      outside, and no corners. */
  ghost predicate OnCurve(a: nat, b: nat, o: Rect) {
    && Fits(a, b, o)
    && Reaches(a, b, o)
    && (2 <= o.h ==> Keeps(a, b, o) && !Corner(a, b, o))
  }

  lemma Wider(a: nat, b: nat, o: Rect)
    ensures Residual(a, b, Rect(o.w + 2, o.h)) == Residual(a, b, o) + 4 * (b * b * o.w + b * b)
    ensures b * b * (o.w + 2) == b * b * o.w + 2 * (b * b)
  {
    var B, w := b * b, o.w;
    assert B * ((w + 2) * (w + 2)) == B * (w * w) + 4 * (B * w) + 4 * B;
    assert B * (w + 2) == B * w + 2 * B;
  }

  lemma Higher(a: nat, b: nat, o: Rect)
    ensures Residual(a, b, Rect(o.w, o.h + 2)) == Residual(a, b, o) + 4 * (a * a * o.h + a * a)
    ensures a * a * (o.h + 2) == a * a * o.h + 2 * (a * a)
  {
    var A, h := a * a, o.h;
    assert A * ((h + 2) * (h + 2)) == A * (h * h) + 4 * (A * h) + 4 * A;
    assert A * (h + 2) == A * h + 2 * A;
  }

  // The step, in terms of the diagonal neighbour.
  lemma NextByDiagonal(a: nat, b: nat, o: Rect)
    requires 0 <= o.w && 0 <= o.h
    ensures var q := Rect(o.w - 2, o.h + 2);
            Next(a, b, o) == if !Reaches(a, b, q) then Rect(o.w, o.h + 2)
                             else if !Upright(a, b, q) then Rect(o.w - 2, o.h) else q
  {
    hide Residual;
    Products(a, b, o.w, o.h);
    Neighbours(a, b, o);
    Wider(a, b, Rect(o.w - 2, o.h + 2));
    Higher(a, b, o);
  }

  // On its first rows a rectangle is inside, or nearly.
  lemma FirstRowInside(a: nat, b: nat, o: Rect)
    requires 0 <= o.w <= a && 0 <= o.h < 2 && o.h <= b
    ensures Residual(a, b, o) <= o.h * (a * a) && (b == 0 || b * b >= 1)
  {
    MulMono(o.w, a, o.w);
    MulMono(o.w, a, a);
    MulMono(o.w * o.w, a * a, b * b);
    if 0 < b {
      MulMono(1, b, b);
    }
    if o.h == 1 {
      assert a * a * (1 * 1) == a * a;
    }
  }

  lemma UpOnCurve(a: nat, b: nat, o: Rect)
    requires 0 <= o.w && 0 <= o.h && Reaches(a, b, o) && !Reaches(a, b, Rect(o.w - 2, o.h + 2))
    ensures var n := Rect(o.w, o.h + 2); Reaches(a, b, n) && Keeps(a, b, n) && !Corner(a, b, n)
  {
    hide Residual;
    Products(a, b, o.w, o.h);
    Wider(a, b, Rect(o.w - 2, o.h + 2));
    Higher(a, b, o);
  }

  lemma InOnCurve(a: nat, b: nat, o: Rect)
    requires 2 <= o.w <= a && 0 <= o.h && OnCurve(a, b, o)
    requires !Upright(a, b, Rect(o.w - 2, o.h + 2))
    ensures var n := Rect(o.w - 2, o.h); Reaches(a, b, n) && (2 <= n.h ==> Keeps(a, b, n) && !Corner(a, b, n))
  {
    hide Residual;
    Products(a, b, o.w, o.h);
    Wider(a, b, Rect(o.w - 2, o.h));
    Wider(a, b, Rect(o.w - 2, o.h - 2));
    Higher(a, b, Rect(o.w - 2, o.h));
    Higher(a, b, Rect(o.w, o.h - 2));
    Higher(a, b, Rect(o.w - 2, o.h - 2));
  }

  lemma BothOnCurve(a: nat, b: nat, o: Rect)
    requires 2 <= o.w <= a && OnCurve(a, b, o)
    requires var q := Rect(o.w - 2, o.h + 2); Reaches(a, b, q) && Upright(a, b, q)
    ensures !Corner(a, b, Rect(o.w - 2, o.h + 2))
  {
    hide Residual;
    Products(a, b, o.w, o.h);
    Wider(a, b, Rect(o.w - 2, o.h));
    Higher(a, b, Rect(o.w - 2, o.h));
    if o.h < 2 {
      FirstRowInside(a, b, o);
    }
  }

  lemma OnCurveNext(a: nat, b: nat, o: Rect)
    requires OnCurve(a, b, o) && Inside(a, b, o) && 0 <= Next(a, b, o).w
    ensures OnCurve(a, b, Next(a, b, o))
  {
    hide Residual, Next, Close, Reaches, Upright, Corner, Keeps;
    NextInside(a, b, o);
    NextByDiagonal(a, b, o);
    var q := Rect(o.w - 2, o.h + 2);
    if !Reaches(a, b, q) {
      UpOnCurve(a, b, o);
    } else if !Upright(a, b, q) {
      InOnCurve(a, b, o);
    } else {
      BothOnCurve(a, b, o);
      UprightKeeps(a, b, q);
    }
  }

  lemma UprightKeeps(a: nat, b: nat, o: Rect)
    requires Upright(a, b, o)
    ensures Keeps(a, b, o)
  {
  }

  // At the box's full width no rectangle is inside.
  lemma FullWidthReaches(a: nat, b: nat, h: nat)
    ensures Reaches(a, b, Rect(a, h))
  {
    Products(a, b, a, h);
    MulMono(0, h, h);
    MulMono(0, h * h, a * a);
    MulCommutes(a * a, b * b);
  }

  lemma FromBelow(a: nat, b: nat, o: Rect)
    requires 0 <= o.w && 2 <= o.h && Keeps(a, b, o) && !Reaches(a, b, Rect(o.w - 2, o.h))
    ensures Keeps(a, b, Rect(o.w, o.h - 2)) && !Corner(a, b, Rect(o.w, o.h - 2))
  {
    hide Residual;
    Products(a, b, o.w, o.h - 2);
    Wider(a, b, Rect(o.w - 2, o.h));
    Wider(a, b, Rect(o.w - 2, o.h - 2));
    Higher(a, b, Rect(o.w, o.h - 2));
    Higher(a, b, Rect(o.w - 2, o.h - 2));
  }

  lemma FromDiagonal(a: nat, b: nat, o: Rect)
    requires 0 <= o.w && 2 <= o.h && !Reaches(a, b, Rect(o.w, o.h - 2))
    ensures Upright(a, b, o) && Keeps(a, b, Rect(o.w + 2, o.h - 2)) && !Corner(a, b, Rect(o.w + 2, o.h - 2))
  {
    hide Residual;
    Products(a, b, o.w, o.h - 2);
    Wider(a, b, Rect(o.w, o.h - 2));
    Wider(a, b, Rect(o.w, o.h - 4));
    Higher(a, b, Rect(o.w, o.h - 2));
    Higher(a, b, Rect(o.w, o.h - 4));
  }

  lemma FromAside(a: nat, b: nat, o: Rect)
    requires 0 <= o.w && 2 <= o.h && Reaches(a, b, o)
    requires !Reaches(a, b, Rect(o.w, o.h - 2)) && !Reaches(a, b, Rect(o.w + 2, o.h - 2))
    ensures Reaches(a, b, Rect(o.w, o.h + 2)) && !Upright(a, b, Rect(o.w, o.h + 2))
    ensures var p := Rect(o.w + 2, o.h); Reaches(a, b, p) && Keeps(a, b, p) && !Corner(a, b, p)
  {
    hide Residual;
    Products(a, b, o.w, o.h - 2);
    Wider(a, b, o);
    Wider(a, b, Rect(o.w, o.h - 2));
    Higher(a, b, o);
    Higher(a, b, Rect(o.w, o.h - 2));
    Higher(a, b, Rect(o.w + 2, o.h - 2));
  }

  lemma FromAsideOnFirstRow(a: nat, b: nat, o: Rect)
    requires 0 <= o.w && o.w + 2 <= a && 0 <= o.h < 2 && o.h <= b && Reaches(a, b, o)
    ensures Reaches(a, b, Rect(o.w, o.h + 2)) && !Upright(a, b, Rect(o.w, o.h + 2))
    ensures Reaches(a, b, Rect(o.w + 2, o.h))
  {
    hide Residual;
    MulMono(1, a, a);
    Products(a, b, o.w, o.h);
    Wider(a, b, o);
    Higher(a, b, o);
    FirstRowInside(a, b, Rect(o.w + 2, o.h));
    assert o.h == 0 || o.h == 1;
    assert a * a * 0 == 0 && a * a * 1 == a * a;
    if b == 0 {
      NoHeight(a, o.w);
    }
  }

  lemma NoHeight(a: nat, w: int)
    ensures Residual(a, 0, Rect(w, 0)) == 0
  {
  }

  lemma NoCorner(a: nat, b: nat, o: Rect)
    requires !Corner(a, b, o) && Reaches(a, b, Rect(o.w, o.h - 2))
    ensures !Reaches(a, b, Rect(o.w - 2, o.h))
  {
  }

  lemma FitsBack(a: nat, b: nat, o: Rect)
    requires Fits(a, b, o)
    ensures 0 <= o.w && 0 <= o.h <= b
    ensures 2 <= o.h ==> Fits(a, b, Rect(o.w, o.h - 2))
    ensures o.w != a ==> o.w + 2 <= a && Fits(a, b, Rect(o.w + 2, o.h))
    ensures o.w != a && 2 <= o.h ==> Fits(a, b, Rect(o.w + 2, o.h - 2))
    ensures o.h < 2 && o.w == a ==> o == Start(a, b)
  {
  }

  // Every rectangle of the curve but the first is the next one of another.
  lemma Entered(a: nat, b: nat, o: Rect) returns (p: Rect)
    requires OnCurve(a, b, o) && o != Start(a, b)
    ensures OnCurve(a, b, p) && Next(a, b, p) == o && p.h - p.w < o.h - o.w
  {
    hide Residual, Next, Reaches, Upright, Keeps, Corner, Fits, Start;
    FitsBack(a, b, o);
    var below, aside := Rect(o.w, o.h - 2), Rect(o.w + 2, o.h);
    var both := Rect(o.w + 2, o.h - 2);
    if o.h < 2 {
      FromAsideOnFirstRow(a, b, o);
      p := aside;
    } else if Reaches(a, b, below) {
      NoCorner(a, b, o);
      FromBelow(a, b, o);
      p := below;
    } else {
      FullWidthReaches(a, b, o.h - 2);
      FromDiagonal(a, b, o);
      p := both;
      if !Reaches(a, b, both) {
        FromAside(a, b, o);
        p := aside;
      }
    }
    NextByDiagonal(a, b, p);
  }

  // The rectangles m are a walk inside the box that ends by running out of width, at l.
  ghost predicate Walk(a: nat, b: nat, m: seq<Rect>, l: Rect) {
    && m != []
    && (forall t :: 0 <= t < |m| - 1 ==> m[t + 1] == Next(a, b, m[t]))
    && (forall t :: 0 <= t < |m| ==> Inside(a, b, m[t]) && m[t].h <= m[|m| - 1].h)
    && Next(a, b, m[|m| - 1]) == l && l.w < 0
  }

  lemma {:induction false} MainIsWalk(a: nat, b: nat, o: Rect)
    requires Inside(a, b, o)
    ensures Walk(a, b, MainFrom(a, b, o), Leftover(a, b, o)) && MainFrom(a, b, o)[0] == o
    decreases o.w + b - o.h
  {
    hide Residual, Next, Close;
    NextInside(a, b, o);
    if 0 <= Next(a, b, o).w {
      MainIsWalk(a, b, Next(a, b, o));
    }
  }

  ghost function End(a: nat, b: nat): Rect {
    StartInside(a, b);
    Leftover(a, b, Start(a, b))
  }

  lemma MainWalks(a: nat, b: nat)
    ensures Walk(a, b, Main(a, b), End(a, b)) && Main(a, b)[0] == Start(a, b)
    ensures Tips(a, b) == TipsFrom(b, End(a, b))
  {
    hide Next, Inside, MainFrom, Leftover, Walk;
    StartInside(a, b);
    MainIsWalk(a, b, Start(a, b));
  }

  // The walk ends on the narrowest rectangle, and at its height or one row beyond.
  lemma WalkEnds(a: nat, b: nat)
    ensures var m, l := Main(a, b), End(a, b);
            && m != [] && (forall t :: 0 <= t < |m| ==> m[t].h <= m[|m| - 1].h)
            && var last := m[|m| - 1];
               && last.w == a % 2 == l.w + 2
               && last.h % 2 == b % 2 && b % 2 <= last.h && (l.h == last.h || l.h == last.h + 2)
  {
    hide Next, Main, End, Close;
    MainWalks(a, b);
    var m := Main(a, b);
    NextInside(a, b, m[|m| - 1]);
  }

  lemma StartOnCurve(a: nat, b: nat)
    ensures OnCurve(a, b, Start(a, b))
  {
    FullWidthReaches(a, b, b % 2);
  }

  lemma {:induction false} MainIsOnCurve(a: nat, b: nat, t: nat)
    requires t < |Main(a, b)|
    ensures OnCurve(a, b, Main(a, b)[t])
  {
    hide Next, Close, Main, OnCurve;
    MainWalks(a, b);
    if t == 0 {
      StartOnCurve(a, b);
    } else {
      MainIsOnCurve(a, b, t - 1);
      assert Main(a, b)[t - 1 + 1] == Next(a, b, Main(a, b)[t - 1]) && Inside(a, b, Main(a, b)[t]);
      OnCurveNext(a, b, Main(a, b)[t - 1]);
    }
  }

  lemma InTheBox(a: nat, b: nat, o: Rect)
    requires OnCurve(a, b, o)
    ensures 0 <= o.w <= a && b % 2 <= o.h <= b && o.w % 2 == a % 2 && o.h % 2 == b % 2
  {
  }

  lemma {:induction false} OnCurveIsMain(a: nat, b: nat, o: Rect) returns (t: nat)
    requires OnCurve(a, b, o)
    ensures t < |Main(a, b)| && Main(a, b)[t] == o
    decreases a + o.h - o.w
  {
    hide Next, Inside, Main, OnCurve;
    MainWalks(a, b);
    InTheBox(a, b, o);
    t := 0;
    if o != Start(a, b) {
      var p := Entered(a, b, o);
      InTheBox(a, b, p);
      var before := OnCurveIsMain(a, b, p);
      t := before + 1;
    }
  }

  /** The rectangles whose corners are plotted: the curve's, and the tips, of the last width
      from the curve's greatest height up to, but not with, the box's. */
  ghost predicate InFigure(a: nat, b: nat, o: Rect) {
    || OnCurve(a, b, o)
    || (&& o.w == a % 2 && o.h % 2 == b % 2 && o.h < b
        && forall n :: OnCurve(a, b, n) ==> n.h <= o.h)
  }

  lemma TipsExact(a: nat, b: nat, o: Rect)
    ensures o in Tips(a, b) ==> InFigure(a, b, o)
    ensures InFigure(a, b, o) ==> o in Tips(a, b) || o in Main(a, b)
  {
    hide TipsFrom, OnCurve, Main, End, Tips, Walk;
    MainWalks(a, b);
    WalkEnds(a, b);
    var m, l := Main(a, b), End(a, b);
    if o in Tips(a, b) {
      var i: nat :| i < |Tips(a, b)| && Tips(a, b)[i] == o;
      TipsAreInside(b, l, i);
      forall n | OnCurve(a, b, n) ensures n.h <= o.h {
        var t := OnCurveIsMain(a, b, n);
      }
    }
    if OnCurve(a, b, o) {
      var t := OnCurveIsMain(a, b, o);
    } else if InFigure(a, b, o) {
      MainIsOnCurve(a, b, |m| - 1);
      if l.h <= o.h {
        TipsVisited(b, l, (o.h - l.h) / 2);
        TipsAreInside(b, l, (o.h - l.h) / 2);
      }
    }
  }

  /** The whole ellipse, for corners in any order: a pixel is plotted if and only if its doubled
      distances from the box's centre lines are the sides of a rectangle of the figure. */
  lemma EllipseExact(xa: int, ya: int, xb: int, yb: int, z: int, p: Point)
    ensures var a, b, c := Abs(xb - xa), Abs(yb - ya), Centre(xa + xb, ya + yb, z);
            p in Drawn(a, b, c) <==>
            p.z == z && InFigure(a, b, Rect(Abs(2 * p.x - c.sx), Abs(2 * p.y - c.sy)))
  {
    hide Drawn, InFigure, Four, Plots, Main, Tips, SameParity, Abs;
    var a, b, c := Abs(xb - xa), Abs(yb - ya), Centre(xa + xb, ya + yb, z);
    var o := Rect(Abs(2 * p.x - c.sx), Abs(2 * p.y - c.sy));
    BoxParity(xa, xb);
    BoxParity(ya, yb);
    DrawnParts(a, b, c, p);
    RectsParity(a, b, c);
    PlotsExact(c, Main(a, b), false, p);
    PlotsExact(c, Tips(a, b), true, p);
    TipsExact(a, b, o);
    if o in Main(a, b) {
      var i: nat :| i < |Main(a, b)| && Main(a, b)[i] == o;
      MainIsOnCurve(a, b, i);
      CurveInFigure(a, b, o);
    }
  }

  lemma BoxParity(u: int, v: int)
    ensures (u + v) % 2 == Abs(v - u) % 2
  {
    assert u + v == (v - u) + 2 * u && u + v == (u - v) + 2 * v;
  }

  lemma RectsParity(a: nat, b: nat, c: Centre)
    requires c.sx % 2 == a % 2 && c.sy % 2 == b % 2
    ensures forall o :: o in Main(a, b) || o in Tips(a, b) ==> SameParity(c, o)
  {
    hide Main, Tips, Close;
    forall i: nat | i < |Tips(a, b)| ensures SameParity(c, Tips(a, b)[i]) {
      TipRects(a, b, i);
    }
    MainRects(a, b);
    forall o | o in Main(a, b) ensures SameParity(c, o) {
      var i: nat :| i < |Main(a, b)| && Main(a, b)[i] == o;
      assert Inside(a, b, Main(a, b)[i]);
    }
  }

  lemma PlotsExact(c: Centre, rects: seq<Rect>, tip: bool, p: Point)
    requires forall o :: o in rects ==> SameParity(c, o)
    ensures p in Plots(c, rects, tip) <==>
            p.z == c.z && Rect(Abs(2 * p.x - c.sx), Abs(2 * p.y - c.sy)) in rects
  {
    hide Four, Plots, SameParity;
    InPlots(c, rects, tip, p);
    var o := Rect(Abs(2 * p.x - c.sx), Abs(2 * p.y - c.sy));
    forall i: nat | i < |rects| ensures p in Four(c, rects[i], tip) <==> p.z == c.z && rects[i] == o {
      FourExact(c, rects[i], tip, p);
    }
    if o in rects {
      var i: nat :| i < |rects| && rects[i] == o;
    }
  }

  lemma CurveInFigure(a: nat, b: nat, o: Rect)
    requires OnCurve(a, b, o)
    ensures InFigure(a, b, o)
  {
  }
}
