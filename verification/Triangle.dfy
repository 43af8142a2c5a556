/** The two-phase triangle filler: vertices sorted by row, then every row from the highest
    vertex to the lowest gets one span, the hull of the pixels two edges have on that row. */
module Triangle {
  import opened Arithmetic
  import opened DigitalEdge
  import opened EdgeWalk
  import opened Scanline

  // The pixels row y is filled from: the long edge, with the upper edge above the middle
  // vertex and the lower edge from it on.
  predicate RowPixel(v1: Vertex, v2: Vertex, v3: Vertex, x: int, y: int)
    requires v1.y <= v2.y <= v3.y
  {
    || EdgePixel(v1, v3, x, y)
    || (if y < v2.y then EdgePixel(v1, v2, x, y) else EdgePixel(v2, v3, x, y))
  }

  // The span is the smallest one holding the pixels of its row.
  ghost predicate IsHull(v1: Vertex, v2: Vertex, v3: Vertex, s: Span)
    requires v1.y <= v2.y <= v3.y
  {
    && RowPixel(v1, v2, v3, s.minx, s.y)
    && RowPixel(v1, v2, v3, s.maxx, s.y)
    && forall x :: RowPixel(v1, v2, v3, x, s.y) ==> s.minx <= x <= s.maxx
  }

  // The first spans of the fill: one per row, downwards from the highest vertex.
  ghost predicate Fills(v1: Vertex, v2: Vertex, v3: Vertex, spans: seq<Span>)
    requires v1.y <= v2.y <= v3.y
  {
    forall k :: 0 <= k < |spans| ==> spans[k].y == v1.y + k && IsHull(v1, v2, v3, spans[k])
  }

  // ---------------------------------------------------------------- sorting the vertices

  // Bit k of an integer in two's complement, of whatever width holds it.
  function Bit(n: int, k: nat): (b: int)
    ensures 0 <= b < 2
    decreases k
  {
    if k == 0 then n % 2 else Bit(n / 2, k - 1)
  }

  // How far an integer is from being all zeros or all ones.
  function Distance(n: int): nat {
    if n < 0 then -1 - n else n
  }

  function Xor(x: int, y: int): int
    decreases Distance(x) + Distance(y)
  {
    if Distance(x) == 0 && Distance(y) == 0 then (if x == y then 0 else -1)
    else 2 * Xor(x / 2, y / 2) + (x + y) % 2
  }

  // Exclusive-or is addition without carries, bit by bit.
  lemma {:induction false} XorBits(x: int, y: int, k: nat)
    ensures Bit(Xor(x, y), k) == (Bit(x, k) + Bit(y, k)) % 2
    decreases k
  {
    hide Xor;
    XorHalves(x, y);
    if 0 < k {
      XorBits(x / 2, y / 2, k - 1);
    }
  }

  lemma XorHalves(x: int, y: int)
    ensures Xor(x, y) / 2 == Xor(x / 2, y / 2) && Xor(x, y) % 2 == (x + y) % 2
  {
  }

  lemma Parity(x: int, y: int, z: int)
    requires z % 2 == (x + y) % 2
    ensures (z + y) % 2 == x % 2 && (z + x) % 2 == y % 2
  {
  }

  lemma XorEnds(x: int, y: int)
    requires Distance(x) == 0 && Distance(y) == 0
    ensures Xor(Xor(x, y), y) == x && Xor(Xor(x, y), x) == y
  {
  }

  // Done twice with the same operand it is undone, whichever operand is put back.
  lemma {:induction false} XorTwice(x: int, y: int)
    ensures Xor(Xor(x, y), y) == x && Xor(Xor(x, y), x) == y
    decreases Distance(x) + Distance(y)
  {
    hide Xor;
    if Distance(x) + Distance(y) == 0 {
      XorEnds(x, y);
    } else {
      var z := Xor(x, y);
      XorHalves(x, y);
      XorTwice(x / 2, y / 2);
      XorHalves(z, y);
      XorHalves(z, x);
      Parity(x, y, z);
    }
  }

  // The three exclusive-ors that exchange two distinct variables.
  method XorSwap(x0: int, y0: int) returns (x: int, y: int)
    ensures x == y0 && y == x0
  {
    hide Xor;
    x, y := x0, y0;
    x := Xor(x, y);
    y := Xor(x, y);
    x := Xor(x, y);
    XorTwice(x0, y0);
  }

  // Sorting the vertices by row, with the source's three compare-and-swap steps.
  function Sorted(a: Vertex, b: Vertex, c: Vertex): (r: (Vertex, Vertex, Vertex))
    ensures r.0.y <= r.1.y <= r.2.y
  {
    var (a, b) := if a.y > b.y then (b, a) else (a, b);
    var (a, c) := if a.y > c.y then (c, a) else (a, c);
    var (b, c) := if b.y > c.y then (c, b) else (b, c);
    (a, b, c)
  }

  // The same in place, each exchange being of the rows first and then of the columns.
  method SortVertices(a: Vertex, b: Vertex, c: Vertex) returns (v1: Vertex, v2: Vertex, v3: Vertex)
    ensures (v1, v2, v3) == Sorted(a, b, c)
  {
    var x1, y1, x2, y2, x3, y3 := a.x, a.y, b.x, b.y, c.x, c.y;
    if y1 > y2 {
      y1, y2 := XorSwap(y1, y2);
      x1, x2 := XorSwap(x1, x2);
    }
    if y1 > y3 {
      y1, y3 := XorSwap(y1, y3);
      x1, x3 := XorSwap(x1, x3);
    }
    if y2 > y3 {
      y2, y3 := XorSwap(y2, y3);
      x2, x3 := XorSwap(x2, x3);
    }
    v1, v2, v3 := Vertex(x1, y1), Vertex(x2, y2), Vertex(x3, y3);
  }

  // ---------------------------------------------------------------- what is drawn

  // The list of spans a call with these three vertices has to draw.
  ghost predicate FillOf(a: Vertex, b: Vertex, c: Vertex, spans: seq<Span>) {
    var (v1, v2, v3) := Sorted(a, b, c);
    |spans| == v3.y - v1.y + 1 && Fills(v1, v2, v3, spans)
  }

  // A span as the drawer receives it, each coordinate passed through `unsigned long`.
  function Passed(s: Span): Span {
    Span(LowInt(ToUnsignedLong(s.minx)), LowInt(ToUnsignedLong(s.y)), LowInt(ToUnsignedLong(s.maxx)))
  }

  // The pixels and the pixel count a list of spans comes to.
  function Painted(spans: seq<Span>, width: int): seq<Pixel> {
    if spans == [] then []
    else Painted(spans[..|spans| - 1], width) + Clipped(Passed(spans[|spans| - 1]), width)
  }

  function Counted(spans: seq<Span>, width: int, put: Pixel -> int): int {
    if spans == [] then 0
    else
      var s := Passed(spans[|spans| - 1]);
      Counted(spans[..|spans| - 1], width, put) + Min(|Clipped(s, width)|, Sum(put, Clipped(s, width)))
  }

  lemma HullOfWalks(v1: Vertex, v2: Vertex, v3: Vertex, s: Span, p: int, p': int, q: int, q': int)
    requires v1.y <= v2.y <= v3.y
    requires forall x :: EdgePixel(v1, v3, x, s.y) <==> Between(q, x, q')
    requires forall x :: (if s.y < v2.y then EdgePixel(v1, v2, x, s.y) else EdgePixel(v2, v3, x, s.y))
                         <==> Between(p, x, p')
    requires s.minx == Min(Min(p, q), Min(p', q')) && s.maxx == Max(Max(p, q), Max(p', q'))
    ensures IsHull(v1, v2, v3, s)
  {
    hide EdgePixel;
    assert Between(p, p, p') && Between(p, p', p') && Between(q, q, q') && Between(q, q', q');
  }

  // Drawing one row's span and moving both walks to the top of the next row.
  method DrawRow(t1: int, t2: int, t1': int, t2': int, y: int, deviceWidth: nat, put: Pixel -> int)
    returns (s: Span, n: int, log: seq<Pixel>)
    ensures s == Span(Min(Min(t1, t2), Min(t1', t2')), y, Max(Max(t1, t2), Max(t1', t2')))
    ensures log == Clipped(Passed(s), LowInt(deviceWidth))
    ensures n == Min(|log|, Sum(put, log))
  {
    var minx, maxx;
    if t1 < t2 { minx, maxx := t1, t2; } else { minx, maxx := t2, t1; }
    if minx > t1' { minx := t1'; }
    if minx > t2' { minx := t2'; }
    if maxx < t1' { maxx := t1'; }
    if maxx < t2' { maxx := t2'; }
    s := Span(minx, y, maxx);
    n, log := DrawHorizontalLine(ToUnsignedLong(minx), ToUnsignedLong(y), ToUnsignedLong(maxx), deviceWidth, put);
  }

  // One row above the middle vertex: both walks cross it, and its span is drawn.
  method FillUpperRow(v1: Vertex, v2: Vertex, v3: Vertex, y: int, i0: int, e1: int, t1x: int, e2: int, t2x: int,
                      deviceWidth: nat, put: Pixel -> int)
    returns (i: int, e1': int, t1x': int, e2': int, t2x': int, s: Span, n: int, log: seq<Pixel>)
    requires v1.y <= y < v2.y <= v3.y
    requires UpperAt(v1, v2, y, i0, t1x, e1) && EdgeAt(v1, v3, y, t2x, e2)
    ensures y + 1 < v2.y ==> UpperAt(v1, v2, y + 1, i, t1x', e1')
    ensures EdgeAt(v1, v3, y + 1, t2x', e2')
    ensures s.y == y && IsHull(v1, v2, v3, s)
    ensures log == Clipped(Passed(s), LowInt(deviceWidth))
    ensures n == Min(|log|, Sum(put, log))
  {
    hide *;
    var s1, s2 := ShapeOf(v1, v2), ShapeOf(v1, v3);
    var sign1, sign2 := Sign(v1, v2), Sign(v1, v3);
    var t1p, t2p;
    ghost var steps;
    UpperGuard(v1, v2, y, i0, t1x, e1);
    WalkGoesOn(v1, v3, y, t2x, e2);
    i, e1', t1x', t1p := WalkUpperEdge(s1, sign1, i0, e1, t1x);
    UpperRow(v1, v2, y, i0, e1, t1x, i, e1', t1x', t1p);
    e2', t2x', t2p, steps := WalkLongEdge(s2, sign2, e2, t2x);
    CarriedRow(v1, v3, y, e2, t2x, steps, e2', t2x', t2p);
    s, n, log := DrawRow(t1x, t2x, t1x', t2x', y, deviceWidth, put);
    HullOfWalks(v1, v2, v3, s, t1x, t1x', t2x, t2x');
    if !s1.steep { t1x' := t1x' + sign1; }
    t1x' := t1x' + t1p;
    if !s2.steep { t2x' := t2x' + sign2; }
    t2x' := t2x' + t2p;
  }

  // First half: rows v1.y up to but not including v2.y. Returns the long edge's walk, which
  // the second half carries on.
  method FillUpper(v1: Vertex, v2: Vertex, v3: Vertex, deviceWidth: nat, put: Pixel -> int)
    returns (npixels: int, t2x: int, e2: int, spans: seq<Span>, log: seq<Pixel>)
    requires v1.y < v2.y <= v3.y
    ensures |spans| == v2.y - v1.y && Fills(v1, v2, v3, spans)
    ensures EdgeAt(v1, v3, v2.y, t2x, e2)
    ensures log == Painted(spans, LowInt(deviceWidth))
    ensures npixels == Counted(spans, LowInt(deviceWidth), put)
  {
    hide RowStart, RowPixel, LowerAt, UpperAt, EdgeOrDone, ShapeOf, Clipped, Passed, Sum;
    var t1x, y, e1, i := v1.x, v1.y, ShapeOf(v1, v2).major / 2, 0;
    npixels, t2x, e2, spans, log := 0, v1.x, ShapeOf(v1, v3).major / 2, [], [];
    WalkBegins(v1, v2);
    WalkBegins(v1, v3);
    while i < ShapeOf(v1, v2).major
      invariant v1.y <= y < v2.y && |spans| == y - v1.y
      invariant Fills(v1, v2, v3, spans)
      invariant UpperAt(v1, v2, y, i, t1x, e1) && EdgeAt(v1, v3, y, t2x, e2)
      invariant log == Painted(spans, LowInt(deviceWidth))
      invariant npixels == Counted(spans, LowInt(deviceWidth), put)
      decreases v2.y - y
    {
      var s, n, row;
      i, e1, t1x, e2, t2x, s, n, row := FillUpperRow(v1, v2, v3, y, i, e1, t1x, e2, t2x, deviceWidth, put);
      assert (spans + [s])[..|spans|] == spans;
      npixels, spans, log := npixels + n, spans + [s], log + row;
      y := y + 1;
      if y == v2.y {
        break;
      }
    }
    if y < v2.y {
      UpperGuard(v1, v2, y, i, t1x, e1);
    }
  }

  // One row from the middle vertex on.
  method FillLowerRow(v1: Vertex, v2: Vertex, v3: Vertex, y: int, i0: int, e1: int, t1x: int, e2: int, t2x: int,
                      deviceWidth: nat, put: Pixel -> int)
    returns (i: int, e1': int, t1x': int, e2': int, t2x': int, s: Span, n: int, log: seq<Pixel>)
    requires v1.y <= v2.y <= y <= v3.y
    requires LowerAt(v2, v3, y, i0, t1x, e1) && EdgeOrDone(v1, v3, y, t2x, e2)
    ensures y < v3.y ==> LowerAt(v2, v3, y + 1, i + 1, t1x', e1')
    ensures y < v3.y ==> EdgeOrDone(v1, v3, y + 1, t2x', e2')
    ensures s.y == y && IsHull(v1, v2, v3, s)
    ensures log == Clipped(Passed(s), LowInt(deviceWidth))
    ensures n == Min(|log|, Sum(put, log))
  {
    hide *;
    var s1, s2 := ShapeOf(v2, v3), ShapeOf(v1, v3);
    var sign1, sign2 := Sign(v2, v3), Sign(v1, v3);
    var t1p, t2p;
    ghost var steps;
    LowerGoesOn(v2, v3, y, i0, t1x, e1);
    LongGoesOn(v1, v3, y, t2x, e2);
    i, e1', t1x', t1p := WalkLowerEdge(s1, sign1, i0, e1, t1x);
    LowerRow(v2, v3, y, i0, e1, t1x, i, e1', t1x', t1p);
    e2', t2x', t2p, steps := WalkLongEdgeToEnd(s2, sign2, e2, t2x, v3.x);
    LongRow(v1, v3, y, e2, t2x, steps, e2', t2x', t2p);
    s, n, log := DrawRow(t1x, t2x, t1x', t2x', y, deviceWidth, put);
    HullOfWalks(v1, v2, v3, s, t1x, t1x', t2x, t2x');
    if !s1.steep { t1x' := t1x' + sign1; }
    t1x' := t1x' + t1p;
    if !s2.steep { t2x' := t2x' + sign2; }
    t2x' := t2x' + t2p;
  }

  // Second half: rows v2.y to v3.y, continuing what the first half has drawn.
  method FillLower(v1: Vertex, v2: Vertex, v3: Vertex, t2x0: int, e20: int,
                   npixels0: int, spans0: seq<Span>, log0: seq<Pixel>, deviceWidth: nat, put: Pixel -> int)
    returns (npixels: int, spans: seq<Span>, log: seq<Pixel>)
    requires v1.y <= v2.y <= v3.y && EdgeOrDone(v1, v3, v2.y, t2x0, e20)
    requires |spans0| == v2.y - v1.y && Fills(v1, v2, v3, spans0)
    requires log0 == Painted(spans0, LowInt(deviceWidth))
    requires npixels0 == Counted(spans0, LowInt(deviceWidth), put)
    ensures |spans| == v3.y - v1.y + 1 && Fills(v1, v2, v3, spans)
    ensures log == Painted(spans, LowInt(deviceWidth))
    ensures npixels == Counted(spans, LowInt(deviceWidth), put)
  {
    hide RowStart, RowPixel, LowerAt, UpperAt, EdgeOrDone, ShapeOf, Clipped, Passed, Sum;
    npixels, spans, log := npixels0, spans0, log0;
    var t2x, e2, y := t2x0, e20, v2.y;
    var t1x, e1, i := v2.x, ShapeOf(v2, v3).major / 2, 0;
    LowerBegins(v2, v3);
    while i <= ShapeOf(v2, v3).major
      invariant v2.y <= y <= v3.y && |spans| == y - v1.y
      invariant Fills(v1, v2, v3, spans)
      invariant LowerAt(v2, v3, y, i, t1x, e1) && EdgeOrDone(v1, v3, y, t2x, e2)
      invariant log == Painted(spans, LowInt(deviceWidth))
      invariant npixels == Counted(spans, LowInt(deviceWidth), put)
      decreases v3.y - y
    {
      var s, n, row;
      i, e1, t1x, e2, t2x, s, n, row := FillLowerRow(v1, v2, v3, y, i, e1, t1x, e2, t2x, deviceWidth, put);
      assert (spans + [s])[..|spans|] == spans;
      npixels, spans, log := npixels + n, spans + [s], log + row;
      y := y + 1;
      if y > v3.y {
        break;
      }
      i := i + 1;
    }
    if y <= v3.y {
      LowerGoesOn(v2, v3, y, i, t1x, e1);
    }
  }

  /** The whole filler. Termination, one span per row from the highest vertex down to the
      lowest, and each span the hull of its row's edge pixels. */
  method FillTriangle(a: Vertex, b: Vertex, c: Vertex, deviceWidth: nat, put: Pixel -> int)
    returns (npixels: int, spans: seq<Span>, log: seq<Pixel>)
    ensures FillOf(a, b, c, spans)
    ensures log == Painted(spans, LowInt(deviceWidth))
    ensures npixels == Counted(spans, LowInt(deviceWidth), put)
  {
    hide RowStart, RowPixel, LowerAt, UpperAt, EdgeOrDone, ShapeOf, Clipped, Passed, Sum;
    var v1, v2, v3 := SortVertices(a, b, c);
    var t2x, e2 := v1.x, ShapeOf(v1, v3).major / 2;
    npixels, spans, log := 0, [], [];
    LongBegins(v1, v3);
    if v1.y != v2.y {
      npixels, t2x, e2, spans, log := FillUpper(v1, v2, v3, deviceWidth, put);
      LongContinues(v1, v3, v2.y, t2x, e2);
    }
    npixels, spans, log := FillLower(v1, v2, v3, t2x, e2, npixels, spans, log, deviceWidth, put);
  }
}
