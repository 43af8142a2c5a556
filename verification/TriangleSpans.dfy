/** The fill in closed form: every span computed from the three vertices, and with it the exact
    condition under which a fill covers its whole outline. */
module TriangleSpans {
  import opened Arithmetic
  import opened DigitalEdge
  import opened EdgeWalk
  import opened Scanline
  import opened Triangle
  import opened TriangleOrder
  import opened TrianglePixels

  // The columns of the edge from a down to b on row y: the one nearest a, and the one nearest b.
  function FirstColumn(a: Vertex, b: Vertex, y: int): int
    requires a.y <= y <= b.y
  {
    var f := First(Abs(b.x - a.x), b.y - a.y, y - a.y);
    if b.x < a.x then a.x - f else a.x + f
  }

  function LastColumn(a: Vertex, b: Vertex, y: int): int
    requires a.y <= y <= b.y
  {
    var l := Last(Abs(b.x - a.x), b.y - a.y, y - a.y);
    if b.x < a.x then a.x - l else a.x + l
  }

  lemma EdgeColumns(a: Vertex, b: Vertex, x: int, y: int)
    requires a.y <= y <= b.y
    ensures EdgePixel(a, b, x, y) <==> Between(FirstColumn(a, b, y), x, LastColumn(a, b, y))
  {
    hide First, Last, On;
    OnIsInterval(Abs(b.x - a.x), b.y - a.y, Offset(a, b, x), y - a.y);
    FirstIsOn(Abs(b.x - a.x), b.y - a.y, y - a.y);
  }

  // The span of two edges' columns.
  function Hull(p: int, p': int, q: int, q': int, y: int): Span {
    Span(Min(Min(p, q), Min(p', q')), y, Max(Max(p, q), Max(p', q')))
  }

  // The span of row y, from the vertices.
  function RowSpan(v1: Vertex, v2: Vertex, v3: Vertex, y: int): Span
    requires v1.y <= v2.y <= v3.y && v1.y <= y <= v3.y
  {
    var f, l := FirstColumn(v1, v3, y), LastColumn(v1, v3, y);
    if y < v2.y then Hull(FirstColumn(v1, v2, y), LastColumn(v1, v2, y), f, l, y)
    else Hull(FirstColumn(v2, v3, y), LastColumn(v2, v3, y), f, l, y)
  }

  function Spans(a: Vertex, b: Vertex, c: Vertex): seq<Span> {
    var (v1, v2, v3) := Sorted(a, b, c);
    seq(v3.y - v1.y + 1, (k: nat) requires k < v3.y - v1.y + 1 => RowSpan(v1, v2, v3, v1.y + k))
  }

  lemma RowSpanIsHull(v1: Vertex, v2: Vertex, v3: Vertex, y: int)
    requires v1.y <= v2.y <= v3.y && v1.y <= y <= v3.y
    ensures IsHull(v1, v2, v3, RowSpan(v1, v2, v3, y))
  {
    hide FirstColumn, LastColumn, EdgePixel, RowPixel;
    var s := RowSpan(v1, v2, v3, y);
    forall x ensures EdgePixel(v1, v3, x, y) <==> Between(FirstColumn(v1, v3, y), x, LastColumn(v1, v3, y)) {
      EdgeColumns(v1, v3, x, y);
    }
    var a, b := if y < v2.y then v1 else v2, if y < v2.y then v2 else v3;
    forall x ensures EdgePixel(a, b, x, y) <==> Between(FirstColumn(a, b, y), x, LastColumn(a, b, y)) {
      EdgeColumns(a, b, x, y);
    }
    HullOfWalks(v1, v2, v3, s, FirstColumn(a, b, y), LastColumn(a, b, y),
                FirstColumn(v1, v3, y), LastColumn(v1, v3, y));
  }

  lemma HullIsUnique(v1: Vertex, v2: Vertex, v3: Vertex, s: Span, s': Span)
    requires v1.y <= v2.y <= v3.y && s.y == s'.y && IsHull(v1, v2, v3, s) && IsHull(v1, v2, v3, s')
    ensures s == s'
  {
    hide EdgePixel;
    assert RowPixel(v1, v2, v3, s.minx, s'.y) && RowPixel(v1, v2, v3, s.maxx, s'.y);
  }

  /** What the filler draws, exactly: the spans are those computed from the vertices. */
  lemma FillIsClosedForm(a: Vertex, b: Vertex, c: Vertex, spans: seq<Span>)
    ensures FillOf(a, b, c, spans) <==> spans == Spans(a, b, c)
  {
    hide IsHull, RowSpan;
    var (v1, v2, v3) := Sorted(a, b, c);
    var exact := Spans(a, b, c);
    forall k | 0 <= k < |exact| ensures exact[k].y == v1.y + k && IsHull(v1, v2, v3, exact[k]) {
      RowSpanIsHull(v1, v2, v3, v1.y + k);
      RowSpanRow(v1, v2, v3, v1.y + k);
    }
    if FillOf(a, b, c, spans) {
      forall k | 0 <= k < |spans| ensures spans[k] == exact[k] {
        HullIsUnique(v1, v2, v3, spans[k], exact[k]);
      }
    }
  }

  lemma RowSpanRow(v1: Vertex, v2: Vertex, v3: Vertex, y: int)
    requires v1.y <= v2.y <= v3.y && v1.y <= y <= v3.y
    ensures RowSpan(v1, v2, v3, y).y == y
  {
  }

  // ---------------------------------------------------------------- the outline

  // (x, y) is a pixel of one of the three edges.
  predicate OutlinePixel(v1: Vertex, v2: Vertex, v3: Vertex, x: int, y: int)
    requires v1.y <= v2.y <= v3.y
  {
    EdgePixel(v1, v2, x, y) || EdgePixel(v2, v3, x, y) || EdgePixel(v1, v3, x, y)
  }

  /** On the middle vertex's row the upper edge's tail runs from the side of the highest
      vertex to the middle one. It is reached when the long edge, or the lower edge starting
      at the middle vertex, has a column at least as far out. */
  predicate TailReached(v1: Vertex, v2: Vertex, v3: Vertex)
    requires v1.y < v2.y <= v3.y
  {
    var f, l, r := FirstColumn(v1, v3, v2.y), LastColumn(v1, v3, v2.y), LastColumn(v2, v3, v2.y);
    if v2.x < v1.x then TailStart(v1, v2) <= Max(v2.x, Max(r, Max(f, l)))
    else Min(v2.x, Min(r, Min(f, l))) <= TailStart(v1, v2)
  }

  lemma LowerStarts(a: Vertex, b: Vertex)
    requires a.y <= b.y
    ensures FirstColumn(a, b, a.y) == a.x
  {
    var width, height := Abs(b.x - a.x), b.y - a.y;
    if width < height {
      RoundedIs(height, width, 0, 0);
    }
  }

  /** The upper edge's pixels on the middle vertex's row are all filled if and only if its
      tail is reached. */
  lemma MiddleRowCovered(v1: Vertex, v2: Vertex, v3: Vertex)
    requires v1.y < v2.y <= v3.y
    ensures (forall x :: EdgePixel(v1, v2, x, v2.y) ==>
                           RowSpan(v1, v2, v3, v2.y).minx <= x <= RowSpan(v1, v2, v3, v2.y).maxx)
            <==> TailReached(v1, v2, v3)
  {
    hide EdgePixel, TailLength, FirstColumn, LastColumn;
    var s, t := RowSpan(v1, v2, v3, v2.y), TailStart(v1, v2);
    LowerStarts(v2, v3);
    TailIsShort(v1, v2);
    LastRowTail(v1, v2, t);
    if TailReached(v1, v2, v3) {
      forall x | EdgePixel(v1, v2, x, v2.y) ensures s.minx <= x <= s.maxx {
        LastRowTail(v1, v2, x);
      }
    }
  }

  /** The fill covers its outline, every pixel of all three edges, if and only if the two
      upper vertices share a row or the upper edge's tail is reached. */
  lemma OutlineIsCovered(v1: Vertex, v2: Vertex, v3: Vertex)
    requires v1.y <= v2.y <= v3.y
    ensures (forall x, y :: v1.y <= y <= v3.y && OutlinePixel(v1, v2, v3, x, y) ==>
                              RowSpan(v1, v2, v3, y).minx <= x <= RowSpan(v1, v2, v3, y).maxx)
            <==> v1.y == v2.y || TailReached(v1, v2, v3)
  {
    hide EdgePixel, RowSpan, TailReached;
    if v1.y < v2.y {
      MiddleRowCovered(v1, v2, v3);
    }
    forall x, y | v1.y <= y <= v3.y && OutlinePixel(v1, v2, v3, x, y) && (v1.y == v2.y || TailReached(v1, v2, v3))
      ensures RowSpan(v1, v2, v3, y).minx <= x <= RowSpan(v1, v2, v3, y).maxx
    {
      RowSpanIsHull(v1, v2, v3, y);
      RowSpanRow(v1, v2, v3, y);
      if EdgePixel(v1, v3, x, y) || EdgePixel(v2, v3, x, y) || y != v2.y || v1.y == v2.y {
        OutlineCovered(v1, v2, v3, RowSpan(v1, v2, v3, y), x);
      }
    }
    if v1.y < v2.y && !TailReached(v1, v2, v3) {
      var x :| EdgePixel(v1, v2, x, v2.y) &&
               !(RowSpan(v1, v2, v3, v2.y).minx <= x <= RowSpan(v1, v2, v3, v2.y).maxx);
      assert OutlinePixel(v1, v2, v3, x, v2.y);
    }
  }

  // A triangle whose upper edge has a pixel on the middle row that the fill leaves out.
  lemma MiddleRowWitness()
    ensures EdgePixel(Vertex(0, 0), Vertex(10, 1), 5, 1)
    ensures !TailReached(Vertex(0, 0), Vertex(10, 1), Vertex(30, 2))
    ensures RowSpan(Vertex(0, 0), Vertex(10, 1), Vertex(30, 2), 1) == Span(8, 1, 22)
  {
    hide FirstColumn, LastColumn, TailStart;
    WitnessColumns();
  }

  lemma WitnessColumns()
    ensures FirstColumn(Vertex(0, 0), Vertex(30, 2), 1) == 8 && LastColumn(Vertex(0, 0), Vertex(30, 2), 1) == 22
    ensures FirstColumn(Vertex(10, 1), Vertex(30, 2), 1) == 10 && LastColumn(Vertex(10, 1), Vertex(30, 2), 1) == 19
    ensures TailStart(Vertex(0, 0), Vertex(10, 1)) == 5
  {
    assert Abs(30) == 30 && Abs(20) == 20 && Abs(10) == 10;
  }
}
