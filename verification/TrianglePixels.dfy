/** What a fill paints: its rows, its pixels, and how they relate to the triangle's outline. */
module TrianglePixels {
  import opened Arithmetic
  import opened DigitalEdge
  import opened EdgeWalk
  import opened Scanline
  import opened Triangle

  // ---------------------------------------------------------------- spans

  // An edge stays in the box of its ends.
  lemma EdgeInBox(a: Vertex, b: Vertex, x: int, y: int)
    requires a.y <= b.y && EdgePixel(a, b, x, y)
    ensures Between(a.x, x, b.x) && a.y <= y <= b.y
  {
  }

  lemma RoundedExact(major: nat, minor: nat, i: int, k: int)
    requires 0 < major
    ensures k == Rounded(major, minor, i) <==> -(major as int) < 2 * (major * k - i * minor) <= major
  {
    RoundedIs(major, minor, i, k);
    MulCommutes(major, k);
  }

  /** The edge's pixels, exactly: those between its ends that are nearest to the ideal edge,
      along the row on a steep edge and along the column on a shallow one, halves going on
      towards b. */
  lemma EdgeAccuracy(a: Vertex, b: Vertex, x: int, y: int)
    requires a.y <= b.y
    ensures var width: int, height, c: int, k := Abs(b.x - a.x), b.y - a.y, Abs(x - a.x), y - a.y;
            EdgePixel(a, b, x, y) <==>
            && Between(a.x, x, b.x) && Between(a.y, y, b.y)
            && (if width < height then -height < 2 * (height * c - k * width) <= height
                else width == 0 || -width < 2 * (width * k - c * height) <= width)
  {
    hide Rounded;
    var width, height, c, k := Abs(b.x - a.x), b.y - a.y, Abs(x - a.x), y - a.y;
    if width < height {
      RoundedExact(height, width, k, c);
      if a.y <= y <= b.y {
        RoundedWithin(height, width, k);
      }
    } else if 0 < width {
      RoundedExact(width, height, c, k);
    }
  }

  lemma RoundedEnds(major: nat, minor: nat)
    requires 0 < major
    ensures Rounded(major, minor, 0) == 0 && Rounded(major, minor, major) == minor
  {
    LastRowUpper(major, minor, major);
    MulCommutes(major, minor);
    RoundedIs(major, minor, 0, 0);
    RoundedIs(major, minor, major, minor);
  }

  // An edge begins and ends at its two vertices.
  lemma EdgeEnds(a: Vertex, b: Vertex)
    requires a.y <= b.y
    ensures EdgePixel(a, b, a.x, a.y) && EdgePixel(a, b, b.x, b.y)
  {
    hide Rounded;
    var s := ShapeOf(a, b);
    if 0 < s.major {
      RoundedEnds(s.major, s.minor);
    }
  }

  /** The fill stays in the triangle's bounding box, and its rows are exactly those from the
      highest to the lowest vertex, each once. */
  lemma SpansInBox(a: Vertex, b: Vertex, c: Vertex, spans: seq<Span>, y: int)
    requires FillOf(a, b, c, spans)
    ensures forall k :: 0 <= k < |spans| ==>
              Min(a.x, Min(b.x, c.x)) <= spans[k].minx <= spans[k].maxx <= Max(a.x, Max(b.x, c.x))
    ensures Min(a.y, Min(b.y, c.y)) <= y <= Max(a.y, Max(b.y, c.y)) <==>
            exists k :: 0 <= k < |spans| && spans[k].y == y
    ensures forall j, k :: 0 <= j < k < |spans| ==> spans[j].y < spans[k].y
  {
    hide EdgePixel;
    var (v1, v2, v3) := Sorted(a, b, c);
    forall k | 0 <= k < |spans|
      ensures Min(a.x, Min(b.x, c.x)) <= spans[k].minx <= spans[k].maxx <= Max(a.x, Max(b.x, c.x))
    {
      var s := spans[k];
      assert IsHull(v1, v2, v3, s);
      RowInBox(v1, v2, v3, s.minx, s.y);
      RowInBox(v1, v2, v3, s.maxx, s.y);
    }
    if v1.y <= y <= v3.y {
      assert spans[y - v1.y].y == y;
    }
  }

  lemma RowInBox(v1: Vertex, v2: Vertex, v3: Vertex, x: int, y: int)
    requires v1.y <= v2.y <= v3.y && RowPixel(v1, v2, v3, x, y)
    ensures Min(v1.x, Min(v2.x, v3.x)) <= x <= Max(v1.x, Max(v2.x, v3.x)) && v1.y <= y <= v3.y
  {
    hide On;
    if EdgePixel(v1, v3, x, y) {
      EdgeInBox(v1, v3, x, y);
    } else if y < v2.y {
      EdgeInBox(v1, v2, x, y);
    } else {
      EdgeInBox(v2, v3, x, y);
    }
  }

  // ---------------------------------------------------------------- the outline

  /** A fill covers its outline: every pixel of the three edges lies in its row's span, the
      upper edge's pixels on the middle vertex's row excepted. */
  lemma OutlineCovered(v1: Vertex, v2: Vertex, v3: Vertex, s: Span, x: int)
    requires v1.y <= v2.y <= v3.y && IsHull(v1, v2, v3, s)
    requires || EdgePixel(v1, v3, x, s.y)
             || EdgePixel(v2, v3, x, s.y)
             || (EdgePixel(v1, v2, x, s.y) && (s.y != v2.y || v1.y == v2.y))
    ensures s.minx <= x <= s.maxx
  {
    hide On;
    if EdgePixel(v1, v3, x, s.y) {
      assert RowPixel(v1, v2, v3, x, s.y);
    } else if EdgePixel(v2, v3, x, s.y) {
      EdgeInBox(v2, v3, x, s.y);
      assert RowPixel(v1, v2, v3, x, s.y);
    } else {
      EdgeInBox(v1, v2, x, s.y);
      if s.y == v2.y {
        EdgeEnds(v1, v3);
        EdgeEnds(v2, v3);
        assert RowPixel(v1, v2, v3, v1.x, s.y) && RowPixel(v1, v2, v3, v2.x, s.y);
      } else {
        assert RowPixel(v1, v2, v3, x, s.y);
      }
    }
  }

  // ---------------------------------------------------------------- pixels

  lemma {:induction false} InPainted(spans: seq<Span>, width: int, p: Pixel)
    ensures p in Painted(spans, width) <==>
            exists k :: 0 <= k < |spans| && p in Clipped(Passed(spans[k]), width)
  {
    hide Clipped, Passed;
    if spans != [] {
      var n := |spans| - 1;
      var before := spans[..n];
      InPainted(before, width, p);
      if p in Painted(before, width) {
        var k :| 0 <= k < n && p in Clipped(Passed(before[k]), width);
        assert p in Clipped(Passed(spans[k]), width);
      }
      forall k | 0 <= k < n && p in Clipped(Passed(spans[k]), width) ensures p in Painted(before, width) {
        assert p in Clipped(Passed(before[k]), width);
      }
    }
  }

  /** The pixels handed to the backbuffer are exactly those of each row's half-open span
      [minx, maxx), cut to 0 <= x < width - 1 and to the rows on or below the screen's top. */
  lemma FillPaints(a: Vertex, b: Vertex, c: Vertex, spans: seq<Span>, width: int, p: Pixel)
    requires FillOf(a, b, c, spans)
    requires Int32(a.x) && Int32(b.x) && Int32(c.x) && Int32(a.y) && Int32(b.y) && Int32(c.y)
    ensures p in Painted(spans, width) <==>
            && 0 <= p.y && 0 <= p.x < width - 1
            && exists k :: 0 <= k < |spans| && spans[k].y == p.y && spans[k].minx <= p.x < spans[k].maxx
  {
    hide FillOf;
    SpansInBox(a, b, c, spans, p.y);
    RowsInBox(a, b, c, spans);
    InPainted(spans, width, p);
    forall k | 0 <= k < |spans|
      ensures p in Clipped(Passed(spans[k]), width) <==>
              && 0 <= p.y && 0 <= p.x < width - 1
              && spans[k].y == p.y && spans[k].minx <= p.x < spans[k].maxx
    {
      var s := spans[k];
      IntSurvives(s.minx);
      IntSurvives(s.y);
      IntSurvives(s.maxx);
      assert Passed(s) == s;
      InRow(Max(0, s.minx), Min(s.maxx, width - 1), s.y, p);
    }
  }

  lemma RowsInBox(a: Vertex, b: Vertex, c: Vertex, spans: seq<Span>)
    requires FillOf(a, b, c, spans)
    ensures forall k :: 0 <= k < |spans| ==>
              Min(a.y, Min(b.y, c.y)) <= spans[k].y <= Max(a.y, Max(b.y, c.y))
  {
  }

  /** No pixel is painted twice. */
  lemma {:induction false} PaintedOnce(spans: seq<Span>, width: int)
    requires forall j, k :: 0 <= j < k < |spans| ==> Passed(spans[j]).y != Passed(spans[k]).y
    ensures NoneTwice(Painted(spans, width))
  {
    if spans != [] {
      var n := |spans| - 1;
      var before, last := Painted(spans[..n], width), Clipped(Passed(spans[n]), width);
      PaintedOnce(spans[..n], width);
      forall i, j | 0 <= i < |before| && 0 <= j < |last| ensures before[i] != last[j] {
        InPainted(spans[..n], width, before[i]);
        var k :| 0 <= k < n && before[i] in Clipped(Passed(spans[..n][k]), width);
        assert before[i].y == Passed(spans[k]).y && last[j].y == Passed(spans[n]).y;
      }
    }
  }

  lemma FillPaintsOnce(a: Vertex, b: Vertex, c: Vertex, spans: seq<Span>, width: int)
    requires FillOf(a, b, c, spans) && Int32(a.y) && Int32(b.y) && Int32(c.y)
    ensures NoneTwice(Painted(spans, width))
  {
    hide FillOf;
    SpansInBox(a, b, c, spans, 0);
    RowsInBox(a, b, c, spans);
    forall j, k | 0 <= j < k < |spans| ensures Passed(spans[j]).y != Passed(spans[k]).y {
      IntSurvives(spans[j].y);
      IntSurvives(spans[k].y);
    }
    PaintedOnce(spans, width);
  }

  // ---------------------------------------------------------------- the count returned

  lemma {:induction false} SumOfBoth(put: Pixel -> int, s: seq<Pixel>, t: seq<Pixel>)
    ensures Sum(put, s + t) == Sum(put, s) + Sum(put, t)
  {
    if t == [] {
      assert s + t == s;
    } else {
      assert (s + t)[..|s + t| - 1] == s + t[..|t| - 1];
      SumOfBoth(put, s, t[..|t| - 1]);
    }
  }

  lemma SumWithin(put: Pixel -> int, s: seq<Pixel>)
    requires forall p :: p in s ==> 0 <= put(p) <= 1
    ensures 0 <= Sum(put, s) <= |s|
  {
  }

  /** When the backbuffer answers 1 for a pixel it changed and 0 otherwise, the filler returns
      the number of pixels it changed. */
  lemma {:induction false} CountIsExact(spans: seq<Span>, width: int, put: Pixel -> int)
    requires forall p :: 0 <= put(p) <= 1
    ensures Counted(spans, width, put) == Sum(put, Painted(spans, width))
  {
    if spans != [] {
      var n := |spans| - 1;
      var s := Passed(spans[n]);
      CountIsExact(spans[..n], width, put);
      SumOfBoth(put, Painted(spans[..n], width), Clipped(s, width));
      SumWithin(put, Clipped(s, width));
    }
  }
}
