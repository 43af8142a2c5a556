/** When the order a triangle's vertices are given in is irrelevant to its fill: always,
    except for a flat bottom, where one side's last row is left out and which side that is
    depends on the order. */
module TriangleOrder {
  import opened Arithmetic
  import opened DigitalEdge
  import opened EdgeWalk
  import opened Scanline
  import opened Triangle

  // Two fills that agree on the pixels of every row agree on every span.
  lemma SameRowsSameSpans(v1: Vertex, v2: Vertex, v3: Vertex, w1: Vertex, w2: Vertex, w3: Vertex,
                          s: seq<Span>, s': seq<Span>)
    requires v1.y <= v2.y <= v3.y && w1.y <= w2.y <= w3.y && v1.y == w1.y && v3.y == w3.y
    requires |s| == |s'| && Fills(v1, v2, v3, s) && Fills(w1, w2, w3, s')
    requires forall x, y :: RowPixel(v1, v2, v3, x, y) <==> RowPixel(w1, w2, w3, x, y)
    ensures s == s'
  {
    hide EdgePixel;
    forall k | 0 <= k < |s| ensures s[k] == s'[k] {
      assert IsHull(v1, v2, v3, s[k]) && IsHull(w1, w2, w3, s'[k]);
      assert RowPixel(v1, v2, v3, s[k].minx, s[k].y) && RowPixel(v1, v2, v3, s[k].maxx, s[k].y);
      assert RowPixel(w1, w2, w3, s'[k].minx, s[k].y) && RowPixel(w1, w2, w3, s'[k].maxx, s[k].y);
    }
  }

  // On a single row an edge has every column between its ends.
  lemma LevelEdge(a: Vertex, b: Vertex, x: int)
    requires a.y == b.y
    ensures EdgePixel(a, b, x, a.y) <==> Between(a.x, x, b.x)
  {
    var major := Abs(b.x - a.x);
    if 0 < major {
      DivUnique(major / 2, major, 0);
    }
  }

  // Sorting leaves only the order of vertices on equal rows open.
  ghost predicate SameUpToTies(v1: Vertex, v2: Vertex, v3: Vertex, w1: Vertex, w2: Vertex, w3: Vertex) {
    || (w1 == v1 && w2 == v2 && w3 == v3)
    || (w1 == v2 && w2 == v1 && w3 == v3 && v1.y == v2.y)
    || (w1 == v1 && w2 == v3 && w3 == v2 && v2.y == v3.y)
    || v1.y == v2.y == v3.y
  }

  // The six orders three vertices can be given in.
  ghost predicate Reordered(a: Vertex, b: Vertex, c: Vertex, a': Vertex, b': Vertex, c': Vertex) {
    || (a' == a && b' == b && c' == c) || (a' == a && b' == c && c' == b)
    || (a' == b && b' == a && c' == c) || (a' == b && b' == c && c' == a)
    || (a' == c && b' == a && c' == b) || (a' == c && b' == b && c' == a)
  }

  lemma SortedReorders(a: Vertex, b: Vertex, c: Vertex)
    ensures var (v1, v2, v3) := Sorted(a, b, c);
            && v1.y <= v2.y <= v3.y && Reordered(a, b, c, v1, v2, v3)
            && (a.y < b.y == c.y ==> v2 == b && v3 == c)
            && (b.y < a.y == c.y ==> v2 == a && v3 == c)
            && (c.y < a.y == b.y ==> v2 == b && v3 == a)
  {
  }

  lemma TiesOnly(a: Vertex, b: Vertex, c: Vertex, a': Vertex, b': Vertex, c': Vertex)
    requires Reordered(a, b, c, a', b', c')
    ensures var (v1, v2, v3) := Sorted(a, b, c);
            var (w1, w2, w3) := Sorted(a', b', c');
            && v1.y == w1.y && v2.y == w2.y && v3.y == w3.y
            && SameUpToTies(v1, v2, v3, w1, w2, w3)
            && Reordered(v1, v2, v3, w1, w2, w3)
  {
  }

  /** How far the last row of the edge from a to b reaches back from b: half its width over
      its height for an edge at least as wide as high. */
  function TailLength(a: Vertex, b: Vertex): nat
    requires a.y < b.y
  {
    var width, height := Abs(b.x - a.x), b.y - a.y;
    if width < height then 0 else width / 2 / height
  }

  lemma LastRowTail(a: Vertex, b: Vertex, x: int)
    requires a.y < b.y
    ensures EdgePixel(a, b, x, b.y) <==>
            Abs(b.x - a.x) - TailLength(a, b) <= Offset(a, b, x) <= Abs(b.x - a.x)
  {
    hide On;
    OnLastRow(Abs(b.x - a.x), b.y - a.y, Offset(a, b, x));
  }

  lemma OnLastRow(xExtent: nat, yExtent: nat, i: int)
    requires 0 < yExtent
    ensures On(xExtent, yExtent, i, yExtent) <==>
            xExtent - (if xExtent < yExtent then 0 else xExtent / 2 / yExtent) <= i <= xExtent
  {
    if xExtent < yExtent {
      SteepEnd(Shape(yExtent, xExtent, true));
    } else if 0 <= i <= xExtent {
      RoundedIs(xExtent, yExtent, i, yExtent);
      LastRowUpper(xExtent, yExtent, i);
      TailReaches(xExtent, yExtent, i);
    } else if i < 0 {
      HalfShrinks(xExtent, yExtent);
    }
  }

  lemma HalfShrinks(n: nat, d: nat)
    requires 0 < d
    ensures 0 <= n / 2 / d <= n
  {
    var h := n / 2;
    assert h == d * (h / d) + h % d;
    MulMono(1, d, h / d);
  }

  lemma TailReaches(major: nat, minor: nat, i: nat)
    requires 0 < minor && i <= major
    ensures minor * major <= major / 2 + i * minor <==> major - i <= major / 2 / minor
  {
    var h, left := major / 2, major - i;
    assert left * minor == minor * major - i * minor;
    QuotientReaches(h, minor, left);
  }

  lemma QuotientReaches(n: nat, d: nat, q: int)
    requires 0 < d
    ensures q * d <= n <==> q <= n / d
  {
    var f := n / d;
    assert n == d * f + n % d;
    MulCommutes(d, f);
    if q <= f {
      MulMono(q, f, d);
    } else {
      MulMono(f + 1, q, d);
    }
  }

  /** A flat bottom seen from an apex beside it: whether the nearer corner's edge reaches
      back no further than the bottom side and the other edge already do. */
  predicate FlatBottomAgrees(v1: Vertex, v2: Vertex, v3: Vertex)
    requires v1.y < v2.y && v1.y < v3.y
  {
    var o2, o3 := v2.x - v1.x, v3.x - v1.x;
    || (o2 <= 0 <= o3) || (o3 <= 0 <= o2)
    || (if Abs(o2) <= Abs(o3)
        then Abs(o2) - TailLength(v1, v2) == Min(Abs(o2), Abs(o3) - TailLength(v1, v3))
        else Abs(o3) - TailLength(v1, v3) == Min(Abs(o3), Abs(o2) - TailLength(v1, v2)))
  }

  // The last row of a flat-bottomed triangle, edge by edge.
  lemma FlatBottomRow(v1: Vertex, v2: Vertex, v3: Vertex, x: int)
    requires v1.y < v2.y == v3.y
    ensures RowPixel(v1, v2, v3, x, v3.y) <==>
            || Abs(v3.x - v1.x) - TailLength(v1, v3) <= Offset(v1, v3, x) <= Abs(v3.x - v1.x)
            || Between(v2.x, x, v3.x)
  {
    hide EdgePixel, TailLength;
    LastRowTail(v1, v3, x);
    LevelEdge(v2, v3, x);
  }

  lemma TailIsShort(a: Vertex, b: Vertex)
    requires a.y < b.y
    ensures TailLength(a, b) <= Abs(b.x - a.x)
  {
    HalfShrinks(Abs(b.x - a.x), b.y - a.y);
  }

  // The end of the tail of the edge a-b on b's row.
  function TailStart(a: Vertex, b: Vertex): int
    requires a.y < b.y
  {
    if b.x < a.x then b.x + TailLength(a, b) else b.x - TailLength(a, b)
  }

  lemma FlatBottomHull(v1: Vertex, v2: Vertex, v3: Vertex, s: Span)
    requires v1.y < v2.y == v3.y && s.y == v3.y && IsHull(v1, v2, v3, s)
    ensures s.minx == Min(TailStart(v1, v3), Min(v2.x, v3.x))
    ensures s.maxx == Max(TailStart(v1, v3), Max(v2.x, v3.x))
  {
    hide EdgePixel, TailLength, RowPixel;
    TailIsShort(v1, v3);
    FlatBottomRow(v1, v2, v3, s.minx);
    FlatBottomRow(v1, v2, v3, s.maxx);
    FlatBottomRow(v1, v2, v3, v2.x);
    FlatBottomRow(v1, v2, v3, v3.x);
    FlatBottomRow(v1, v2, v3, TailStart(v1, v3));
  }

  // Above a flat bottom the two sides play the same part.
  lemma FlatBottomAbove(v1: Vertex, v2: Vertex, v3: Vertex, s: seq<Span>, s': seq<Span>, k: int)
    requires v1.y < v2.y == v3.y && |s| == |s'| == v3.y - v1.y + 1
    requires Fills(v1, v2, v3, s) && Fills(v1, v3, v2, s')
    requires 0 <= k < |s| - 1
    ensures s[k] == s'[k]
  {
    hide EdgePixel;
    assert IsHull(v1, v2, v3, s[k]) && IsHull(v1, v3, v2, s'[k]);
    assert RowPixel(v1, v2, v3, s'[k].minx, s[k].y) && RowPixel(v1, v2, v3, s'[k].maxx, s[k].y);
    assert RowPixel(v1, v3, v2, s[k].minx, s[k].y) && RowPixel(v1, v3, v2, s[k].maxx, s[k].y);
  }

  /** The two orders of a flat bottom's corners give the same spans exactly when the tails
      agree. */
  lemma FlatBottomOrder(v1: Vertex, v2: Vertex, v3: Vertex, s: seq<Span>, s': seq<Span>)
    requires v1.y < v2.y == v3.y
    requires FillOf(v1, v2, v3, s) && FillOf(v1, v3, v2, s')
    ensures s == s' <==> FlatBottomAgrees(v1, v2, v3)
  {
    hide EdgePixel, TailLength, RowPixel;
    var n := |s| - 1;
    forall k | 0 <= k < n ensures s[k] == s'[k] {
      FlatBottomAbove(v1, v2, v3, s, s', k);
    }
    assert s == s' <==> s[n] == s'[n];
    FlatBottomHull(v1, v2, v3, s[n]);
    FlatBottomHull(v1, v3, v2, s'[n]);
    TailIsShort(v1, v2);
    TailIsShort(v1, v3);
  }

  /** Every triangle but a flat-bottomed one is filled with the same spans whatever the order
      its vertices are given in; a flat-bottomed one is when its tails agree. */
  lemma OrderIndependence(a: Vertex, b: Vertex, c: Vertex, a': Vertex, b': Vertex, c': Vertex,
                          s: seq<Span>, s': seq<Span>)
    requires Reordered(a, b, c, a', b', c') && FillOf(a, b, c, s) && FillOf(a', b', c', s')
    requires var (v1, v2, v3) := Sorted(a, b, c); v1.y < v2.y == v3.y ==> FlatBottomAgrees(v1, v2, v3)
    ensures s == s'
  {
    hide EdgePixel, FlatBottomAgrees;
    var (v1, v2, v3) := Sorted(a, b, c);
    var (w1, w2, w3) := Sorted(a', b', c');
    TiesOnly(a, b, c, a', b', c');
    if v1.y == v3.y {
      forall x, y ensures RowPixel(v1, v2, v3, x, y) <==> RowPixel(w1, w2, w3, x, y) {
        LevelRow(v1, v2, v3, x, y);
        LevelRow(w1, w2, w3, x, y);
      }
      SameRowsSameSpans(v1, v2, v3, w1, w2, w3, s, s');
    } else if w1 == v1 && w2 == v3 && w3 == v2 {
      FlatBottomOrder(v1, v2, v3, s, s');
    } else {
      FlatTopRows(v1, v2, v3, w1, w2, w3);
      SameRowsSameSpans(v1, v2, v3, w1, w2, w3, s, s');
    }
  }

  lemma LevelRow(v1: Vertex, v2: Vertex, v3: Vertex, x: int, y: int)
    requires v1.y == v2.y == v3.y
    ensures RowPixel(v1, v2, v3, x, y) <==>
            y == v1.y && Min(v1.x, Min(v2.x, v3.x)) <= x <= Max(v1.x, Max(v2.x, v3.x))
  {
    if y == v1.y {
      LevelEdge(v1, v3, x);
      LevelEdge(v2, v3, x);
    }
  }

  // Swapping the two upper vertices of a flat top changes no row.
  lemma FlatTopRows(v1: Vertex, v2: Vertex, v3: Vertex, w1: Vertex, w2: Vertex, w3: Vertex)
    requires v1.y <= v2.y <= v3.y
    requires (w1 == v1 && w2 == v2 && w3 == v3) || (w1 == v2 && w2 == v1 && w3 == v3 && v1.y == v2.y)
    ensures forall x, y :: RowPixel(v1, v2, v3, x, y) <==> RowPixel(w1, w2, w3, x, y)
  {
    forall x, y ensures RowPixel(v1, v2, v3, x, y) <==> RowPixel(w1, w2, w3, x, y) {
      if y < v2.y && w1 == v2 {
        assert !EdgePixel(v1, v3, x, y) && !EdgePixel(v2, v3, x, y);
      }
    }
  }

  // The last row drawn from an apex to two corners on one lower row: from the one to the other
  // and, along the apex's edge to the latter, back by the edge's tail.
  function BottomSpan(apex: Vertex, from: Vertex, to: Vertex): Span
    requires apex.y < to.y
  {
    var t := TailStart(apex, to);
    Span(Min(t, Min(from.x, to.x)), to.y, Max(t, Max(from.x, to.x)))
  }

  /** Which tail the last row of a flat-bottomed triangle has, for the vertices as they are
      given: that of the edge to the last of the two corners, or to the first vertex when the
      apex is the third. */
  lemma FlatBottomSpan(a: Vertex, b: Vertex, c: Vertex, spans: seq<Span>)
    requires FillOf(a, b, c, spans)
    ensures a.y < b.y == c.y ==> spans[|spans| - 1] == BottomSpan(a, b, c)
    ensures b.y < a.y == c.y ==> spans[|spans| - 1] == BottomSpan(b, a, c)
    ensures c.y < a.y == b.y ==> spans[|spans| - 1] == BottomSpan(c, b, a)
  {
    hide EdgePixel, TailLength, RowPixel, TailStart;
    var (v1, v2, v3) := Sorted(a, b, c);
    if v1.y < v2.y == v3.y {
      FlatBottomHull(v1, v2, v3, spans[|spans| - 1]);
    }
  }

  lemma WitnessTails()
    ensures TailStart(Vertex(0, 0), Vertex(20, 1)) == 10 && TailStart(Vertex(0, 0), Vertex(30, 1)) == 15
  {
  }

  // Swapping the corners of this flat bottom changes the fill's last row.
  lemma FlatBottomWitness(s: seq<Span>, s': seq<Span>)
    requires FillOf(Vertex(0, 0), Vertex(20, 1), Vertex(30, 1), s)
    requires FillOf(Vertex(0, 0), Vertex(30, 1), Vertex(20, 1), s')
    ensures s[|s| - 1] == Span(15, 1, 30) && s'[|s'| - 1] == Span(10, 1, 30)
  {
    hide FillOf, TailStart;
    WitnessTails();
    FlatBottomSpan(Vertex(0, 0), Vertex(20, 1), Vertex(30, 1), s);
    FlatBottomSpan(Vertex(0, 0), Vertex(30, 1), Vertex(20, 1), s');
  }
}
