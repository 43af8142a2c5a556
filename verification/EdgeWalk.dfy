/** The filler's four inner loops. Each walks one edge through one row; the lemmas say that
    the columns walked are exactly the digital edge's pixels on that row and that the error
    term left behind is the one the next row starts from. */
module EdgeWalk {
  import opened Arithmetic
  import opened DigitalEdge

  datatype Vertex = Vertex(x: int, y: int)

  // The shape of the edge from a down to b.
  function ShapeOf(a: Vertex, b: Vertex): (s: Shape)
    requires a.y <= b.y
    ensures s.Valid()
  {
    var dx, dy := Abs(b.x - a.x), b.y - a.y;
    if dx < dy then Shape(dy, dx, true) else Shape(dx, dy, false)
  }

  function Sign(a: Vertex, b: Vertex): (s: int)
    ensures s == 1 || s == -1
  {
    if b.x < a.x then -1 else 1
  }

  // Columns from a to x, counted towards b.
  function Offset(a: Vertex, b: Vertex, x: int): int {
    if b.x < a.x then a.x - x else x - a.x
  }

  // (x, y) is a pixel of the digital edge from a down to b.
  predicate EdgePixel(a: Vertex, b: Vertex, x: int, y: int)
    requires a.y <= b.y
  {
    On(Abs(b.x - a.x), b.y - a.y, Offset(a, b, x), y - a.y)
  }

  // The walk along edge a-b stands at column t on top of row y, with error term e.
  ghost predicate EdgeAt(a: Vertex, b: Vertex, y: int, t: int, e: int)
    requires a.y <= b.y
  {
    RowStart(ShapeOf(a, b), y - a.y, Offset(a, b, t), e)
  }

  // As EdgeAt, for walks that may be over: an edge of one pixel has no walk, and a steep
  // walk's error term no longer matters in the last column.
  ghost predicate EdgeOrDone(a: Vertex, b: Vertex, y: int, t: int, e: int)
    requires a.y <= b.y
  {
    var s := ShapeOf(a, b);
    if s.major == 0 then t == b.x
    else if s.steep && t == b.x then
      0 <= y - a.y <= s.major && Rounded(s.major, s.minor, y - a.y) == s.minor
    else EdgeAt(a, b, y, t, e)
  }

  predicate Between(p: int, x: int, q: int) {
    Min(p, q) <= x <= Max(p, q)
  }

  // ---------------------------------------------------------------- walking one row

  function Along(sign: int, t: int, n: int): int {
    if sign < 0 then t - n else t + n
  }

  /** The walk left its row: a steep walk took its one step, a shallow one took `n` steps of
      which the last carried and is still to be made. */
  ghost predicate Carried(s: Shape, sign: int, e0: int, t0: int, n: int, e: int, t: int, tp: int) {
    && 0 <= e < s.major
    && if s.steep then
         t == t0 && ((tp == 0 && e == e0 + s.minor) || (tp == sign && e == e0 + s.minor - s.major))
       else
         tp == 0 && 1 <= n && t == Along(sign, t0, n - 1) && e == e0 + n * s.minor - s.major < s.minor
  }

  /** A shallow walk that reached the far end of the edge without carrying. */
  ghost predicate RanOut(s: Shape, sign: int, e0: int, t0: int, n: int, e: int, t: int, tp: int) {
    && !s.steep && tp == 0 && 0 <= n
    && t == Along(sign, t0, n) && e == e0 + n * s.minor < s.major
  }

  // Upper edge: columns advance until the row is about to change.
  method WalkUpperEdge(s: Shape, sign: int, i0: int, e0: int, t0: int)
    returns (i: int, e: int, t: int, tp: int)
    requires s.Valid() && (sign == 1 || sign == -1)
    requires 0 <= e0 < s.major && i0 < s.major
    ensures Carried(s, sign, e0, t0, i - i0, e, t, tp) || (i == s.major && RanOut(s, sign, e0, t0, i - i0, e, t, tp))
    ensures s.steep ==> i == i0 + 1
  {
    i, e, t, tp := i0, e0, t0, 0;
    label walk: while i < s.major
      invariant i0 <= i <= s.major && tp == 0
      invariant s.steep ==> i == i0 && e == e0 && t == t0
      invariant !s.steep ==> RanOut(s, sign, e0, t0, i - i0, e, t, tp) && 0 <= e
    {
      i := i + 1;
      e := e + s.minor;
      while e >= s.major
        invariant 0 <= e < s.major + s.minor
        invariant s.steep ==> (tp == 0 && e == e0 + s.minor) || (tp == sign && e == e0 + s.minor - s.major)
        invariant !s.steep ==> tp == 0 && e == e0 + (i - i0) * s.minor
      {
        e := e - s.major;
        if s.steep {
          tp := sign;
        } else {
          break walk;
        }
      }
      if s.steep {
        break;
      } else {
        t := t + sign;
      }
    }
  }

  // Long edge, first half: the row is sure to change, so there is no other way out.
  method WalkLongEdge(s: Shape, sign: int, e0: int, t0: int)
    returns (e: int, t: int, tp: int, ghost n: int)
    requires s.Valid() && (sign == 1 || sign == -1)
    requires 0 <= e0 < s.major && (s.steep || 0 < s.minor)
    ensures Carried(s, sign, e0, t0, n, e, t, tp)
  {
    e, t, tp, n := e0, t0, 0, 0;
    label walk: while true
      invariant n == 0 ==> e == e0 && t == t0
      invariant s.steep ==> n == 0
      invariant tp == 0 && 0 <= e
      invariant !s.steep ==> RanOut(s, sign, e0, t0, n, e, t, tp)
      decreases s.major - e
    {
      n := n + 1;
      e := e + s.minor;
      while e >= s.major
        invariant 0 <= e < s.major + s.minor
        invariant s.steep ==> (tp == 0 && e == e0 + s.minor) || (tp == sign && e == e0 + s.minor - s.major)
        invariant !s.steep ==> tp == 0 && e == e0 + n * s.minor
      {
        e := e - s.major;
        if s.steep {
          tp := sign;
        } else {
          break walk;
        }
      }
      if s.steep {
        break;
      } else {
        t := t + sign;
      }
    }
  }

  // Lower edge: the carrying step is counted by the caller's loop, not here.
  method WalkLowerEdge(s: Shape, sign: int, i0: int, e0: int, t0: int)
    returns (i: int, e: int, t: int, tp: int)
    requires s.Valid() && (sign == 1 || sign == -1)
    requires 0 <= e0 && (i0 < s.major ==> e0 < s.major) && i0 <= s.major
    ensures i0 < s.major ==>
              || (i < s.major && Carried(s, sign, e0, t0, i + 1 - i0, e, t, tp))
              || (i == s.major && RanOut(s, sign, e0, t0, i - i0, e, t, tp))
    ensures i0 == s.major ==> i == i0 && t == t0 && tp == 0 && e == e0
    ensures s.steep ==> i == i0
  {
    i, e, t, tp := i0, e0, t0, 0;
    label walk: while i < s.major
      invariant i0 <= i <= s.major && tp == 0
      invariant i == i0 ==> e == e0 && t == t0
      invariant s.steep ==> i == i0
      invariant !s.steep && i0 < s.major ==> RanOut(s, sign, e0, t0, i - i0, e, t, tp) && 0 <= e
    {
      e := e + s.minor;
      if e >= s.major {  // the source has a loop here, which always leaves on its first round
        e := e - s.major;
        if s.steep {
          tp := sign;
          break;
        } else {
          break walk;
        }
      }
      if s.steep {
        break;
      } else {
        t := t + sign;
      }
      if i < s.major {
        i := i + 1;
      }
    }
  }

  // Long edge, second half: as above, but the walk also ends at the last vertex's column.
  method WalkLongEdgeToEnd(s: Shape, sign: int, e0: int, t0: int, x3: int)
    returns (e: int, t: int, tp: int, ghost n: int)
    requires s.Valid() && (sign == 1 || sign == -1)
    requires t0 != x3 ==> 0 <= e0 < s.major
    requires 0 <= Along(sign, 0, x3 - t0)
    ensures t0 != x3 ==>
              || (n <= Along(sign, 0, x3 - t0) && Carried(s, sign, e0, t0, n, e, t, tp))
              || (t == x3 && RanOut(s, sign, e0, t0, n, e, t, tp))
    ensures t0 == x3 ==> t == t0 && tp == 0 && e == e0
  {
    e, t, tp, n := e0, t0, 0, 0;
    ghost var d := Along(sign, 0, x3 - t0);
    label walk: while t != x3
      invariant 0 <= n <= d && tp == 0 && t == Along(sign, t0, n)
      invariant n == 0 ==> e == e0
      invariant s.steep ==> n == 0
      invariant t0 != x3 ==> 0 <= e < s.major
      invariant !s.steep && t0 != x3 ==> RanOut(s, sign, e0, t0, n, e, t, tp)
      decreases d - n
    {
      n := n + 1;
      e := e + s.minor;
      while e >= s.major
        invariant 0 <= e < s.major + s.minor
        invariant s.steep ==> (tp == 0 && e == e0 + s.minor) || (tp == sign && e == e0 + s.minor - s.major)
        invariant !s.steep ==> tp == 0 && e == e0 + n * s.minor
      {
        e := e - s.major;
        if s.steep {
          tp := sign;
        } else {
          break walk;
        }
      }
      if s.steep {
        break;
      } else {
        t := t + sign;
      }
    }
  }

  // ---------------------------------------------------------------- what a walk has covered

  lemma SteepNext(s: Shape, k: int, off: int, e: int, e': int, step: int)
    requires s.Valid() && s.steep && k < s.YExtent() && RowStart(s, k, off, e) && 0 <= e' < s.major
    requires (step == 0 && e' == e + s.minor) || (step == 1 && e' == e + s.minor - s.major)
    ensures RowStart(s, k + 1, off + step, e')
  {
    assert (k + 1) * s.minor == k * s.minor + s.minor;
    if step == 1 {
      assert (off + 1) * s.major == off * s.major + s.major;
    }
  }

  lemma ShallowNext(s: Shape, k: int, off: int, e: int, e': int, n: int)
    requires s.Valid() && !s.steep && k < s.YExtent() && RowStart(s, k, off, e)
    requires 0 <= e' < s.minor && e' == e + n * s.minor - s.major
    ensures RowStart(s, k + 1, off + n, e')
  {
    assert (off + n) * s.minor == off * s.minor + n * s.minor;
    assert (k + 1) * s.major == k * s.major + s.major;
  }

  /** A row left by carrying: the walk covered exactly the edge's pixels on it, and stands at
      the top of the next row once the pending steps are made. */
  lemma CarriedRow(a: Vertex, b: Vertex, y: int, e0: int, t0: int, n: int, e: int, t: int, tp: int)
    requires a.y <= y < b.y && EdgeAt(a, b, y, t0, e0)
    requires Carried(ShapeOf(a, b), Sign(a, b), e0, t0, n, e, t, tp)
    ensures forall x :: EdgePixel(a, b, x, y) <==> Between(t0, x, t)
    ensures EdgeAt(a, b, y + 1, t + (if ShapeOf(a, b).steep then 0 else Sign(a, b)) + tp, e)
  {
    hide RowStart, On;
    var s, k, off := ShapeOf(a, b), y - a.y, Offset(a, b, t0);
    if s.steep {
      SteepNext(s, k, off, e0, e, if tp == 0 then 0 else 1);
      forall x ensures EdgePixel(a, b, x, y) <==> x == t0 {
        SteepRow(s, k, off, e0, Offset(a, b, x));
      }
    } else {
      ShallowNext(s, k, off, e0, e, n);
      forall x ensures EdgePixel(a, b, x, y) <==> Between(t0, x, t) {
        ShallowRow(s, k, off, e0, off + n, e, Offset(a, b, x));
      }
    }
  }

  /** The last row, walked to the far end. */
  lemma RanOutRow(a: Vertex, b: Vertex, e0: int, t0: int)
    requires a.y <= b.y && !ShapeOf(a, b).steep && EdgeAt(a, b, b.y, t0, e0)
    ensures forall x :: EdgePixel(a, b, x, b.y) <==> Between(t0, x, b.x)
  {
    var s, off := ShapeOf(a, b), Offset(a, b, t0);
    RowStartBounds(s, s.minor, off, e0);
    forall x ensures EdgePixel(a, b, x, b.y) <==> Between(t0, x, b.x) {
      ShallowLast(s, off, e0, Offset(a, b, x));
    }
  }

  // A shallow walk cannot run out above the last row...
  lemma RanOutIsLast(s: Shape, k: int, off: int, e0: int, n: int)
    requires s.Valid() && !s.steep && RowStart(s, k, off, e0)
    requires off + n == s.major && e0 + n * s.minor < s.major
    ensures k == s.YExtent()
  {
    assert (off + n) * s.minor == off * s.minor + n * s.minor;
    if k < s.YExtent() {
      ShallowNotDone(s, k, s.major, e0 + n * s.minor);
    }
  }

  // ... nor carry on it.
  lemma CarriedIsNotLast(s: Shape, k: int, off: int, e0: int, n: int)
    requires s.Valid() && !s.steep && RowStart(s, k, off, e0)
    requires 1 <= n && off + n <= s.major && s.major <= e0 + n * s.minor
    ensures k < s.YExtent()
  {
    if k == s.YExtent() {
      assert (off + n - 1) * s.minor == off * s.minor + n * s.minor - s.minor;
      RowStartBounds(s, k, off, e0);
      ShallowLastRow(s, off + n - 1, e0 + n * s.minor - s.minor);
    }
  }

  /** State of the upper edge's walk on top of row `y`; `i` counts columns or rows. */
  ghost predicate UpperAt(a: Vertex, b: Vertex, y: int, i: int, t: int, e: int)
    requires a.y <= b.y
  {
    && a.y <= y < b.y && EdgeAt(a, b, y, t, e)
    && i == if ShapeOf(a, b).steep then y - a.y else Offset(a, b, t)
  }

  // A walk begins at the upper vertex with half the longer extent as its error term.
  lemma WalkBegins(a: Vertex, b: Vertex)
    requires a.y < b.y
    ensures EdgeAt(a, b, a.y, a.x, ShapeOf(a, b).major / 2)
    ensures UpperAt(a, b, a.y, 0, a.x, ShapeOf(a, b).major / 2)
  {
  }

  // Above an edge's last row its walk can go on.
  lemma WalkGoesOn(a: Vertex, b: Vertex, y: int, t: int, e: int)
    requires a.y <= y < b.y && EdgeAt(a, b, y, t, e)
    ensures 0 <= e < ShapeOf(a, b).major && (ShapeOf(a, b).steep || 0 < ShapeOf(a, b).minor)
  {
  }

  // The upper edge still has steps to make on every row above the middle vertex.
  lemma UpperGuard(a: Vertex, b: Vertex, y: int, i: int, t: int, e: int)
    requires a.y <= b.y && UpperAt(a, b, y, i, t, e)
    ensures i < ShapeOf(a, b).major && 0 <= e < ShapeOf(a, b).major
  {
    var s := ShapeOf(a, b);
    if !s.steep {
      ShallowNotDone(s, y - a.y, Offset(a, b, t), e);
    }
  }

  lemma UpperRow(a: Vertex, b: Vertex, y: int, i0: int, e0: int, t0: int, i: int, e: int, t: int, tp: int)
    requires a.y <= b.y && UpperAt(a, b, y, i0, t0, e0)
    requires var s, sign := ShapeOf(a, b), Sign(a, b);
             || Carried(s, sign, e0, t0, i - i0, e, t, tp)
             || (i == s.major && RanOut(s, sign, e0, t0, i - i0, e, t, tp))
    requires ShapeOf(a, b).steep ==> i == i0 + 1
    ensures forall x :: EdgePixel(a, b, x, y) <==> Between(t0, x, t)
    ensures y + 1 < b.y ==> UpperAt(a, b, y + 1, i, t + (if ShapeOf(a, b).steep then 0 else Sign(a, b)) + tp, e)
  {
    var s, sign := ShapeOf(a, b), Sign(a, b);
    if i == s.major && RanOut(s, sign, e0, t0, i - i0, e, t, tp) {
      RanOutIsLast(s, y - a.y, Offset(a, b, t0), e0, i - i0);
    }
    CarriedRow(a, b, y, e0, t0, i - i0, e, t, tp);
  }

  lemma ErrorTermBounds(s: Shape, k: int, off: int, e: int)
    requires RowStart(s, k, off, e)
    ensures 0 <= e < s.major
  {
  }

  /** State of the lower edge's walk on top of row `y`; `i` counts columns or rows. */
  ghost predicate LowerAt(a: Vertex, b: Vertex, y: int, i: int, t: int, e: int)
    requires a.y <= b.y
  {
    var s := ShapeOf(a, b);
    && a.y <= y <= b.y
    && if s.major == 0 then i == 0 && t == b.x && 0 <= e
       else EdgeAt(a, b, y, t, e) && i == if s.steep then y - a.y else Offset(a, b, t)
  }

  lemma LowerRow(a: Vertex, b: Vertex, y: int, i0: int, e0: int, t0: int, i: int, e: int, t: int, tp: int)
    requires a.y <= b.y && LowerAt(a, b, y, i0, t0, e0)
    requires var s, sign := ShapeOf(a, b), Sign(a, b);
             if i0 == s.major then i == i0 && t == t0 && tp == 0 && e == e0
             else
               || (i < s.major && Carried(s, sign, e0, t0, i + 1 - i0, e, t, tp))
               || (i == s.major && RanOut(s, sign, e0, t0, i - i0, e, t, tp))
    requires ShapeOf(a, b).steep ==> i == i0
    ensures forall x :: EdgePixel(a, b, x, y) <==> Between(t0, x, t)
    ensures y < b.y ==> LowerAt(a, b, y + 1, i + 1, t + (if ShapeOf(a, b).steep then 0 else Sign(a, b)) + tp, e)
  {
    hide RowStart;
    var s, sign, k, off := ShapeOf(a, b), Sign(a, b), y - a.y, Offset(a, b, t0);
    if s.major == 0 {
      assert Offset(a, b, b.x) == 0;
    } else if s.steep {
      if i0 == s.major {
        forall x ensures EdgePixel(a, b, x, y) <==> x == t0 {
          SteepRow(s, k, off, e0, Offset(a, b, x));
        }
      } else {
        CarriedRow(a, b, y, e0, t0, 1, e, t, tp);
      }
    } else if i < s.major {
      CarriedIsNotLast(s, k, off, e0, i + 1 - i0);
      CarriedRow(a, b, y, e0, t0, i + 1 - i0, e, t, tp);
    } else {
      ErrorTermBounds(s, k, off, e0);
      RanOutIsLast(s, k, off, e0, i - i0);
      RanOutRow(a, b, e0, t0);
    }
  }

  // A steep walk reaches its last column by its last row, and then stays in it.
  lemma SteepEnd(s: Shape)
    requires s.Valid() && s.steep
    ensures Rounded(s.major, s.minor, s.major) == s.minor
  {
    LastRowUpper(s.major, s.minor, s.major);
    MulCommutes(s.major, s.minor);
    RoundedIs(s.major, s.minor, s.major, s.minor);
  }

  lemma SteepStays(s: Shape, k: int)
    requires s.Valid() && s.steep && 0 <= k < s.major && Rounded(s.major, s.minor, k) == s.minor
    ensures Rounded(s.major, s.minor, k + 1) == s.minor
  {
    RoundedIs(s.major, s.minor, k, s.minor);
    LastRowUpper(s.major, s.minor, k + 1);
    RoundedIs(s.major, s.minor, k + 1, s.minor);
  }

  lemma LongRow(a: Vertex, b: Vertex, y: int, e0: int, t0: int, n: int, e: int, t: int, tp: int)
    requires a.y <= y <= b.y && EdgeOrDone(a, b, y, t0, e0)
    requires var s, sign := ShapeOf(a, b), Sign(a, b);
             if t0 == b.x then t == t0 && tp == 0 && e == e0
             else
               || (n <= Along(sign, 0, b.x - t0) && Carried(s, sign, e0, t0, n, e, t, tp))
               || (t == b.x && RanOut(s, sign, e0, t0, n, e, t, tp))
    ensures forall x :: EdgePixel(a, b, x, y) <==> Between(t0, x, t)
    ensures y < b.y ==> EdgeOrDone(a, b, y + 1, t + (if ShapeOf(a, b).steep then 0 else Sign(a, b)) + tp, e)
  {
    var s, sign, k, off := ShapeOf(a, b), Sign(a, b), y - a.y, Offset(a, b, t0);
    if s.major == 0 {
      assert Offset(a, b, b.x) == 0;
    } else if s.steep {
      SteepEnd(s);
      if t0 == b.x && y < b.y {
        SteepStays(s, k);
      }
      if t0 != b.x {
        SteepRow(s, k, off, e0, off);
        CarriedRow(a, b, y, e0, t0, n, e, t, tp);
        SteepRow(s, k + 1, Offset(a, b, t + tp), e, 0);
      }
    } else if t == b.x && (t0 == b.x || RanOut(s, sign, e0, t0, n, e, t, tp)) {
      RanOutIsLast(s, k, off, e0, if t0 == b.x then 0 else n);
      RanOutRow(a, b, e0, t0);
    } else {
      CarriedIsNotLast(s, k, off, e0, n);
      CarriedRow(a, b, y, e0, t0, n, e, t, tp);
    }
  }

  lemma LongBegins(a: Vertex, b: Vertex)
    requires a.y <= b.y
    ensures EdgeOrDone(a, b, a.y, a.x, ShapeOf(a, b).major / 2)
  {
    var s := ShapeOf(a, b);
    if s.steep {
      SteepRow(s, 0, 0, s.major / 2, 0);
    }
  }

  lemma LongContinues(a: Vertex, b: Vertex, y: int, t: int, e: int)
    requires a.y <= y <= b.y && EdgeAt(a, b, y, t, e)
    ensures EdgeOrDone(a, b, y, t, e)
  {
    var s := ShapeOf(a, b);
    if s.steep {
      SteepRow(s, y - a.y, Offset(a, b, t), e, 0);
    }
  }

  lemma LongGoesOn(a: Vertex, b: Vertex, y: int, t: int, e: int)
    requires a.y <= y <= b.y && EdgeOrDone(a, b, y, t, e)
    ensures t != b.x ==> 0 <= e < ShapeOf(a, b).major
    ensures 0 <= Along(Sign(a, b), 0, b.x - t)
  {
    var s := ShapeOf(a, b);
    if t != b.x {
      RowStartBounds(s, y - a.y, Offset(a, b, t), e);
    }
  }

  lemma LowerBegins(a: Vertex, b: Vertex)
    requires a.y <= b.y
    ensures LowerAt(a, b, a.y, 0, a.x, ShapeOf(a, b).major / 2)
  {
  }

  // The lower edge's counter never passes its bound while there are rows to draw.
  lemma LowerGoesOn(a: Vertex, b: Vertex, y: int, i: int, t: int, e: int)
    requires a.y <= b.y && LowerAt(a, b, y, i, t, e)
    ensures i <= ShapeOf(a, b).major && 0 <= e && (i < ShapeOf(a, b).major ==> e < ShapeOf(a, b).major)
  {
    var s := ShapeOf(a, b);
    if s.major != 0 {
      RowStartBounds(s, y - a.y, Offset(a, b, t), e);
    }
  }
}
