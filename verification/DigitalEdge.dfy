/** A polygon edge on the pixel grid, measured from its upper end: `xExtent` columns across
    and `yExtent` rows down. Its longer extent is walked one pixel at a time and the shorter
    one follows, rounded to the nearest pixel, halves going up.

    `On` says which pixels the edge has, and `First` and `Last` are its columns on a row in
    closed form. `RowStart` is the state the filler's error term keeps at the top of each row;
    `SteepRow`, `ShallowRow` and `ShallowLast` show that it determines the row's pixels. */
module DigitalEdge {
  import opened Arithmetic

  // The rounded shorter coordinate after `i` of `major` steps.
  function Rounded(major: nat, minor: nat, i: int): int
    requires 0 < major
  {
    (major / 2 + i * minor) / major
  }

  // Pixel (column offset i, row k) belongs to the edge.
  predicate On(xExtent: nat, yExtent: nat, i: int, k: int) {
    && 0 <= i <= xExtent
    && 0 <= k <= yExtent
    && (if xExtent < yExtent then i == Rounded(yExtent, xExtent, k)
        else xExtent == 0 || k == Rounded(xExtent, yExtent, i))
  }

  // The longer and the shorter extent, and whether rows are the longer one.
  datatype Shape = Shape(major: nat, minor: nat, steep: bool) {
    ghost predicate Valid() {
      && minor <= major
      && (steep ==> minor < major)
    }

    function XExtent(): nat {
      if steep then minor else major
    }

    function YExtent(): nat {
      if steep then major else minor
    }
  }

  /** At the top of row `k` the walk stands `off` columns out and its error term is `e`. */
  ghost predicate RowStart(s: Shape, k: int, off: int, e: int) {
    && 0 <= k <= s.YExtent()
    && 0 <= e < s.major
    && if s.steep then e == s.major / 2 + k * s.minor - off * s.major
       else && e == s.major / 2 + off * s.minor - k * s.major
            && (k == 0 ==> off == 0)
            && (0 < k ==> e < s.minor)
  }

  // `i` rounds to `k` exactly when the error term reaches the k-th multiple but not the next.
  lemma RoundedIs(major: nat, minor: nat, i: int, k: int)
    requires 0 < major
    ensures Rounded(major, minor, i) == k <==> k * major <= major / 2 + i * minor < (k + 1) * major
  {
    var a := major / 2 + i * minor;
    if k * major <= a < (k + 1) * major {
      DivUnique(a, major, k);
    }
    if Rounded(major, minor, i) == k {
      assert a == major * (a / major) + a % major;
    }
  }

  // At the top of a row above the last one, a shallow walk has columns left to go.
  lemma ShallowNotDone(s: Shape, k: int, off: int, e: int)
    requires s.Valid() && !s.steep && k < s.YExtent()
    requires e == s.major / 2 + off * s.minor - k * s.major && e < s.major
    ensures off < s.major
  {
    MulMono(k + 1, s.minor, s.major);
    MulCancel(off, s.major, s.minor);
  }

  // On the last row a shallow walk never carries before it reaches the last column.
  lemma ShallowLastRow(s: Shape, off: int, e: int)
    requires s.Valid() && !s.steep && 0 <= off < s.major
    requires e == s.major / 2 + off * s.minor - s.minor * s.major
    ensures e + s.minor < s.major
  {
    MulMono(off + 1, s.major, s.minor);
    MulCommutes(s.major, s.minor);
  }

  lemma RowStartBounds(s: Shape, k: int, off: int, e: int)
    requires s.Valid() && RowStart(s, k, off, e)
    ensures 0 <= off <= s.XExtent()
  {
    if s.steep {
      SteepBounds(s.major, s.minor, k, off);
    } else if 0 < k {
      ShallowBounds(s.major, s.minor, k, off);
    }
  }

  lemma SteepBounds(major: nat, minor: nat, k: nat, off: int)
    requires k <= major && off * major <= major / 2 + k * minor < off * major + major
    ensures 0 <= off <= minor
  {
    MulMono(0, k, minor);
    MulCancel(-1, off, major);
    MulMono(k, major, minor);
    MulCommutes(minor, major);
    assert off * major < (minor + 1) * major;
    MulCancel(off, minor + 1, major);
  }

  lemma ShallowBounds(major: nat, minor: nat, k: nat, off: int)
    requires 0 < k <= minor <= major
    requires k * major <= major / 2 + off * minor < k * major + minor
    ensures 0 <= off <= major
  {
    MulMono(1, k, major);
    MulCancel(0, off, minor);
    MulMono(k, minor, major);
    MulCommutes(minor, major);
    assert off * minor < (major + 1) * minor;
    MulCancel(off, major + 1, minor);
  }

  // The row's starting state separates the columns before it from those it has reached.
  lemma FirstOfRow(s: Shape, k: int, off: int, e: int, i: int)
    requires s.Valid() && !s.steep && RowStart(s, k, off, e) && 0 <= i
    ensures off <= i <==> k * s.major <= s.major / 2 + i * s.minor
  {
    if off <= i {
      MulMono(off, i, s.minor);
    } else {
      MulMono(i, off - 1, s.minor);
      MulPred(off, s.minor);
    }
  }

  // A steep row has one pixel, the column the walk stands on.
  lemma SteepRow(s: Shape, k: int, off: int, e: int, i: int)
    requires s.Valid() && s.steep && RowStart(s, k, off, e)
    ensures Rounded(s.major, s.minor, k) == off
    ensures On(s.XExtent(), s.YExtent(), i, k) <==> i == off
  {
    RoundedIs(s.major, s.minor, k, off);
    RowStartBounds(s, k, off, e);
  }

  // A shallow row above the last has the columns from its start to just before the next start.
  lemma ShallowRow(s: Shape, k: int, off: int, e: int, off': int, e': int, i: int)
    requires s.Valid() && !s.steep
    requires RowStart(s, k, off, e) && RowStart(s, k + 1, off', e')
    ensures On(s.XExtent(), s.YExtent(), i, k) <==> off <= i < off'
  {
    RowStartBounds(s, k, off, e);
    RowStartBounds(s, k + 1, off', e');
    if 0 <= i {
      FirstOfRow(s, k, off, e, i);
      FirstOfRow(s, k + 1, off', e', i);
      RoundedIs(s.major, s.minor, i, k);
    }
  }

  // The last row of a shallow edge has every column from its start to the far end.
  lemma ShallowLast(s: Shape, off: int, e: int, i: int)
    requires s.Valid() && !s.steep && RowStart(s, s.minor, off, e)
    ensures On(s.XExtent(), s.YExtent(), i, s.minor) <==> off <= i <= s.major
  {
    RowStartBounds(s, s.minor, off, e);
    if 0 <= i <= s.major {
      FirstOfRow(s, s.minor, off, e, i);
      RoundedIs(s.major, s.minor, i, s.minor);
      LastRowUpper(s.major, s.minor, i);
    }
  }

  lemma LastRowUpper(major: nat, minor: nat, i: nat)
    requires i <= major && 0 < major
    ensures major / 2 + i * minor < (minor + 1) * major
  {
    MulMono(i, major, minor);
    MulCommutes(major, minor);
  }

  // ---------------------------------------------------------------- rows in closed form

  // The first and the last column offset of row k.
  function First(xExtent: nat, yExtent: nat, k: nat): int
    requires k <= yExtent
  {
    if xExtent < yExtent then Rounded(yExtent, xExtent, k)
    else if k == 0 then 0
    else (k * xExtent - xExtent / 2 + yExtent - 1) / yExtent
  }

  function Last(xExtent: nat, yExtent: nat, k: nat): int
    requires k <= yExtent
  {
    if xExtent < yExtent then Rounded(yExtent, xExtent, k)
    else if k == yExtent then xExtent
    else First(xExtent, yExtent, k + 1) - 1
  }

  lemma FirstReaches(xExtent: nat, yExtent: nat, k: nat, i: nat)
    requires k <= yExtent <= xExtent
    ensures First(xExtent, yExtent, k) <= i <==> k * xExtent <= xExtent / 2 + i * yExtent
  {
    if 0 < k {
      CeilReaches(k * xExtent - xExtent / 2, yExtent, i);
    } else {
      MulMono(0, i, yExtent);
    }
  }

  lemma RoundedWithin(major: nat, minor: nat, k: nat)
    requires k <= major && 0 < major
    ensures 0 <= Rounded(major, minor, k) <= minor
  {
    var r := Rounded(major, minor, k);
    RoundedIs(major, minor, k, r);
    LastRowUpper(major, minor, k);
    MulCancel(r, minor + 1, major);
    MulMono(0, k, minor);
    MulCancel(-1, r, major);
  }

  /** A row's pixels are the columns from its first to its last. */
  lemma OnIsInterval(xExtent: nat, yExtent: nat, i: int, k: nat)
    requires k <= yExtent
    ensures On(xExtent, yExtent, i, k) <==> First(xExtent, yExtent, k) <= i <= Last(xExtent, yExtent, k)
  {
    if xExtent < yExtent {
      RoundedWithin(yExtent, xExtent, k);
    } else {
      ShallowInterval(xExtent, yExtent, i, k);
    }
  }

  lemma ShallowInterval(xExtent: nat, yExtent: nat, i: int, k: nat)
    requires k <= yExtent <= xExtent
    ensures On(xExtent, yExtent, i, k) <==> First(xExtent, yExtent, k) <= i <= Last(xExtent, yExtent, k)
  {
    hide First, Rounded;
    FirstAtLeast(xExtent, yExtent, k);
    if 0 <= i && 0 < xExtent {
      RoundedIs(xExtent, yExtent, i, k);
      FirstReaches(xExtent, yExtent, k, i);
      if k < yExtent {
        FirstReaches(xExtent, yExtent, k + 1, i);
        FirstWithin(xExtent, yExtent, k + 1);
      } else if i <= xExtent {
        LastRowUpper(xExtent, yExtent, i);
      }
    }
  }

  lemma FirstAtLeast(xExtent: nat, yExtent: nat, k: nat)
    requires k <= yExtent <= xExtent
    ensures 0 <= First(xExtent, yExtent, k) && (k == 0 ==> First(xExtent, yExtent, k) == 0)
  {
    if 0 < k {
      MulMono(1, k, xExtent);
    }
  }

  lemma FirstWithin(xExtent: nat, yExtent: nat, k: nat)
    requires k <= yExtent <= xExtent
    ensures First(xExtent, yExtent, k) <= xExtent
  {
    hide First;
    FirstReaches(xExtent, yExtent, k, xExtent);
    MulMono(k, yExtent, xExtent);
    MulCommutes(yExtent, xExtent);
  }

  // Every row has a pixel.
  lemma FirstIsOn(xExtent: nat, yExtent: nat, k: nat)
    requires k <= yExtent
    ensures First(xExtent, yExtent, k) <= Last(xExtent, yExtent, k)
  {
    if yExtent <= xExtent {
      FirstWithin(xExtent, yExtent, k);
      if k < yExtent {
        FirstGrows(xExtent, yExtent, k);
      }
    }
  }

  lemma FirstGrows(xExtent: nat, yExtent: nat, k: nat)
    requires k < yExtent <= xExtent
    ensures First(xExtent, yExtent, k) < First(xExtent, yExtent, k + 1)
  {
    hide First;
    var f := First(xExtent, yExtent, k);
    FirstAtLeast(xExtent, yExtent, k);
    FirstReaches(xExtent, yExtent, k + 1, f);
    if 0 < f {
      FirstReaches(xExtent, yExtent, k, f - 1);
      MulPred(f, yExtent);
    }
    assert (k + 1) * xExtent == k * xExtent + xExtent;
    MulMono(0, k, xExtent);
  }
}
