/** The clipped horizontal span: how a row of the filler reaches the backbuffer.

    Coordinates travel from `int` to `unsigned long` and back to `int` through a 32-bit
    mask. What the backbuffer answers for a pixel is the parameter `put`; the calls made to
    it are returned, in order, as `log`. */
module Scanline {
  import opened Arithmetic

  datatype Pixel = Pixel(x: int, y: int)

  // One call of the span drawer: row y, from minx to maxx.
  datatype Span = Span(minx: int, y: int, maxx: int)

  const TWO_31: int := 0x8000_0000
  const TWO_32: int := 0x1_0000_0000
  const TWO_64: int := 0x1_0000_0000_0000_0000

  predicate Int32(n: int) {
    -TWO_31 <= n < TWO_31
  }

  function ToUnsignedLong(n: int): nat {
    n % TWO_64
  }

  // The low 32 bits read as a signed number.
  function LowInt(n: nat): int {
    var low := n % TWO_32;
    if TWO_31 <= low then low - TWO_32 else low
  }

  // The pixels of row y with lo <= x < hi, left to right.
  function Row(lo: int, hi: int, y: int): seq<Pixel> {
    if lo < hi then seq(hi - lo, (k: nat) => Pixel(lo + k, y)) else []
  }

  function Sum(put: Pixel -> int, pixels: seq<Pixel>): int {
    if pixels == [] then 0
    else Sum(put, pixels[..|pixels| - 1]) + put(pixels[|pixels| - 1])
  }

  // What a span leaves on a device `width` pixels wide: its right end is not painted, and
  // neither is the device's last column.
  function Clipped(s: Span, width: int): seq<Pixel> {
    if s.y < 0 then [] else Row(Max(0, s.minx), Min(s.maxx, width - 1), s.y)
  }

  // An `int` argument survives the trip through `unsigned long` and the mask.
  lemma IntSurvives(n: int)
    requires Int32(n)
    ensures LowInt(ToUnsignedLong(n)) == n
  {
    if n < 0 {
      DivUnique(n, TWO_64, -1);
      assert n == TWO_64 * (n / TWO_64) + n % TWO_64;
    }
  }

  lemma InRow(lo: int, hi: int, y: int, p: Pixel)
    ensures p in Row(lo, hi, y) <==> lo <= p.x < hi && p.y == y
  {
    if lo <= p.x < hi && p.y == y {
      assert Row(lo, hi, y)[p.x - lo] == p;
    }
  }

  method GrPlot2D(x: int, y: int, put: Pixel -> int) returns (n: int, log: seq<Pixel>)
    ensures log == if x < 0 || y < 0 then [] else [Pixel(x, y)]
    ensures n == Sum(put, log)
  {
    if x < 0 {
      return 0, [];
    }
    if y < 0 {
      return 0, [];
    }
    n, log := put(Pixel(x, y)), [Pixel(x, y)];
    assert log[..0] == [];
  }

  method DrawHorizontalLine(x1: nat, y: nat, x2: nat, deviceWidth: nat, put: Pixel -> int)
    returns (npixels: int, log: seq<Pixel>)
    ensures var s, w := Span(LowInt(x1), LowInt(y), LowInt(x2)), LowInt(deviceWidth);
            && log == Clipped(s, w)
            && npixels == Min(|log|, Sum(put, log))
  {
    npixels, log := 0, [];
    var left := LowInt(x1);
    var right := LowInt(x2);
    var row := LowInt(y);
    var w := LowInt(deviceWidth);

    if left < 0 {
      left := 0;
    }
    if y < 0 {  // y is unsigned here, so rows above the screen are not stopped by this
      return;
    }
    if right >= w {
      right := w - 1;
    }
    if left > right {
      return;
    }
    npixels := right - left;
    var start := left;
    var checkValue := 0;
    while left < right
      invariant start <= left <= right && npixels == right - start
      invariant log == if row < 0 then [] else Row(start, left, row)
      invariant checkValue == Sum(put, log)
    {
      var n, plotted := GrPlot2D(left, row, put);
      assert |plotted| == 1 ==> (log + plotted)[..|log|] == log;
      assert plotted == [] ==> log + plotted == log;
      log := log + plotted;
      checkValue := checkValue + n;
      left := left + 1;
      assert plotted[..|plotted|] == plotted && (|plotted| == 1 ==> plotted[..0] == []);
    }
    if checkValue < npixels {
      npixels := checkValue;
    }
  }
}
