/** Displaying a BMP file. The decode loop keeps a byte cursor, a half-byte flag that outlives
    the call, and two screen cursors; the specification gives every pixel's bytes, colour and
    target in closed form. */
module Bmp {
  import opened Wrappers

  type byte = b: int | 0 <= b < 256

  // The bytes from the file's address on.
  type Memory = nat -> byte

  // A 32-bit colour word, lowest byte first.
  datatype Color = Color(b0: byte, b1: byte, b2: byte, b3: byte)

  // One call of the pixel drawer.
  datatype Dot = Dot(color: Color, x: int, y: int)

  const SECOND_NIBBLE: int := 2222
  const TRANSPARENT: int := 1000
  const SUBSTITUTE: int := 2000
  const BLACK := Color(0, 0, 0, 0)

  // ---------------------------------------------------------------- header

  function Word16(m: Memory, a: nat): nat {
    m(a) + 256 * m(a + 1)
  }

  function Word32(m: Memory, a: nat): nat {
    Word16(m, a) + 65536 * Word16(m, a + 2)
  }

  function Width(m: Memory): nat { Word32(m, 18) % 65536 }

  function Height(m: Memory): nat { Word32(m, 22) % 65536 }

  function PixelCount(m: Memory): nat { Height(m) * Width(m) }

  function BitCount(m: Memory): nat { Word16(m, 28) }

  // Where the palette starts, or the pixels when there is none.
  function TableOffset(m: Memory): nat { Word32(m, 10) % 256 }

  function DataOffset(m: Memory): nat {
    TableOffset(m) + match BitCount(m)
      case 1 => 8
      case 4 => 64
      case 8 => 1024
      case 16 => 65536
      case _ => 0
  }

  function Palette(m: Memory, i: nat): Color {
    var a := TableOffset(m) + 4 * i;
    Color(m(a), m(a + 1), m(a + 2), m(a + 3))
  }

  // ---------------------------------------------------------------- pixels, in closed form

  function High(b: byte): nat { b / 16 }

  function Low(b: byte): nat { b % 16 }

  // Two bytes spread over a colour word: masks F8, 07 | E0 and 1F.
  function Spread(b0: byte, b1: byte): Color {
    Color(0, b0 - b0 % 8, b0 % 8 + (b1 - b1 % 32), b1 % 32)
  }

  // Pixels already consumed of the first byte: one when an earlier image left the flag set.
  function Skew(nibble: int): nat {
    if nibble == SECOND_NIBBLE then 1 else 0
  }

  // The byte of a 4-bit image's n-th pixel, and whether it is the byte's high half.
  function NibbleAt(m: Memory, nibble: int, n: nat): (nat, bool) {
    var p := n + Skew(nibble);
    (DataOffset(m) + p / 2, p % 2 == 0)
  }

  /** The colour of the n-th pixel in reading order, given the flag's value at the start. */
  function ColorAt(m: Memory, nibble: int, n: nat): Color {
    var base := DataOffset(m);
    match BitCount(m)
    case 4 =>
      var (address, high) := NibbleAt(m, nibble, n);
      Palette(m, if high then High(m(address)) else Low(m(address)))
    case 8 => Palette(m, m(base + n))
    case 16 => Spread(m(base + 2 * n), m(base + 2 * n + 1))
    case 24 => Color(m(base + 3 * n), m(base + 3 * n + 1), m(base + 3 * n + 2), 0)
    case 32 => Color(m(base + 4 * n), m(base + 4 * n + 1), m(base + 4 * n + 2), 0)
    case _ => BLACK
  }

  // The cursor and the flag after n pixels.
  function CursorAt(m: Memory, nibble: int, n: nat): nat {
    DataOffset(m) + match BitCount(m)
      case 4 => (n + Skew(nibble)) / 2
      case 8 => n
      case 16 => 2 * n
      case 24 => 3 * n
      case 32 => 4 * n
      case _ => 0
  }

  function FlagAt(m: Memory, nibble: int, n: nat): int {
    if BitCount(m) != 4 || n == 0 then nibble
    else if (n + Skew(nibble)) % 2 == 1 then SECOND_NIBBLE else 0
  }

  // What the colour mode makes of a decoded colour; None is a pixel left alone.
  function Recoloured(mode: int, selected: Color, substitute: Color, c: Color): Option<Color> {
    if mode == TRANSPARENT then (if c != selected then Some(c) else None)
    else if mode == SUBSTITUTE then (if c == selected then Some(substitute) else Some(c))
    else Some(c)
  }

  // The calls for a range of rows and columns, bottom row of the screen first.
  datatype Job = Job(m: Memory, nibble: int, mode: int, selected: Color, substitute: Color, x: nat, y: nat) {
    function DotAt(i: nat, j: nat): seq<Dot> {
      match Recoloured(mode, selected, substitute, ColorAt(m, nibble, i * Width(m) + j))
      case Some(c) => [Dot(c, x + j, y + Height(m) - i)]
      case None => []
    }

    function RowDots(i: nat, columns: nat): seq<Dot> {
      if columns == 0 then [] else RowDots(i, columns - 1) + DotAt(i, columns - 1)
    }

    // The rectangle the image is drawn in: its rows are y + 1 to y + h.
    predicate Covers(px: int, py: int) {
      x <= px < x + Width(m) && y < py <= y + Height(m)
    }

    // The colour a covered point is given, if any.
    function ColourOf(px: int, py: int): Option<Color>
      requires Covers(px, py)
    {
      var i: nat, j: nat := y + Height(m) - py, px - x;
      Recoloured(mode, selected, substitute, ColorAt(m, nibble, i * Width(m) + j))
    }

    function Dots(rows: nat): seq<Dot> {
      if rows == 0 then [] else Dots(rows - 1) + RowDots(rows - 1, Width(m))
    }
  }

  // ---------------------------------------------------------------- the decoder

  // A depth the loop has no decoding for: the initial colour stays.
  predicate Plain(m: Memory) {
    BitCount(m) !in {4, 8, 16, 24, 32}
  }

  class Decoder {
    var nibble: int
    var mode: int
    var selected: Color
    var substitute: Color

    // One pixel: decode it, advance the cursor, flip the flag.
    method NextColor(m: Memory, base0: nat, color0: Color, ghost start: int, ghost n: nat)
      returns (base: nat, color: Color)
      requires base0 == CursorAt(m, start, n) && nibble == FlagAt(m, start, n)
      requires Plain(m) ==> color0 == BLACK
      modifies this`nibble
      ensures base == CursorAt(m, start, n + 1) && nibble == FlagAt(m, start, n + 1)
      ensures color == ColorAt(m, start, n) && (Plain(m) ==> color == BLACK)
    {
      hide Palette, Spread, High, Low, DataOffset, BitCount;
      base, color := base0, color0;
      var bits := BitCount(m);
      if bits == 4 {
        if nibble == SECOND_NIBBLE {
          color := Palette(m, Low(m(base)));
          nibble := 0;
          base := base + 1;
        } else {
          color := Palette(m, High(m(base)));
          nibble := SECOND_NIBBLE;
        }
      }
      if bits == 8 {
        color := Palette(m, m(base));
        base := base + 1;
      }
      if bits == 16 {
        color := Spread(m(base), m(base + 1));
        base := base + 2;
      }
      if bits == 24 {
        color := Color(m(base), m(base + 1), m(base + 2), 0);
        base := base + 3;
      }
      if bits == 32 {
        color := Color(m(base), m(base + 1), m(base + 2), 0);
        base := base + 4;
      }
    }

    method PutPixel(color: Color, left: int, bottom: int) returns (log: seq<Dot>)
      ensures log == match Recoloured(mode, selected, substitute, color)
                     case Some(c) => [Dot(c, left, bottom)]
                     case None => []
    {
      log := [];
      if mode == TRANSPARENT {
        if color != selected {
          log := [Dot(color, left, bottom)];
        }
      } else if mode == SUBSTITUTE {
        if color == selected {
          log := [Dot(substitute, left, bottom)];
        }
        if color != selected {
          log := [Dot(color, left, bottom)];
        }
      } else {
        log := [Dot(color, left, bottom)];
      }
    }

    // One row of pixels, left to right.
    method PaintRow(m: Memory, x: nat, ghost job: Job, ghost i: nat, base0: nat, color0: Color, bottom: int)
      returns (base: nat, color: Color, log: seq<Dot>)
      requires job.m == m && job.mode == mode && job.selected == selected && job.substitute == substitute
      requires x == job.x && bottom == job.y + Height(m) - i
      requires base0 == CursorAt(m, job.nibble, i * Width(m)) && nibble == FlagAt(m, job.nibble, i * Width(m))
      requires Plain(m) ==> color0 == BLACK
      modifies this`nibble
      ensures base == CursorAt(m, job.nibble, (i + 1) * Width(m))
      ensures nibble == FlagAt(m, job.nibble, (i + 1) * Width(m))
      ensures Plain(m) ==> color == BLACK
      ensures log == job.RowDots(i, Width(m))
    {
      hide CursorAt, FlagAt, ColorAt, Recoloured, Width, Height, Plain;
      base, color, log := base0, color0, [];
      var left := x;
      for j := 0 to Width(m)
        invariant left == x + j
        invariant base == CursorAt(m, job.nibble, i * Width(m) + j)
        invariant nibble == FlagAt(m, job.nibble, i * Width(m) + j)
        invariant Plain(m) ==> color == BLACK
        invariant log == job.RowDots(i, j)
      {
        base, color := NextColor(m, base, color, job.nibble, i * Width(m) + j);
        var call := PutPixel(color, left, bottom);
        log := log + call;
        left := left + 1;
      }
      NextRow(i, Width(m));
    }

    // All rows, the first on the screen's lowest row.
    method Paint(m: Memory, x: nat, y: nat) returns (log: seq<Dot>)
      modifies this`nibble
      ensures log == Job(m, old(nibble), mode, selected, substitute, x, y).Dots(Height(m))
      ensures nibble == FlagAt(m, old(nibble), PixelCount(m))
    {
      hide CursorAt, FlagAt, Width, Height, Plain;
      ghost var job := Job(m, nibble, mode, selected, substitute, x, y);
      var bottom := y + Height(m);
      var base, color := DataOffset(m), BLACK;
      log := [];
      CursorBegins(m, nibble);
      NoRows(Width(m));
      for i := 0 to Height(m)
        invariant bottom == y + Height(m) - i
        invariant base == CursorAt(m, job.nibble, i * Width(m)) && nibble == FlagAt(m, job.nibble, i * Width(m))
        invariant Plain(m) ==> color == BLACK
        invariant log == job.Dots(i)
      {
        var row;
        base, color, row := PaintRow(m, x, job, i, base, color, bottom);
        log := log + row;
        bottom := bottom - 1;
      }
    }

    /** The whole display call. */
    method Display(file: Option<Memory>, x: nat, y: nat) returns (status: int, log: seq<Dot>)
      modifies this`nibble
      ensures status in {-1, 0, 1} && (status == -1 <==> file.None?)
      ensures status == 0 <==> file.Some? && x <= 800 && y <= 600 && file.value(0) == 66 && file.value(1) == 77
      ensures status != 0 ==> log == [] && nibble == old(nibble)
      ensures status == 0 ==>
                && log == Job(file.value, old(nibble), mode, selected, substitute, x, y).Dots(Height(file.value))
                && nibble == FlagAt(file.value, old(nibble), PixelCount(file.value))
    {
      hide FlagAt, Height, PixelCount;
      if file.None? {
        return -1, [];
      }
      if x > 800 || y > 600 {
        return 1, [];
      }
      var m := file.value;
      if m(0) != 'B' as int || m(1) != 'M' as int {
        return 1, [];
      }
      log := Paint(m, x, y);
      status := 0;
    }
  }

  lemma NextRow(i: nat, w: nat)
    ensures (i + 1) * w == i * w + w
  {
  }

  lemma NoRows(w: nat)
    ensures 0 * w == 0
  {
  }

  // At the start the cursor is on the first byte.
  lemma CursorBegins(m: Memory, nibble: int)
    ensures CursorAt(m, nibble, 0) == DataOffset(m) && FlagAt(m, nibble, 0) == nibble
  {
  }

  // ---------------------------------------------------------------- the picture on the screen

  lemma {:induction false} InRow(job: Job, i: nat, columns: nat, d: Dot)
    ensures d in job.RowDots(i, columns) <==> exists j: nat :: j < columns && d in job.DotAt(i, j)
  {
    hide Recoloured, ColorAt, Width, Height;
    if columns != 0 {
      InRow(job, i, columns - 1, d);
    }
  }

  lemma {:induction false} InDots(job: Job, rows: nat, d: Dot)
    ensures d in job.Dots(rows) <==> exists i: nat :: i < rows && d in job.RowDots(i, Width(job.m))
  {
    hide Recoloured, ColorAt, Width, Height;
    if rows != 0 {
      var last: nat := rows - 1;
      InDots(job, last, d);
      assert job.Dots(rows) == job.Dots(last) + job.RowDots(last, Width(job.m));
      if i: nat :| i < rows && d in job.RowDots(i, Width(job.m)) {
        assert i == last || i < last;
      }
    }
  }

  /** A pixel call is made exactly for the points of the w by h rectangle whose lower left
      corner is (x, y + h), each with the colour of the image's pixel in row y + h - py from
      the start and column px - x, unless the colour mode leaves that pixel alone. */
  lemma ImageOnScreen(job: Job, d: Dot)
    ensures d in job.Dots(Height(job.m)) <==> job.Covers(d.x, d.y) && job.ColourOf(d.x, d.y) == Some(d.color)
  {
    hide Recoloured, ColorAt, Width, Height;
    var w, h := Width(job.m), Height(job.m);
    InDots(job, h, d);
    if d in job.Dots(h) {
      var i: nat :| i < h && d in job.RowDots(i, w);
      InRow(job, i, w, d);
    }
    if job.Covers(d.x, d.y) && job.ColourOf(d.x, d.y) == Some(d.color) {
      var i: nat, j: nat := job.y + h - d.y, d.x - job.x;
      InRow(job, i, w, d);
      assert d in job.DotAt(i, j);
      assert d in job.RowDots(i, w);
    }
  }

  // ---------------------------------------------------------------- the picture from its bytes

  // The i-th colour after the header, four bytes each.
  predicate Entry(m: Memory, i: nat, c: Color) {
    var a := m(10) + 4 * i;
    c.b0 == m(a) && c.b1 == m(a + 1) && c.b2 == m(a + 2) && c.b3 == m(a + 3)
  }

  // Four bits of a byte, its upper or its lower ones, are the number i.
  predicate HalfByte(b: byte, upper: bool, i: nat) {
    i < 16 && if upper then 16 * i <= b < 16 * i + 16 else (b - i) % 16 == 0
  }

  ghost predicate Indexed(m: Memory, b: byte, upper: bool, c: Color) {
    exists i: nat :: HalfByte(b, upper, i) && Entry(m, i, c)
  }

  // Two bytes in the parts of a colour: 5 and 3 bits of the first, 3 and 5 of the second.
  predicate Parts(b0: byte, b1: byte, c: Color) {
    && c.b0 == 0 && c.b1 % 8 == 0 && c.b2 % 32 < 8 && c.b3 < 32
    && c.b1 + c.b2 % 8 == b0 && c.b2 - c.b2 % 8 + c.b3 == b1
  }

  /** The file's bytes give pixel n the colour c; `late` is for a 4-bit image whose first half
      byte is skipped. */
  ghost predicate Decodes(m: Memory, late: bool, n: nat, c: Color) {
    var start, p: nat := m(10), n + if late then 1 else 0;
    match m(28) + 256 * m(29)
    case 4 => Indexed(m, m(start + 64 + p / 2), p % 2 == 0, c)
    case 8 => Entry(m, m(start + 1024 + n), c)
    case 16 => Parts(m(start + 65536 + 2 * n), m(start + 65536 + 2 * n + 1), c)
    case 24 => c == Color(m(start + 3 * n), m(start + 3 * n + 1), m(start + 3 * n + 2), 0)
    case 32 => c == Color(m(start + 4 * n), m(start + 4 * n + 1), m(start + 4 * n + 2), 0)
    case _ => c == Color(0, 0, 0, 0)
  }

  // What the colour mode makes of pixel n.
  ghost predicate Shows(job: Job, late: bool, n: nat, shown: Color) {
    exists c :: Decodes(job.m, late, n, c) &&
                if job.mode == 1000 then c != job.selected && shown == c
                else if job.mode == 2000 then shown == if c == job.selected then job.substitute else c
                else shown == c
  }

  lemma IndexedByHalf(m: Memory, b: byte, upper: bool, c: Color)
    ensures Indexed(m, b, upper, c) <==> Entry(m, if upper then High(b) else Low(b), c)
  {
    hide Entry;
    var half: nat := if upper then High(b) else Low(b);
    forall i: nat ensures HalfByte(b, upper, i) <==> i == half {
      IsHalf(b, upper, i);
    }
    assert HalfByte(b, upper, half);
  }

  lemma IsHalf(b: byte, upper: bool, i: nat)
    ensures HalfByte(b, upper, i) <==> i == if upper then High(b) else Low(b)
  {
  }

  lemma SpreadInParts(b0: byte, b1: byte, c: Color)
    ensures c == Spread(b0, b1) <==> Parts(b0, b1, c)
  {
    var low, high := b0 % 8, b1 - b1 % 32;
    Multiples(b1);
    SumModulo(low, high);
    if Parts(b0, b1, c) {
      MiddlePart(c.b2);
      FirstPart(b0, c.b1, c.b2 % 8);
      LastPart(b1, c.b2 - c.b2 % 8, c.b3);
    }
    Multiples(b0);
  }

  lemma Multiples(b: byte)
    ensures (b - b % 8) % 8 == 0 && (b - b % 32) % 32 == 0 && (b - b % 32) % 8 == 0 && 0 <= b - b % 32 <= 224
  {
  }

  lemma SumModulo(low: nat, high: nat)
    requires low < 8 && high % 32 == 0
    ensures (low + high) % 8 == low && (low + high) % 32 == low
  {
    var q := high / 32;
    assert high == 32 * q;
    assert low + high == 8 * (4 * q) + low;
  }

  lemma MiddlePart(b: byte)
    requires b % 32 < 8
    ensures b % 32 == b % 8 && (b - b % 8) % 32 == 0
  {
  }

  lemma FirstPart(b: byte, high: nat, low: nat)
    requires high % 8 == 0 && low < 8 && high + low == b
    ensures high == b - b % 8 && low == b % 8
  {
  }

  lemma LastPart(b: byte, high: nat, low: nat)
    requires high % 32 == 0 && low < 32 && high + low == b
    ensures high == b - b % 32 && low == b % 32
  {
  }

  lemma HeaderBytes(m: Memory)
    ensures Width(m) == m(18) + 256 * m(19) && Height(m) == m(22) + 256 * m(23)
    ensures BitCount(m) == m(28) + 256 * m(29) && TableOffset(m) == m(10)
  {
    hide Word32, Word16;
    LowWord(m, 18);
    LowWord(m, 22);
    LowWord(m, 28);
    LowByte(m, 10);
  }

  lemma LowWord(m: Memory, a: nat)
    ensures Word32(m, a) % 65536 == Word16(m, a) == m(a) + 256 * m(a + 1)
  {
  }

  lemma LowByte(m: Memory, a: nat)
    ensures Word32(m, a) % 256 == m(a)
  {
    var high := m(a + 1) + 256 * Word16(m, a + 2);
    assert Word32(m, a) == 256 * high + m(a);
  }

  // The bytes give every pixel one colour, the decoder's.
  lemma DecodedColour(m: Memory, nibble: int, n: nat, c: Color)
    ensures Decodes(m, nibble == 2222, n, c) <==> c == ColorAt(m, nibble, n)
  {
    hide Width, Height, TableOffset, BitCount, Spread, High, Low, Indexed, Parts;
    HeaderBytes(m);
    if BitCount(m) == 4 {
      var p := n + Skew(nibble);
      IndexedByHalf(m, m(m(10) + 64 + p / 2), p % 2 == 0, c);
    } else if BitCount(m) == 16 {
      SpreadInParts(m(m(10) + 65536 + 2 * n), m(m(10) + 65536 + 2 * n + 1), c);
    }
  }

  lemma ShownColour(job: Job, n: nat, shown: Color)
    ensures Shows(job, job.nibble == 2222, n, shown) <==>
            Recoloured(job.mode, job.selected, job.substitute, ColorAt(job.m, job.nibble, n)) == Some(shown)
  {
    hide ColorAt, Decodes;
    var late := job.nibble == 2222;
    forall c ensures Decodes(job.m, late, n, c) <==> c == ColorAt(job.m, job.nibble, n) {
      DecodedColour(job.m, job.nibble, n, c);
    }
    assert Decodes(job.m, late, n, ColorAt(job.m, job.nibble, n));
  }

  /** The pixel calls of an image, from its bytes alone: a call is made exactly for the points
      of the w by h rectangle above (x, y + h), with the colour the bytes give, left out when
      transparent and replaced when substituted. */
  lemma ImageFromBytes(job: Job, d: Dot)
    ensures var w, h := job.m(18) + 256 * job.m(19), job.m(22) + 256 * job.m(23);
            d in job.Dots(Height(job.m)) <==>
            && job.x <= d.x < job.x + w && job.y < d.y <= job.y + h
            && Shows(job, job.nibble == 2222, (job.y + h - d.y) * w + (d.x - job.x), d.color)
  {
    hide Width, Height, ColorAt, Shows, Recoloured, Job.Dots;
    HeaderBytes(job.m);
    ImageOnScreen(job, d);
    if job.Covers(d.x, d.y) {
      ShownColour(job, (job.y + Height(job.m) - d.y) * Width(job.m) + (d.x - job.x), d.color);
    }
  }

  // Reading order on the screen: upwards by rows, left to right within one.
  predicate Before(d: Dot, d': Dot) {
    d'.y < d.y || (d'.y == d.y && d.x < d'.x)
  }

  ghost predicate Ordered(log: seq<Dot>) {
    forall k, l :: 0 <= k < l < |log| ==> Before(log[k], log[l])
  }

  lemma {:induction false} RowOrdered(job: Job, i: nat, columns: nat)
    ensures Ordered(job.RowDots(i, columns))
  {
    hide Recoloured, ColorAt, Width, Height;
    if columns != 0 {
      RowOrdered(job, i, columns - 1);
      forall d | d in job.RowDots(i, columns - 1)
        ensures d.x < job.x + columns - 1 && d.y == job.y + Height(job.m) - i
      {
        InRow(job, i, columns - 1, d);
      }
    }
  }

  /** The calls go strictly upwards and rightwards, so no target is addressed twice. */
  lemma {:induction false} ImageOrdered(job: Job, rows: nat)
    ensures Ordered(job.Dots(rows))
  {
    hide Recoloured, ColorAt, Width, Height, Ordered;
    if rows == 0 {
      assert Ordered([]) by { OrderedEmpty(); }
    } else {
      ImageOrdered(job, rows - 1);
      RowOrdered(job, rows - 1, Width(job.m));
      RowsApart(job, rows - 1);
      OrderedBoth(job.Dots(rows - 1), job.RowDots(rows - 1, Width(job.m)));
    }
  }

  lemma OrderedEmpty()
    ensures Ordered([])
  {
  }

  lemma RowsApart(job: Job, i: nat)
    ensures forall d, d' :: d in job.Dots(i) && d' in job.RowDots(i, Width(job.m)) ==> Before(d, d')
  {
    hide Recoloured, ColorAt, Width, Height;
    forall d, d' | d in job.Dots(i) && d' in job.RowDots(i, Width(job.m)) ensures Before(d, d') {
      InDots(job, i, d);
      var k: nat :| k < i && d in job.RowDots(k, Width(job.m));
      InRow(job, k, Width(job.m), d);
      InRow(job, i, Width(job.m), d');
    }
  }

  lemma OrderedBoth(s: seq<Dot>, t: seq<Dot>)
    requires Ordered(s) && Ordered(t) && forall d, d' :: d in s && d' in t ==> Before(d, d')
    ensures Ordered(s + t)
  {
  }

  // ---------------------------------------------------------------- the flag between calls

  // Pixels of the 4-bit images among those displayed.
  function NibblesShown(images: seq<Memory>): nat {
    if images == [] then 0
    else
      var m := images[|images| - 1];
      NibblesShown(images[..|images| - 1]) + if BitCount(m) == 4 then PixelCount(m) else 0
  }

  // The flag after displaying the images one after the other.
  function FlagAfter(nibble: int, images: seq<Memory>): int {
    if images == [] then nibble
    else
      var m := images[|images| - 1];
      FlagAt(m, FlagAfter(nibble, images[..|images| - 1]), PixelCount(m))
  }

  /** Over any run of images the flag carries the parity of all 4-bit pixels shown. */
  lemma {:induction false} FlagCarriesParity(nibble: int, images: seq<Memory>)
    ensures Skew(FlagAfter(nibble, images)) == (Skew(nibble) + NibblesShown(images)) % 2
  {
    hide PixelCount, BitCount;
    if images != [] {
      FlagCarriesParity(nibble, images[..|images| - 1]);
    }
  }

  /** So after a run of images a 4-bit one is decoded straight, pixel n from half n % 2 of byte
      n / 2, exactly when that number, plus the skew at the start, is even. Otherwise each of
      its pixels is given the place of the next one. */
  lemma StraightIffEven(nibble: int, images: seq<Memory>, m: Memory, n: nat)
    ensures var even := (Skew(nibble) + NibblesShown(images)) % 2 == 0;
            var place := NibbleAt(m, FlagAfter(nibble, images), n);
            && (place == (DataOffset(m) + n / 2, n % 2 == 0) <==> even)
            && (place == NibbleAt(m, 0, n + 1) <==> !even)
  {
    hide DataOffset, FlagAfter, NibblesShown;
    FlagCarriesParity(nibble, images);
  }
}
