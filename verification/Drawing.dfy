/**
 What a drawing operation does to a framebuffer, stated once: a picture says which positions take
 which colour, and `Drawn` is the buffer afterwards, byte for byte.

 A position (px, py) stands for pixel number py * width + px. Columns past the width are positions
 too: they lead to a pixel of a later line. All drawing goes column by column from the left, so a
 pixel keeps the colour of the last column that leads to it.
 */
module Drawing {
  import opened Machine
  import opened Bits
  import opened Bmp

  const BYTES_PER_PIXEL := 4

  /** The colour given to the position in column px of line py, if any. */
  type Picture = (nat, nat) -> Option<Color>

  /** Bytes 0, 1, 2 of a pixel hold blue, green and red. */
  function Channel(c: Color, k: nat): uint8
    requires k < 3
  {
    if k == 0 then c.b else if k == 1 then c.g else c.r
  }

  /** What column px gives to pixel n. */
  function Through(p: Picture, width: nat, n: nat, px: nat): Option<Color> {
    if width > 0 && px <= n && (n - px) % width == 0 then p(px, (n - px) / width) else None
  }

  /** What the last of the columns below `columns` that draws pixel n gives to it. */
  function Painted(p: Picture, width: nat, n: nat, columns: nat): Option<Color> {
    if columns == 0 then None
    else if Through(p, width, n, columns - 1).Some? then Through(p, width, n, columns - 1)
    else Painted(p, width, n, columns - 1)
  }

  /** The colour of pixel n in the picture, if it is drawn. */
  function ColourOf(p: Picture, width: nat, n: nat): Option<Color> {
    Painted(p, width, n, n + 1)
  }

  function DrawnByte(before: uint8, n: nat, width: nat, p: Picture): uint8 {
    match ColourOf(p, width, n / BYTES_PER_PIXEL)
    case None => before
    case Some(c) => if n % BYTES_PER_PIXEL < 3 then Channel(c, n % BYTES_PER_PIXEL) else before
  }

  /** The buffer after drawing: three bytes of every pixel drawn, nothing else. */
  ghost function Drawn(before: seq<uint8>, width: nat, p: Picture): seq<uint8> {
    seq(|before|, n requires 0 <= n < |before| => DrawnByte(before[n], n, width, p))
  }

  const BLANK: Picture := (px: nat, py: nat) => None

  function Dot(x: nat, y: nat, c: Color): Picture {
    (px: nat, py: nat) => if px == x && py == y then Some(c) else None
  }

  // ----- pixels and columns

  /** Column px of line py leads to pixel n. */
  lemma LeadsTo(width: nat, n: nat, px: nat, py: nat)
    requires width > 0 && px <= n
    ensures n == py * width + px <==> (n - px) % width == 0 && (n - px) / width == py
  {
    QuotientAndRemainder(py, 0, width);
  }

  lemma {:induction false} SameColumnsSameColour(p: Picture, q: Picture, width: nat, n: nat, columns: nat)
    requires forall px: nat :: px < columns ==> Through(p, width, n, px) == Through(q, width, n, px)
    ensures Painted(p, width, n, columns) == Painted(q, width, n, columns)
  {
    if columns > 0 { SameColumnsSameColour(p, q, width, n, columns - 1); }
  }

  lemma {:induction false} NoColumnNoColour(p: Picture, width: nat, n: nat, columns: nat)
    requires forall px: nat :: px < columns ==> Through(p, width, n, px) == None
    ensures Painted(p, width, n, columns) == None
  {
    if columns > 0 { NoColumnNoColour(p, width, n, columns - 1); }
  }

  /** A column that draws the pixel, with none above it that does. */
  lemma {:induction false} LastColumnWins(p: Picture, width: nat, n: nat, columns: nat, x: nat)
    requires x < columns && Through(p, width, n, x).Some?
    requires forall px: nat :: x < px < columns ==> Through(p, width, n, px) == None
    ensures Painted(p, width, n, columns) == Through(p, width, n, x)
  {
    if x < columns - 1 { LastColumnWins(p, width, n, columns - 1, x); }
  }

  lemma SameColoursSameBytes(before: seq<uint8>, width: nat, p: Picture, q: Picture)
    requires forall n: nat :: ColourOf(p, width, n) == ColourOf(q, width, n)
    ensures Drawn(before, width, p) == Drawn(before, width, q)
  {}

  lemma SamePictureSameBytes(before: seq<uint8>, width: nat, p: Picture, q: Picture)
    requires forall px: nat, py: nat :: p(px, py) == q(px, py)
    ensures Drawn(before, width, p) == Drawn(before, width, q)
  {
    forall n: nat
      ensures ColourOf(p, width, n) == ColourOf(q, width, n)
    {
      SameColumnsSameColour(p, q, width, n, n + 1);
    }
    SameColoursSameBytes(before, width, p, q);
  }

  lemma BlankDrawsNothing(before: seq<uint8>, width: nat)
    ensures Drawn(before, width, BLANK) == before
  {
    forall n: nat
      ensures ColourOf(BLANK, width, n) == None
    {
      NoColumnNoColour(BLANK, width, n, n + 1);
    }
  }

  /** Drawing p and then q is drawing r, when r shows q's colour wherever q draws and p's elsewhere. */
  lemma DrawnNext(before: seq<uint8>, width: nat, p: Picture, q: Picture, r: Picture)
    requires forall n: nat :: ColourOf(r, width, n) ==
                              if ColourOf(q, width, n).Some? then ColourOf(q, width, n) else ColourOf(p, width, n)
    ensures Drawn(Drawn(before, width, p), width, q) == Drawn(before, width, r)
  {}

  // ----- pictures side by side

  /** Nothing is drawn outside columns [x1, x2) and lines [y1, y2). */
  ghost predicate Within(p: Picture, x1: nat, y1: nat, x2: nat, y2: nat) {
    forall px: nat, py: nat :: p(px, py).Some? ==> x1 <= px < x2 && y1 <= py < y2
  }

  /** The picture p left of column x, q from there on. */
  function Beside(p: Picture, q: Picture, x: nat): Picture {
    (px: nat, py: nat) => if px < x then p(px, py) else q(px, py)
  }

  lemma {:induction false} ColourBeside(p: Picture, q: Picture, x: nat, width: nat, n: nat, columns: nat)
    requires forall px: nat, py: nat :: p(px, py).Some? ==> px < x
    requires forall px: nat, py: nat :: q(px, py).Some? ==> x <= px
    ensures Painted(Beside(p, q, x), width, n, columns) ==
              if Painted(q, width, n, columns).Some? then Painted(q, width, n, columns)
              else Painted(p, width, n, columns)
  {
    if columns > 0 {
      ColourBeside(p, q, x, width, n, columns - 1);
      if columns <= x { NoColumnNoColour(q, width, n, columns); }
    }
  }

  lemma DrawnBeside(before: seq<uint8>, width: nat, p: Picture, q: Picture, r: Picture, x: nat)
    requires forall px: nat, py: nat :: p(px, py).Some? ==> px < x
    requires forall px: nat, py: nat :: q(px, py).Some? ==> x <= px
    requires forall px: nat, py: nat :: r(px, py) == Beside(p, q, x)(px, py)
    ensures Drawn(Drawn(before, width, p), width, q) == Drawn(before, width, r)
  {
    forall n: nat
      ensures ColourOf(Beside(p, q, x), width, n) ==
                if ColourOf(q, width, n).Some? then ColourOf(q, width, n) else ColourOf(p, width, n)
    {
      ColourBeside(p, q, x, width, n, n + 1);
    }
    DrawnNext(before, width, p, q, Beside(p, q, x));
    SamePictureSameBytes(before, width, r, Beside(p, q, x));
  }

  // ----- sweeping over a box column by column

  /** The part of the picture left of column i, and in column i above line j. */
  function Swept(p: Picture, i: nat, j: nat): Picture {
    (px: nat, py: nat) => if px < i || (px == i && py < j) then p(px, py) else None
  }

  lemma SweepStarts(before: seq<uint8>, width: nat, p: Picture, x1: nat, y1: nat, x2: nat, y2: nat)
    requires Within(p, x1, y1, x2, y2)
    ensures Drawn(before, width, Swept(p, x1, y1)) == before
  {
    SamePictureSameBytes(before, width, Swept(p, x1, y1), BLANK);
    BlankDrawsNothing(before, width);
  }

  lemma SweepDrawsPixel(before: seq<uint8>, width: nat, p: Picture, i: nat, j: nat, c: Color)
    requires width > 0 && p(i, j) == Some(c)
    ensures Drawn(Drawn(before, width, Swept(p, i, j)), width, Dot(i, j, c)) == Drawn(before, width, Swept(p, i, j + 1))
  {
    forall n: nat
      ensures ColourOf(Swept(p, i, j + 1), width, n) ==
                if ColourOf(Dot(i, j, c), width, n).Some? then ColourOf(Dot(i, j, c), width, n)
                else ColourOf(Swept(p, i, j), width, n)
    {
      ColourOfDot(width, i, j, c, n);
      if n == j * width + i {
        SweptAtDot(width, p, i, j, n);
      } else {
        SweptElsewhere(width, p, i, j, n);
      }
    }
    DrawnNext(before, width, Swept(p, i, j), Dot(i, j, c), Swept(p, i, j + 1));
  }

  lemma ColourOfDot(width: nat, i: nat, j: nat, c: Color, n: nat)
    requires width > 0
    ensures ColourOf(Dot(i, j, c), width, n) == if n == j * width + i then Some(c) else None
  {
    if i <= n { LeadsTo(width, n, i, j); }
    if n == j * width + i {
      LastColumnWins(Dot(i, j, c), width, n, n + 1, i);
    } else {
      NoColumnNoColour(Dot(i, j, c), width, n, n + 1);
    }
  }

  lemma SweptAtDot(width: nat, p: Picture, i: nat, j: nat, n: nat)
    requires width > 0 && p(i, j).Some? && n == j * width + i
    ensures ColourOf(Swept(p, i, j + 1), width, n) == p(i, j)
  {
    LeadsTo(width, n, i, j);
    LastColumnWins(Swept(p, i, j + 1), width, n, n + 1, i);
  }

  lemma SweptElsewhere(width: nat, p: Picture, i: nat, j: nat, n: nat)
    requires width > 0 && n != j * width + i
    ensures ColourOf(Swept(p, i, j + 1), width, n) == ColourOf(Swept(p, i, j), width, n)
  {
    if i <= n { LeadsTo(width, n, i, j); }
    SameColumnsSameColour(Swept(p, i, j + 1), Swept(p, i, j), width, n, n + 1);
  }

  lemma SweepSkipsPixel(before: seq<uint8>, width: nat, p: Picture, i: nat, j: nat)
    requires p(i, j) == None
    ensures Drawn(before, width, Swept(p, i, j)) == Drawn(before, width, Swept(p, i, j + 1))
  {
    SamePictureSameBytes(before, width, Swept(p, i, j), Swept(p, i, j + 1));
  }

  lemma SweepTurns(before: seq<uint8>, width: nat, p: Picture, x1: nat, y1: nat, x2: nat, y2: nat, i: nat, j: nat)
    requires Within(p, x1, y1, x2, y2) && y2 <= j
    ensures Drawn(before, width, Swept(p, i, j)) == Drawn(before, width, Swept(p, i + 1, y1))
  {
    SamePictureSameBytes(before, width, Swept(p, i, j), Swept(p, i + 1, y1));
  }

  lemma SweepEnds(before: seq<uint8>, width: nat, p: Picture, x1: nat, y1: nat, x2: nat, y2: nat, i: nat, j: nat)
    requires Within(p, x1, y1, x2, y2) && x2 <= i
    ensures Drawn(before, width, Swept(p, i, j)) == Drawn(before, width, p)
  {
    SamePictureSameBytes(before, width, Swept(p, i, j), p);
  }

  // ----- pixels in memory

  /** Writing the three bytes at a position's pixel draws that position. */
  lemma ThreeBytesAreADot(before: seq<uint8>, after: seq<uint8>, width: nat, x: nat, y: nat, c: Color)
    requires width > 0 && |after| == |before|
    requires var dst := BYTES_PER_PIXEL * (y * width + x);
             dst + 2 < |before| && after == before[dst := c.b][dst + 1 := c.g][dst + 2 := c.r]
    ensures after == Drawn(before, width, Dot(x, y, c))
  {
    forall n | 0 <= n < |before|
      ensures after[n] == DrawnByte(before[n], n, width, Dot(x, y, c))
    {
      ColourOfDot(width, x, y, c, n / BYTES_PER_PIXEL);
      assert n == BYTES_PER_PIXEL * (n / BYTES_PER_PIXEL) + n % BYTES_PER_PIXEL;
    }
  }

  /** The three bytes from `at` on are blue, green and red; every other byte is as it was. */
  ghost predicate PixelWritten(before: seq<uint8>, after: seq<uint8>, at: nat, c: Color) {
    && |after| == |before|
    && forall n :: 0 <= n < |after| ==>
         after[n] == if n == at then c.b else if n == at + 1 then c.g else if n == at + 2 then c.r else before[n]
  }

  // ----- pictures that stay on the screen

  /** When nothing is drawn past the width, a pixel has the colour of its own column and line. */
  lemma OwnColumnOnly(p: Picture, width: nat, px: nat, py: nat)
    requires px < width && forall qx: nat, qy: nat :: p(qx, qy).Some? ==> qx < width
    ensures ColourOf(p, width, py * width + px) == p(px, py)
  {
    var n := py * width + px;
    LeadsTo(width, n, px, py);
    forall qx: nat | qx < n + 1 && qx != px
      ensures Through(p, width, n, qx) == None
    {
      if qx < width && (n - qx) % width == 0 {
        DivisionIsUnique(py, px, (n - qx) / width, qx, width);
      }
    }
    if p(px, py).Some? {
      LastColumnWins(p, width, n, n + 1, px);
    } else {
      NoColumnNoColour(p, width, n, n + 1);
    }
  }

  /** Byte k of pixel (px, py) after drawing a picture that stays on the screen. */
  lemma ByteOfPixel(before: seq<uint8>, width: nat, p: Picture, px: nat, py: nat, k: nat)
    requires px < width && k < BYTES_PER_PIXEL && forall qx: nat, qy: nat :: p(qx, qy).Some? ==> qx < width
    requires BYTES_PER_PIXEL * (py * width + px) + k < |before|
    ensures var n := BYTES_PER_PIXEL * (py * width + px) + k;
            Drawn(before, width, p)[n] ==
              match p(px, py)
              case None => before[n]
              case Some(c) => if k < 3 then Channel(c, k) else before[n]
  {
    OwnColumnOnly(p, width, px, py);
  }
}
