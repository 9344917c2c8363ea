/** Screens and what they draw (kernel/screen.cpp). */
module Screens {
  import opened Machine
  import opened Font
  import opened Bmp
  import opened Drawing

  // ----- pictures of the drawing operations

  /** A filled rectangle, both corners included. */
  function Rectangle(x1: nat, y1: nat, x2: nat, y2: nat, c: Color): Picture {
    (px: nat, py: nat) => if x1 <= px <= x2 && y1 <= py <= y2 then Some(c) else None
  }

  /** One character cell with its top left corner at (x, y). */
  function Character(glyph: MonoAsciiFont, x: nat, y: nat, c: Color): Picture
    requires |glyph.row| == ROW_NUM
  {
    (px: nat, py: nat) =>
      if x <= px < x + COLUMNS && y <= py < y + ROW_NUM && glyph.IsDraw(px - x, py - y) then Some(c) else None
  }

  /** A C string without its terminator, all of 7-bit characters. */
  predicate IsAscii(line: string) {
    forall k :: 0 <= k < |line| ==> 0 < line[k] as int < 128
  }

  /** A line of text from (x, y): cell k = (px - x) / 8 shows character k. */
  function Text(font: AsciiFont, line: string, x: nat, y: nat, c: Color): Picture
    requires font.Valid() && IsAscii(line)
  {
    (px: nat, py: nat) =>
      if && x <= px < x + COLUMNS * |line| && y <= py < y + ROW_NUM
         && font.GetFont(line[(px - x) / COLUMNS] as int).IsDraw((px - x) % COLUMNS, py - y)
      then Some(c) else None
  }

  /** The image with its top left corner at (x, y), as getColor reads it. */
  function Image(bmp: BitMapImage, x: nat, y: nat): Picture
    requires Showable(bmp)
  {
    (px: nat, py: nat) =>
      if x <= px < x + bmp.width && y <= py < y + bmp.height then Some(ImageColor(bmp, px - x, py - y)) else None
  }

  /** Pixel numbers fit an int, and every colour that getColor reads lies in the file. */
  ghost predicate Showable(bmp: BitMapImage) {
    bmp.Plain() && bmp.AllReadsInFile()
  }

  function ImageColor(bmp: BitMapImage, i: nat, j: nat): Color
    requires Showable(bmp) && i < bmp.width && j < bmp.height
  {
    assert bmp.InImage(i, j);
    bmp.GetColor(i, j)
  }

  lemma ImageIsWithin(bmp: BitMapImage, x: nat, y: nat)
    requires Showable(bmp)
    ensures Within(Image(bmp, x, y), x, y, x + bmp.width, y + bmp.height)
  {}

  lemma ImagePixelDrawn(before: seq<uint8>, width: nat, bmp: BitMapImage, x: nat, y: nat, i: nat, j: nat)
    requires width > 0 && Showable(bmp) && i < bmp.width && j < bmp.height
    ensures var p := Image(bmp, x, y);
            Drawn(Drawn(before, width, Swept(p, x + i, y + j)), width, Dot(x + i, y + j, ImageColor(bmp, i, j)))
            == Drawn(before, width, Swept(p, x + i, y + j + 1))
  {
    SweepDrawsPixel(before, width, Image(bmp, x, y), x + i, y + j, ImageColor(bmp, i, j));
  }

  lemma CharacterIsWithin(glyph: MonoAsciiFont, x: nat, y: nat, c: Color)
    requires |glyph.row| == ROW_NUM
    ensures Within(Character(glyph, x, y, c), x, y, x + COLUMNS, y + ROW_NUM)
  {}

  /** A text and the next character's cell beside it make the longer text. */
  lemma NextCharacterDrawn(before: seq<uint8>, width: nat, font: AsciiFont, line: string, i: nat, x: nat, y: nat,
                           c: Color)
    requires font.Valid() && IsAscii(line) && i < |line|
    ensures IsAscii(line[..i]) && IsAscii(line[..i + 1])
    ensures Drawn(Drawn(before, width, Text(font, line[..i], x, y, c)), width,
                  Character(font.GetFont(line[i] as int), x + i * COLUMNS, y, c))
            == Drawn(before, width, Text(font, line[..i + 1], x, y, c))
  {
    var cell := x + i * COLUMNS;
    var p, q := Text(font, line[..i], x, y, c), Character(font.GetFont(line[i] as int), cell, y, c);
    DrawnBeside(before, width, p, q, Text(font, line[..i + 1], x, y, c), cell);
  }

  lemma NoTextDrawsNothing(before: seq<uint8>, width: nat, font: AsciiFont, x: nat, y: nat, c: Color)
    requires font.Valid()
    ensures Drawn(before, width, Text(font, [], x, y, c)) == before
  {
    SamePictureSameBytes(before, width, Text(font, [], x, y, c), BLANK);
    BlankDrawsNothing(before, width);
  }

  // ----- what is seen on the screen

  /** The pixel (px, py) lies in the line of text and the text font has '@' there. */
  ghost predicate Inked(glyphs: seq<Glyph>, line: string, x: nat, y: nat, px: nat, py: nat)
    requires |glyphs| == GLYPHS_IN_FILE && IsAscii(line)
  {
    && x <= px < x + 8 * |line| && y <= py < y + 16
    && glyphs[line[(px - x) / 8] as int][py - y][(px - x) % 8] == '@'
  }

  /**
   From the text font to the framebuffer: with the font packed from `glyphs`, printing a line gives
   a pixel its colour exactly where the text has '@', and leaves every other byte alone.
   */
  lemma PrintedLineShowsTextFont(before: seq<uint8>, width: nat, glyphs: seq<Glyph>, font: AsciiFont,
                                 line: string, x: nat, y: nat, c: Color, px: nat, py: nat, k: nat)
    requires |glyphs| == GLYPHS_IN_FILE && font.Valid() && font.Shows(glyphs) && IsAscii(line)
    requires x + 8 * |line| <= width && px < width && k < 4
    requires 4 * (py * width + px) + k < |before|
    ensures var n := 4 * (py * width + px) + k;
            Drawn(before, width, Text(font, line, x, y, c))[n] ==
              if k < 3 && Inked(glyphs, line, x, y, px, py) then Channel(c, k) else before[n]
  {
    ByteOfPixel(before, width, Text(font, line, x, y, c), px, py, k);
    if x <= px < x + COLUMNS * |line| && y <= py < y + ROW_NUM {
      var code := line[(px - x) / COLUMNS] as int;
      assert font.GetFont(code).IsDraw((px - x) % COLUMNS, py - y)
             <==> glyphs[code][py - y][(px - x) % COLUMNS] == '@';
    }
  }

  // ----- an image as its file stores it

  /** A true-colour file stored from the bottom, its rows unpadded or only one, all of them present. */
  predicate Upright(file: seq<uint8>) {
    && |file| >= SIZE_OF_HEADERS
    && TrueColour(BitCount(file))
    && Width(file) < TWO_TO_31 && StoredHeight(file) >= 0
    && PixelBytes(BitCount(file), Width(file) * Height(file) + 2) < TWO_TO_31
    && (Height(file) <= 1 || Width(file) * (BitCount(file) / 8) % 4 == 0)
    && PixelsAt(file) + PixelBytes(BitCount(file), Width(file) * Height(file)) <= |file|
  }

  /** Where the file holds the pixel in column i of line j from the top: rows are stored upwards. */
  function StoredAt(file: seq<uint8>, i: nat, j: nat): int
    requires |file| >= SIZE_OF_HEADERS
  {
    PixelsAt(file) + StoredOffset(BitCount(file), Width(file), StoredRow(Height(file), false, j), i)
  }

  /** The picture in the file: blue, green, red at the place of each pixel. */
  function StoredPicture(file: seq<uint8>, x: nat, y: nat): Picture
    requires |file| >= SIZE_OF_HEADERS
  {
    (px: nat, py: nat) =>
      if InPicture(file, x, y, px, py) then StoredColor(file, StoredAt(file, px - x, py - y)) else None
  }

  /** The position lies in the picture of the file shown at (x, y). */
  predicate InPicture(file: seq<uint8>, x: nat, y: nat, px: nat, py: nat)
    requires |file| >= SIZE_OF_HEADERS
  {
    x <= px < x + Width(file) && y <= py < y + Height(file)
  }

  predicate IsByteAt(file: seq<uint8>, at: int, b: uint8) {
    0 <= at < |file| && b == file[at]
  }

  function StoredColor(file: seq<uint8>, at: int): Option<Color> {
    if 0 <= at && at + 2 < |file| then Some(Color(file[at + 2], file[at + 1], file[at])) else None
  }

  lemma StoredInFile(file: seq<uint8>, i: nat, j: nat)
    requires Upright(file) && i < Width(file) && j < Height(file)
    ensures 0 <= StoredAt(file, i, j) && StoredAt(file, i, j) + 2 < |file|
  {
    UnpaddedPixelsAreInside(BitCount(file), Width(file), Height(file), false, i, j);
  }

  /** Where the picture in an upright file is drawn, the bytes of its pixels appear. */
  lemma FileByteDrawn(before: seq<uint8>, width: nat, file: seq<uint8>, x: nat, y: nat, px: nat, py: nat, k: nat)
    requires Upright(file) && x + Width(file) <= width && px < width && k < 4
    requires 4 * (py * width + px) + k < |before|
    ensures var n := 4 * (py * width + px) + k;
            var now := Drawn(before, width, StoredPicture(file, x, y))[n];
            if k < 3 && InPicture(file, x, y, px, py) then IsByteAt(file, StoredAt(file, px - x, py - y) + k, now)
            else now == before[n]
  {
    ByteOfPixel(before, width, StoredPicture(file, x, y), px, py, k);
    if InPicture(file, x, y, px, py) {
      StoredInFile(file, px - x, py - y);
    }
  }

  /** For an upright file, what getColor reads is the picture in the file. */
  lemma ImageIsStoredPicture(file: seq<uint8>, bmp: BitMapImage, x: nat, y: nat)
    requires Upright(file) && bmp.IsOf(file)
    ensures Showable(bmp)
    ensures forall px: nat, py: nat :: Image(bmp, x, y)(px, py) == StoredPicture(file, x, y)(px, py)
  {
    UprightIsShowable(file, bmp);
    forall px: nat, py: nat
      ensures Image(bmp, x, y)(px, py) == StoredPicture(file, x, y)(px, py)
    {
      if InPicture(file, x, y, px, py) {
        PixelIsStored(file, bmp, px - x, py - y);
      }
      PositionIsStored(file, bmp, x, y, px, py);
    }
  }

  lemma PositionIsStored(file: seq<uint8>, bmp: BitMapImage, x: nat, y: nat, px: nat, py: nat)
    requires |file| >= SIZE_OF_HEADERS && bmp.IsOf(file) && Showable(bmp)
    requires InPicture(file, x, y, px, py) ==>
               StoredColor(file, StoredAt(file, px - x, py - y)) == Some(ImageColor(bmp, px - x, py - y))
    ensures Image(bmp, x, y)(px, py) == StoredPicture(file, x, y)(px, py)
  {}

  lemma UprightIsShowable(file: seq<uint8>, bmp: BitMapImage)
    requires Upright(file) && bmp.IsOf(file)
    ensures Showable(bmp)
  {
    UprightIsPlain(file, bmp);
    if bmp.width > 0 && bmp.height > 0 {
      bmp.AllReadsInFileIff();
    }
  }

  lemma UprightIsPlain(file: seq<uint8>, bmp: BitMapImage)
    requires Upright(file) && bmp.IsOf(file)
    ensures bmp.Plain() && !bmp.isAscend
    ensures bmp.image + PixelBytes(bmp.bitCount, bmp.width * bmp.height) <= |bmp.file|
  {}

  lemma PixelIsStored(file: seq<uint8>, bmp: BitMapImage, i: nat, j: nat)
    requires Upright(file) && bmp.IsOf(file) && Showable(bmp) && i < bmp.width && j < bmp.height
    ensures StoredColor(file, StoredAt(file, i, j)) == Some(ImageColor(bmp, i, j))
  {
    bmp.ReadsTheFormatIff();
    assert bmp.InImage(i, j);
    assert bmp.ByteIndex(i, j) == bmp.FormatIndex(i, j);
    assert bmp.ReadsInFile(i, j);
  }

  class Screen {
    const fb: array<uint8>
    const xAxis: uint32
    const yAxis: uint32
    var next: Screen?

    constructor (fb: array<uint8>, xAxis: uint32, yAxis: uint32)
      ensures this.fb == fb && this.xAxis == xAxis && this.yAxis == yAxis && next == null
    {
      this.fb, this.xAxis, this.yAxis := fb, xAxis, yAxis;
      next := null;
    }

    /** Position (x, y), on the screen or past its edge, leads into the buffer; no index wraps. */
    predicate InBuffer(x: nat, y: nat) {
      && xAxis > 0
      && y * xAxis + x < TWO_TO_32
      && 4 * (y * xAxis + x) + 4 <= fb.Length
    }

    /** What lies above and to the left of a position in the buffer is in the buffer. */
    lemma BufferReachesBack(x: nat, y: nat, x': nat, y': nat)
      requires InBuffer(x', y') && x <= x' && y <= y'
      ensures InBuffer(x, y)
    {
      assert y' * xAxis == y * xAxis + (y' - y) * xAxis;
      NatProduct(y' - y, xAxis);
    }

    /** A line in the buffer has a number that fits. */
    lemma LineFits(x: nat, y: nat)
      requires InBuffer(x, y)
      ensures y < TWO_TO_32 && x < TWO_TO_32
    {
      NatProduct(y, xAxis - 1);
      NatProduct(y, xAxis);
    }

    /** The buffer holds the whole screen, whose pixels have 32-bit numbers. */
    predicate CoversScreen() {
      xAxis * yAxis <= 0x1_0000_0000 && 4 * (xAxis * yAxis) <= fb.Length
    }

    /** With a buffer for the whole screen, every pixel of the screen is in it. */
    lemma OnScreenIsInBuffer(x: nat, y: nat)
      requires CoversScreen() && x < xAxis && y < yAxis
      ensures InBuffer(x, y)
    {
      InRows(y, yAxis, xAxis, x);
    }

    /** Where byte k of the pixel (px, py) of the screen is. */
    function ByteOf(px: nat, py: nat, k: nat): nat {
      4 * (py * xAxis + px) + k
    }

    /** A square on the screen can be written, and gives its colour to the pixels between its corners
        and to no other; fourth bytes stay. */
    lemma SquareOnScreen(before: seq<uint8>, x1: nat, y1: nat, x2: nat, y2: nat, c: Color, px: nat, py: nat, k: nat)
      requires CoversScreen() && |before| == fb.Length && x2 < xAxis && y2 < yAxis
      requires px < xAxis && py < yAxis && k < 4
      ensures InBuffer(x2, y2) && ByteOf(px, py, k) < |before|
      ensures Drawn(before, xAxis, Rectangle(x1, y1, x2, y2, c))[ByteOf(px, py, k)] ==
                if k < 3 && x1 <= px <= x2 && y1 <= py <= y2 then Channel(c, k) else before[ByteOf(px, py, k)]
    {
      OnScreenIsInBuffer(x2, y2);
      OnScreenIsInBuffer(px, py);
      ByteOfPixel(before, xAxis, Rectangle(x1, y1, x2, y2, c), px, py, k);
    }

    /** An upright file that fits the screen at (x, y) can be shown there, and its bytes appear:
        byte k of a pixel of the image is byte k of that pixel in the file, and no other byte changes. */
    lemma FileOnScreen(before: seq<uint8>, file: seq<uint8>, x: nat, y: nat, px: nat, py: nat, k: nat)
      requires CoversScreen() && |before| == fb.Length && Upright(file)
      requires x + Width(file) <= xAxis && y + Height(file) <= yAxis
      requires px < xAxis && py < yAxis && k < 4
      ensures Width(file) > 0 && Height(file) > 0 ==> InBuffer(x + Width(file) - 1, y + Height(file) - 1)
      ensures ByteOf(px, py, k) < |before|
      ensures var now := Drawn(before, xAxis, StoredPicture(file, x, y))[ByteOf(px, py, k)];
              if k < 3 && InPicture(file, x, y, px, py)
              then IsByteAt(file, StoredAt(file, px - x, py - y) + k, now)
              else now == before[ByteOf(px, py, k)]
    {
      OnScreenIsInBuffer(px, py);
      if Width(file) > 0 && Height(file) > 0 {
        OnScreenIsInBuffer(x + Width(file) - 1, y + Height(file) - 1);
      }
      FileByteDrawn(before, xAxis, file, x, y, px, py, k);
    }

    /** The same for a line of text on the screen, in the font packed from `glyphs`. */
    lemma LineOnScreen(before: seq<uint8>, glyphs: seq<Glyph>, font: AsciiFont, line: string, x: nat, y: nat,
                       c: Color, px: nat, py: nat, k: nat)
      requires CoversScreen() && |before| == fb.Length
      requires |glyphs| == GLYPHS_IN_FILE && font.Valid() && font.Shows(glyphs) && IsAscii(line)
      requires x + 8 * |line| <= xAxis && y + 16 <= yAxis
      requires px < xAxis && py < yAxis && k < 4
      ensures |line| > 0 ==> InBuffer(x + 8 * |line| - 1, y + 15)
      ensures ByteOf(px, py, k) < |before|
      ensures Drawn(before, xAxis, Text(font, line, x, y, c))[ByteOf(px, py, k)] ==
                if k < 3 && Inked(glyphs, line, x, y, px, py) then Channel(c, k) else before[ByteOf(px, py, k)]
    {
      OnScreenIsInBuffer(px, py);
      if |line| > 0 {
        OnScreenIsInBuffer(x + COLUMNS * |line| - 1, y + ROW_NUM - 1);
      }
      PrintedLineShowsTextFont(before, xAxis, glyphs, font, line, x, y, c, px, py, k);
    }

    method WritePixel(x: uint32, y: uint32, c: Color)
      requires InBuffer(x, y)
      modifies fb
      ensures PixelWritten(old(fb[..]), fb[..], 4 * (y * xAxis + x), c)
      ensures fb[..] == Drawn(old(fb[..]), xAxis, Dot(x, y, c))
    {
      var index: uint32 := (y * xAxis + x) % TWO_TO_32;
      assert index == y * xAxis + x;
      var dst := BYTES_PER_PIXEL * index;
      ghost var before: seq<uint8> := fb[..];
      ghost var after: seq<uint8> := before[dst := c.b][dst + 1 := c.g][dst + 2 := c.r];
      fb[dst] := c.b;
      fb[dst + 1] := c.g;
      fb[dst + 2] := c.r;
      assert fb[..] == after;
      ThreeBytesAreADot(before, fb[..], xAxis, x, y, c);
    }

    /** The loops count past x2 and y2, so neither may be the largest 32-bit number. */
    method WriteSquare(x1: uint32, y1: uint32, x2: uint32, y2: uint32, c: Color)
      requires x2 < TWO_TO_32 - 1 && y2 < TWO_TO_32 - 1
      requires x1 <= x2 && y1 <= y2 ==> InBuffer(x2, y2)
      modifies fb
      ensures fb[..] == Drawn(old(fb[..]), xAxis, Rectangle(x1, y1, x2, y2, c))
    {
      ghost var before, p := fb[..], Rectangle(x1, y1, x2, y2, c);
      SweepStarts(before, xAxis, p, x1, y1, x2 + 1, y2 + 1);
      var i: uint32 := x1;
      while i <= x2
        invariant x1 <= i
        invariant fb[..] == Drawn(before, xAxis, Swept(p, i, y1))
      {
        var j: uint32 := y1;
        while j <= y2
          invariant y1 <= j
          invariant fb[..] == Drawn(before, xAxis, Swept(p, i, j))
        {
          BufferReachesBack(i, j, x2, y2);
          WritePixel(i, j, c);
          SweepDrawsPixel(before, xAxis, p, i, j, c);
          j := j + 1;
        }
        SweepTurns(before, xAxis, p, x1, y1, x2 + 1, y2 + 1, i, j);
        i := i + 1;
      }
      SweepEnds(before, xAxis, p, x1, y1, x2 + 1, y2 + 1, i, y1);
    }

    method WriteAscii(font: AsciiFont, x: uint32, y: uint32, color: Color, c: char)
      requires font.Valid() && 0 <= c as int < FONT_NUM
      requires InBuffer(x + COLUMNS - 1, y + ROW_NUM - 1)
      modifies fb
      ensures fb[..] == Drawn(old(fb[..]), xAxis, Character(font.GetFont(c as int), x, y, color))
    {
      var glyph := font.GetFont(c as int);
      LineFits(x + COLUMNS - 1, y + ROW_NUM - 1);
      ghost var before, p := fb[..], Character(glyph, x, y, color);
      CharacterIsWithin(glyph, x, y, color);
      SweepStarts(before, xAxis, p, x, y, x + COLUMNS, y + ROW_NUM);
      var i := 0;
      while i < COLUMNS
        invariant 0 <= i <= COLUMNS
        invariant fb[..] == Drawn(before, xAxis, Swept(p, x + i, y))
      {
        var j := 0;
        while j < ROW_NUM
          invariant 0 <= j <= ROW_NUM
          invariant fb[..] == Drawn(before, xAxis, Swept(p, x + i, y + j))
        {
          if glyph.IsDraw(i, j) {
            BufferReachesBack(x + i, y + j, x + COLUMNS - 1, y + ROW_NUM - 1);
            WritePixel(x + i, y + j, color);
            SweepDrawsPixel(before, xAxis, p, x + i, y + j, color);
          } else {
            SweepSkipsPixel(before, xAxis, p, x + i, y + j);
          }
          j := j + 1;
        }
        SweepTurns(before, xAxis, p, x, y, x + COLUMNS, y + ROW_NUM, x + i, y + j);
        i := i + 1;
      }
      SweepEnds(before, xAxis, p, x, y, x + COLUMNS, y + ROW_NUM, x + i, y);
    }

    method PrintLine(font: AsciiFont, x: uint32, y: uint32, c: Color, line: string)
      requires font.Valid() && IsAscii(line)
      requires |line| > 0 ==> InBuffer(x + COLUMNS * |line| - 1, y + ROW_NUM - 1)
      modifies fb
      ensures fb[..] == Drawn(old(fb[..]), xAxis, Text(font, line, x, y, c))
    {
      var len := |line|;
      ghost var before := fb[..];
      NoTextDrawsNothing(before, xAxis, font, x, y, c);
      assert line[..0] == [];
      var i := 0;
      while i < len
        invariant 0 <= i <= len
        invariant IsAscii(line[..i]) && fb[..] == Drawn(before, xAxis, Text(font, line[..i], x, y, c))
      {
        BufferReachesBack(x + i * COLUMNS + COLUMNS - 1, y + ROW_NUM - 1, x + COLUMNS * len - 1, y + ROW_NUM - 1);
        LineFits(x + i * COLUMNS + COLUMNS - 1, y + ROW_NUM - 1);
        WriteAscii(font, x + i * COLUMNS, y, c, line[i]);
        NextCharacterDrawn(before, xAxis, font, line, i, x, y, c);
        i := i + 1;
      }
      assert line[..len] == line;
    }

    method PrintBmp(x: uint32, y: uint32, bmp: BitMapImage)
      requires Showable(bmp)
      requires bmp.width > 0 && bmp.height > 0 ==> InBuffer(x + bmp.width - 1, y + bmp.height - 1)
      modifies fb
      ensures fb[..] == Drawn(old(fb[..]), xAxis, Image(bmp, x, y))
    {
      ghost var before, p := fb[..], Image(bmp, x, y);
      ImageIsWithin(bmp, x, y);
      SweepStarts(before, xAxis, p, x, y, x + bmp.width, y + bmp.height);
      FitsInt32(bmp.width);
      FitsInt32(bmp.height);
      var i: int32 := 0;
      while i < ToInt32(bmp.width)
        invariant 0 <= i <= bmp.width
        invariant fb[..] == Drawn(before, xAxis, Swept(p, x + i, y))
      {
        var j: int32 := 0;
        while j < ToInt32(bmp.height)
          invariant 0 <= j <= bmp.height
          invariant fb[..] == Drawn(before, xAxis, Swept(p, x + i, y + j))
        {
          assert bmp.InImage(i, j);
          var c := bmp.GetColor(i, j);
          BufferReachesBack(x + i, y + j, x + bmp.width - 1, y + bmp.height - 1);
          LineFits(x + i, y + j);
          WritePixel(i + x, j + y, c);
          ImagePixelDrawn(before, xAxis, bmp, x, y, i, j);
          j := j + 1;
        }
        SweepTurns(before, xAxis, p, x, y, x + bmp.width, y + bmp.height, x + i, y + j);
        i := i + 1;
      }
      SweepEnds(before, xAxis, p, x, y, x + bmp.width, y + bmp.height, x + i, y);
    }

    /** From the bytes of an upright file to the framebuffer: the picture in the file is shown. */
    method ShowFile(x: uint32, y: uint32, file: seq<uint8>)
      requires Upright(file)
      requires Width(file) > 0 && Height(file) > 0 ==> InBuffer(x + Width(file) - 1, y + Height(file) - 1)
      modifies fb
      ensures fb[..] == Drawn(old(fb[..]), xAxis, StoredPicture(file, x, y))
    {
      ghost var before := fb[..];
      var bmp := new BitMapImage(file);
      ImageIsStoredPicture(file, bmp, x, y);
      PrintBmp(x, y, bmp);
      SamePictureSameBytes(before, xAxis, Image(bmp, x, y), StoredPicture(file, x, y));
    }
  }
}
