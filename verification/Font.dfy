/**
 The font's way from text to pixels: the packer that writes the font file (font/makefontfile.c)
 and the kernel's font objects that read it back (kernel/font.cpp).
 */
module Font {
  import opened Machine
  import opened Bits

  const ROW_NUM := 16            // rows, and bytes, of a glyph
  const COLUMNS := 8
  const GLYPHS_IN_FILE := 256
  const FONT_NUM := 128          // glyphs the kernel loads
  const BYTES_PER_WORD := 8

  /** A glyph of the text font: 16 rows of 8 characters, '@' where the pixel is set. */
  type Glyph = g: seq<string> | |g| == ROW_NUM && forall k :: 0 <= k < ROW_NUM ==> |g[k]| == COLUMNS
    witness seq(ROW_NUM, _ => "........")

  /** The byte that a signed char is written as. */
  function ByteOf(c: int8): uint8 {
    c % 0x100
  }

  /** Packs one row into a signed char, the leftmost column in the highest bit. */
  method PackRow(line: string) returns (lineNum: int8)
    requires |line| == COLUMNS
    ensures ShowsRow(ByteOf(lineNum), line)
  {
    lineNum := 0;
    ghost var bits: nat := 0;
    var j := 0;
    while j < COLUMNS
      invariant 0 <= j <= COLUMNS
      invariant PackedSoFar(line, bits, j) && lineNum == ToInt8(bits)
    {
      var column := if line[7 - j] == '@' then Pow2(j) else 0;
      PackOne(line, bits, j);
      ToInt8Adds(bits, column);
      lineNum := ToInt8(lineNum + column);
      bits := bits + column;
      j := j + 1;
    }
    PackedRow(line, bits);
  }

  /** The byte b shows, leftmost column in the highest bit, the set characters of the row. */
  ghost predicate ShowsRow(b: uint8, line: string)
    requires |line| == COLUMNS
  {
    forall x: nat :: x < COLUMNS ==> (Bit(b, 7 - x) <==> line[x] == '@')
  }

  lemma PackedRow(line: string, bits: nat)
    requires |line| == COLUMNS && PackedSoFar(line, bits, COLUMNS)
    ensures ShowsRow(ByteOf(ToInt8(bits)), line)
  {}

  /** The rightmost j columns of the row are in place, and nothing else. */
  ghost predicate PackedSoFar(line: string, bits: nat, j: nat)
    requires |line| == COLUMNS && j <= COLUMNS
  {
    bits < Pow2(j) && forall k: nat :: k < j ==> (Bit(bits, k) <==> line[7 - k] == '@')
  }

  lemma PackOne(line: string, bits: nat, j: nat)
    requires |line| == COLUMNS && j < COLUMNS && PackedSoFar(line, bits, j)
    ensures PackedSoFar(line, bits + if line[7 - j] == '@' then Pow2(j) else 0, j + 1)
  {
    HighBitsAreClear(bits, j, j);
    var sum := bits + if line[7 - j] == '@' then Pow2(j) else 0;
    forall k: nat | k < j + 1
      ensures Bit(sum, k) <==> line[7 - k] == '@'
    {
      AddTopBit(bits, j, k);
    }
  }

  /** Wrapping a partial sum early does not change the byte. */
  lemma ToInt8Adds(bits: nat, column: nat)
    ensures ToInt8(ToInt8(bits) + column) == ToInt8(bits + column)
  {}

  /** Adding bit j to a number below `Pow2(j)` sets that bit and no other. */
  lemma AddTopBit(bits: nat, j: nat, k: nat)
    requires bits < Pow2(j)
    ensures bits + Pow2(j) < Pow2(j + 1)
    ensures Bit(bits + Pow2(j), k) <==> Bit(bits, k) || k == j
  {
    MultipleHasNoRemainder(1, Pow2(j));
    OrDisjointIsSum(Pow2(j), bits, j);
    BitOfOr(Pow2(j), bits, k);
    BitOfPow2(j, k);
  }

  /** The file holds, row by row and glyph after glyph, exactly the set pixels of the glyphs. */
  ghost predicate Packs(file: seq<uint8>, glyphs: seq<Glyph>) {
    && |file| == ROW_NUM * |glyphs|
    && forall c: nat, y: nat :: c < |glyphs| && y < ROW_NUM ==>
         ShowsRow(file[c * ROW_NUM + y], glyphs[c][y])
  }

  method MakeFontFile(glyphs: seq<Glyph>) returns (file: seq<uint8>)
    requires |glyphs| == GLYPHS_IN_FILE
    ensures Packs(file, glyphs) && |file| == 4096
  {
    var font := new int8[GLYPHS_IN_FILE * ROW_NUM];
    var i := 0;
    while i < GLYPHS_IN_FILE
      invariant 0 <= i <= GLYPHS_IN_FILE
      invariant RowsPacked(font[..], glyphs, i * ROW_NUM)
    {
      var k := 0;
      while k < ROW_NUM
        invariant 0 <= k <= ROW_NUM
        invariant RowsPacked(font[..], glyphs, i * ROW_NUM + k)
      {
        var lineNum := PackRow(glyphs[i][k]);
        RowMajor(i, k);
        OneMoreRow(font[..], glyphs, i * ROW_NUM + k, lineNum);
        font[i * ROW_NUM + k] := lineNum;
        k := k + 1;
      }
      i := i + 1;
    }
    file := seq(GLYPHS_IN_FILE * ROW_NUM, n requires 0 <= n < font.Length reads font => ByteOf(font[n]));
    forall c: nat, y: nat | c < |glyphs| && y < ROW_NUM
      ensures ShowsRow(file[c * ROW_NUM + y], glyphs[c][y])
    {
      RowMajor(c, y);
      assert RowPacked(font[..], glyphs, c * ROW_NUM + y);
    }
  }

  lemma RowMajor(c: nat, y: nat)
    requires y < ROW_NUM
    ensures (c * ROW_NUM + y) / ROW_NUM == c && (c * ROW_NUM + y) % ROW_NUM == y
  {}

  ghost predicate RowPacked(font: seq<int8>, glyphs: seq<Glyph>, n: nat)
    requires n < |font| == ROW_NUM * |glyphs|
  {
    ShowsRow(ByteOf(font[n]), glyphs[n / ROW_NUM][n % ROW_NUM])
  }

  ghost predicate RowsPacked(font: seq<int8>, glyphs: seq<Glyph>, n: nat) {
    |font| == ROW_NUM * |glyphs| && n <= |font| && forall m: nat :: m < n ==> RowPacked(font, glyphs, m)
  }

  lemma OneMoreRow(font: seq<int8>, glyphs: seq<Glyph>, n: nat, lineNum: int8)
    requires RowsPacked(font, glyphs, n) && n < |font|
    requires ShowsRow(ByteOf(lineNum), glyphs[n / ROW_NUM][n % ROW_NUM])
    ensures RowsPacked(font[n := lineNum], glyphs, n + 1)
  {
    var after := font[n := lineNum];
    forall m: nat | m < n
      ensures RowPacked(after, glyphs, m)
    {
      assert RowPacked(font, glyphs, m);
    }
  }

  class MonoAsciiFont {
    const row: seq<uint8>

    /** Copies the 16 bytes of a glyph from the file. */
    constructor (file: seq<uint8>, offset: nat)
      requires offset + ROW_NUM <= |file|
      ensures row == file[offset..offset + ROW_NUM]
    {
      row := file[offset..offset + ROW_NUM];
    }

    /** The bit of column x in row y; elsewhere the source halts. */
    predicate IsDraw(x: int, y: int)
      requires |row| == ROW_NUM
      requires 0 <= x < COLUMNS && 0 <= y < ROW_NUM
    {
      And(ShiftRight(row[y], 7 - x), 1) == 1
    }

    lemma IsDrawReadsBit(x: int, y: int)
      requires |row| == ROW_NUM
      requires 0 <= x < COLUMNS && 0 <= y < ROW_NUM
      ensures IsDraw(x, y) <==> Bit(row[y], 7 - x)
    {
      ShiftReadsBit(row[y], 7 - x);
      AndOneIsParity(ShiftRight(row[y], 7 - x));
    }
  }

  class AsciiFont {
    const font: seq<MonoAsciiFont>

    predicate Valid() {
      |font| == FONT_NUM && forall c :: 0 <= c < FONT_NUM ==> |font[c].row| == ROW_NUM
    }

    /** Glyph i is read at word i * 2 of the file. */
    constructor (file: seq<uint8>)
      requires |file| >= FONT_NUM * 2 * BYTES_PER_WORD
      ensures Valid() && |font| == 128
      ensures forall c :: 0 <= c < 128 ==> font[c].row == file[c * 16..(c + 1) * 16]
    {
      var glyphs: seq<MonoAsciiFont> := [];
      var i := 0;
      while i < FONT_NUM
        invariant 0 <= i <= FONT_NUM && |glyphs| == i
        invariant forall c :: 0 <= c < i ==> glyphs[c].row == file[c * ROW_NUM..(c + 1) * ROW_NUM]
      {
        var glyph := new MonoAsciiFont(file, i * 2 * BYTES_PER_WORD);
        glyphs := glyphs + [glyph];
        i := i + 1;
      }
      font := glyphs;
    }

    function GetFont(c: int): MonoAsciiFont
      requires Valid() && 0 <= c < FONT_NUM
    {
      font[c]
    }

    /** The glyphs are those of a text font, as far as the kernel loads them. */
    ghost predicate Shows(glyphs: seq<Glyph>)
      requires Valid() && |glyphs| == GLYPHS_IN_FILE
    {
      forall c, x, y :: 0 <= c < 128 && 0 <= x < 8 && 0 <= y < 16 ==>
        (GetFont(c).IsDraw(x, y) <==> glyphs[c][y][x] == '@')
    }
  }

  /** From text to file to font object and back: a pixel is drawn exactly where the text has '@'. */
  lemma FontRoundTrip(glyphs: seq<Glyph>, file: seq<uint8>, font: AsciiFont)
    requires |glyphs| == GLYPHS_IN_FILE && Packs(file, glyphs)
    requires font.Valid()
    requires forall c :: 0 <= c < FONT_NUM ==> font.font[c].row == file[c * ROW_NUM..(c + 1) * ROW_NUM]
    ensures font.Shows(glyphs)
  {
    forall c, x, y | 0 <= c < FONT_NUM && 0 <= x < COLUMNS && 0 <= y < ROW_NUM
      ensures font.GetFont(c).IsDraw(x, y) <==> glyphs[c][y][x] == '@'
    {
      font.font[c].IsDrawReadsBit(x, y);
      assert font.font[c].row[y] == file[c * ROW_NUM + y];
      assert ShowsRow(file[c * ROW_NUM + y], glyphs[c][y]);
    }
  }

  method LoadTextFont(glyphs: seq<Glyph>) returns (font: AsciiFont)
    requires |glyphs| == GLYPHS_IN_FILE
    ensures font.Valid() && font.Shows(glyphs)
  {
    var file := MakeFontFile(glyphs);
    font := new AsciiFont(file);
    FontRoundTrip(glyphs, file, font);
  }
}
