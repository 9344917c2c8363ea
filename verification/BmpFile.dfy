/**
 Bitmap files as their header structures lay them out, field after field (BMHeader and BMInfo in
 kernel/bmp.hpp), and what is read and shown of them. The offsets of the reader are not used.
 */
module BmpFile {
  import opened Machine
  import opened Bytes
  import opened Bmp
  import opened Drawing
  import opened Screens

  datatype Header = Header(
    magic: uint16, size: uint32, reserved: uint32, offBits: uint32,
    infoSize: uint32, width: uint32, height: int32, planes: uint16, bitCount: uint16, compression: uint32,
    sizeImage: uint32, xPixPerMeter: uint32, yPixPerMeter: uint32, clrUsed: uint32, clrImportant: uint32)

  /** A negative height is stored as its two's complement. */
  function Fields(h: Header): seq<Field> {
    [Field(2, h.magic), Field(4, h.size), Field(4, h.reserved), Field(4, h.offBits),
     Field(4, h.infoSize), Field(4, h.width), Field(4, h.height % 0x1_0000_0000), Field(2, h.planes),
     Field(2, h.bitCount), Field(4, h.compression), Field(4, h.sizeImage), Field(4, h.xPixPerMeter),
     Field(4, h.yPixPerMeter), Field(4, h.clrUsed), Field(4, h.clrImportant)]
  }

  function HeaderBytes(h: Header): seq<uint8> {
    Layout(Fields(h), 15)
  }

  lemma Offsets(h: Header)
    ensures var f := Fields(h);
            && Offset(f, 3) == 10 && Offset(f, 5) == 18 && Offset(f, 6) == 22 && Offset(f, 8) == 28
            && Offset(f, 15) == 54
  {
    var f := Fields(h);
    assert Offset(f, 1) == 2 && Offset(f, 2) == 6 && Offset(f, 3) == 10 && Offset(f, 4) == 14;
    assert Offset(f, 5) == 18 && Offset(f, 6) == 22 && Offset(f, 7) == 26 && Offset(f, 8) == 28;
    assert Offset(f, 9) == 30 && Offset(f, 10) == 34 && Offset(f, 11) == 38 && Offset(f, 12) == 42;
    assert Offset(f, 13) == 46 && Offset(f, 14) == 50 && Offset(f, 15) == 54;
  }

  /** The file starts with the header. */
  predicate StartsWith(file: seq<uint8>, h: Header) {
    LiesAt(file, 0, HeaderBytes(h))
  }

  /** What is read from a header is what was written there, the sign of the height included. */
  lemma HeaderIsRead(file: seq<uint8>, h: Header)
    requires StartsWith(file, h)
    ensures |file| >= SIZE_OF_HEADERS
    ensures PixelsAt(file) == h.offBits && BitCount(file) == h.bitCount && Width(file) == h.width
    ensures StoredHeight(file) == h.height
  {
    var f := Fields(h);
    Offsets(h);
    ReadsField32(file, 0, f, 15, 3);
    ReadsField32(file, 0, f, 15, 5);
    ReadsField32(file, 0, f, 15, 6);
    ReadsField16(file, 0, f, 15, 8);
    SignIsKept(h.height);
  }

  lemma SignIsKept(height: int32)
    ensures ToInt32(height % 0x1_0000_0000) == height
  {}

  // ----- a file on the screen

  /** A bottom-up true-colour file whose rows need no padding or that has one only, complete and not
      too large for an int. */
  predicate Plain(file: seq<uint8>, h: Header) {
    && (h.bitCount == 24 || h.bitCount == 32)
    && h.width < 0x8000_0000 && 0 <= h.height
    && (h.width * h.height + 2) * (h.bitCount / 8) < 0x8000_0000
    && (h.height <= 1 || h.width * (h.bitCount / 8) % 4 == 0)
    && h.offBits + h.width * h.height * (h.bitCount / 8) <= |file|
  }

  lemma PlainIsUpright(file: seq<uint8>, h: Header)
    requires StartsWith(file, h) && Plain(file, h)
    ensures Upright(file) && Height(file) == h.height
  {
    HeaderIsRead(file, h);
    PixelsAreScaled(h.bitCount, h.width * h.height + 2);
    PixelsAreScaled(h.bitCount, h.width * h.height);
  }

  lemma PixelsAreScaled(bitCount: uint16, n: int)
    requires TrueColour(bitCount)
    ensures PixelBytes(bitCount, n) == n * (bitCount / 8)
  {}

  /** Where the file holds byte k of the pixel in column i of line j from the top. */
  function ByteAt(h: Header, i: nat, j: nat, k: nat): int {
    h.offBits + ((h.height - 1 - j) * h.width + i) * (h.bitCount / 8) + k
  }

  lemma StoredByHeader(file: seq<uint8>, h: Header, i: nat, j: nat, k: nat)
    requires StartsWith(file, h) && Plain(file, h) && i < h.width && j < h.height
    ensures |file| >= SIZE_OF_HEADERS && StoredAt(file, i, j) + k == ByteAt(h, i, j, k)
  {
    StoredInRow(file, h, i, j);
    PlainPixel(file, h, i, j);
  }

  lemma StoredInRow(file: seq<uint8>, h: Header, i: nat, j: nat)
    requires StartsWith(file, h) && h.height >= 0
    ensures |file| >= SIZE_OF_HEADERS
    ensures StoredAt(file, i, j) == h.offBits + StoredOffset(h.bitCount, h.width, h.height - 1 - j, i)
  {
    HeaderIsRead(file, h);
  }

  lemma PlainPixel(file: seq<uint8>, h: Header, i: nat, j: nat)
    requires Plain(file, h) && j < h.height
    ensures StoredOffset(h.bitCount, h.width, h.height - 1 - j, i) == ByteAt(h, i, j, 0) - h.offBits
  {
    PixelNumber(h.bitCount, h.width, h.height - 1 - j, i);
  }

  lemma PixelNumber(bitCount: uint16, width: uint32, row: nat, i: nat)
    requires TrueColour(bitCount) && (row == 0 || width * (bitCount / 8) % 4 == 0)
    ensures StoredOffset(bitCount, width, row, i) == (row * width + i) * (bitCount / 8)
  {
    UnpaddedRowsAreContiguous(bitCount, width, row, i);
    PixelsAreScaled(bitCount, row * width + i);
  }

  /**
   From a file given by its header's fields to the screen: when the image fits the screen at (x, y),
   bytes 0, 1 and 2 of each of its pixels are that pixel's bytes in the file, the last row of the
   file on top, and no other byte of the screen changes.
   */
  method ShowBmpFile(s: Screen, x: uint32, y: uint32, file: seq<uint8>, ghost h: Header)
    requires StartsWith(file, h) && Plain(file, h)
    requires s.CoversScreen() && x + h.width <= s.xAxis && y + h.height <= s.yAxis
    modifies s.fb
    ensures forall px: nat, py: nat, k: nat :: px < s.xAxis && py < s.yAxis && k < 4 ==>
              Shown(s, old(s.fb[..]), s.fb[..], x, y, file, h, px, py, k)
  {
    ghost var before := s.fb[..];
    PlainIsUpright(file, h);
    HeaderIsRead(file, h);
    if h.width > 0 && h.height > 0 {
      s.OnScreenIsInBuffer(x + h.width - 1, y + h.height - 1);
    }
    s.ShowFile(x, y, file);
    forall px: nat, py: nat, k: nat | px < s.xAxis && py < s.yAxis && k < 4
      ensures Shown(s, before, s.fb[..], x, y, file, h, px, py, k)
    {
      if InPicture(file, x, y, px, py) {
        StoredByHeader(file, h, px - x, py - y, k);
      }
      ByteIsShown(s, before, x, y, file, h, px, py, k);
    }
  }

  /** Byte k of pixel (px, py) is the file's, inside the image and below 3, and unchanged elsewhere. */
  ghost predicate Shown(s: Screen, before: seq<uint8>, now: seq<uint8>, x: nat, y: nat, file: seq<uint8>, h: Header,
                        px: nat, py: nat, k: nat)
  {
    var n := s.ByteOf(px, py, k);
    && n < |before| == |now|
    && if k < 3 && x <= px < x + h.width && y <= py < y + h.height
       then IsByteAt(file, ByteAt(h, px - x, py - y, k), now[n])
       else now[n] == before[n]
  }

  lemma ByteIsShown(s: Screen, before: seq<uint8>, x: nat, y: nat, file: seq<uint8>, h: Header,
                    px: nat, py: nat, k: nat)
    requires Upright(file) && Width(file) == h.width && Height(file) == h.height && |before| == s.fb.Length
    requires InPicture(file, x, y, px, py) ==> StoredAt(file, px - x, py - y) + k == ByteAt(h, px - x, py - y, k)
    requires s.CoversScreen() && x + h.width <= s.xAxis && y + h.height <= s.yAxis
    requires px < s.xAxis && py < s.yAxis && k < 4
    ensures Shown(s, before, Drawn(before, s.xAxis, StoredPicture(file, x, y)), x, y, file, h, px, py, k)
  {
    s.FileOnScreen(before, file, x, y, px, py, k);
  }

  // ----- concrete failures

  /** A 24-bit image of one column and two rows in a file of 62 bytes: rows are padded to four bytes. */
  predicate TwoRows(file: seq<uint8>, h: Header, height: int32) {
    StartsWith(file, h) && |file| == 62 && h.offBits == 54 && h.bitCount == 24 && h.width == 1 && h.height == height
  }

  /** Stored from the bottom, the upper row is read at byte 3, where the format has it at byte 4. */
  lemma PaddedFileIsMisread(file: seq<uint8>, h: Header, bmp: BitMapImage)
    requires TwoRows(file, h, 2) && |file| >= SIZE_OF_HEADERS && bmp.IsOf(file)
    ensures bmp.InImage(0, 0) && bmp.ByteIndex(0, 0) == 3 && bmp.FormatIndex(0, 0) == 4
  {
    HeaderIsRead(file, h);
  }

  /** Stored from the top, with height -2, the first pixel is read at byte 3, where the format has
      it at byte 0. */
  lemma TopDownFileIsMisread(file: seq<uint8>, h: Header, bmp: BitMapImage)
    requires TwoRows(file, h, -2) && |file| >= SIZE_OF_HEADERS && bmp.IsOf(file)
    ensures bmp.InImage(0, 0) && bmp.ByteIndex(0, 0) == 3 && bmp.FormatIndex(0, 0) == 0
  {
    HeaderIsRead(file, h);
  }

  /** In the same file, the pixel below is read past the end: of its two pixels, number 2. */
  lemma TopDownFileIsReadOutside(file: seq<uint8>, h: Header, bmp: BitMapImage)
    requires TwoRows(file, h, -2) && |file| >= SIZE_OF_HEADERS && bmp.IsOf(file)
    ensures bmp.InImage(0, 1) && bmp.PixelIndex(0, 1) == 2 && !bmp.ReadsInFile(0, 1)
  {
    HeaderIsRead(file, h);
  }
}
