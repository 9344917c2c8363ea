/** A bitmap image in memory (kernel/bmp.cpp), read straight from the bytes of its file. */
module Bmp {
  import opened Machine
  import opened Bytes

  datatype Color = Color(r: uint8, g: uint8, b: uint8)

  const HEADER_SIZE := 14
  const OFFSET_OF_BF_OFF_BITS := 10
  const OFFSET_OF_WIDTH := HEADER_SIZE + 4
  const OFFSET_OF_HEIGHT := HEADER_SIZE + 8
  const OFFSET_OF_BIT_COUNT := HEADER_SIZE + 14
  const SIZE_OF_HEADERS := HEADER_SIZE + 40

  // ----- the header of a file

  function PixelsAt(file: seq<uint8>): nat
    requires |file| >= SIZE_OF_HEADERS
  {
    U32(file, OFFSET_OF_BF_OFF_BITS)
  }

  function BitCount(file: seq<uint8>): uint16
    requires |file| >= SIZE_OF_HEADERS
  {
    U16(file, OFFSET_OF_BIT_COUNT)
  }

  function Width(file: seq<uint8>): uint32
    requires |file| >= SIZE_OF_HEADERS
  {
    U32(file, OFFSET_OF_WIDTH)
  }

  /** Negative when rows are stored from the top. */
  function StoredHeight(file: seq<uint8>): int32
    requires |file| >= SIZE_OF_HEADERS
  {
    ToInt32(U32(file, OFFSET_OF_HEIGHT))
  }

  function Height(file: seq<uint8>): uint32
    requires |file| >= SIZE_OF_HEADERS
  {
    if StoredHeight(file) < 0 then -(StoredHeight(file) as int) else StoredHeight(file) as int
  }

  // ----- the format of a true-colour file

  /** The bytes of n pixels. */
  function PixelBytes(bitCount: uint16, n: int): int {
    if bitCount == 24 then 3 * n else 4 * n
  }

  /** A stored row is padded to a multiple of four bytes. */
  function RowSize(bitCount: uint16, width: uint32): nat {
    (bitCount * width + 31) / 32 * 4
  }

  /** Where, counted from the first pixel, row `row` of the stored rows holds column x. */
  function StoredOffset(bitCount: uint16, width: uint32, row: int, x: nat): int {
    row * RowSize(bitCount, width) + x * (bitCount / 8)
  }

  /** The stored row that is shown as row y. */
  function StoredRow(height: uint32, topDown: bool, y: int): int {
    if topDown then y else height - 1 - y
  }

  predicate TrueColour(bitCount: uint16) {
    bitCount == 24 || bitCount == 32
  }

  lemma RowSizeIsPaddedWidth(bitCount: uint16, width: uint32)
    requires TrueColour(bitCount)
    ensures width * (bitCount / 8) <= RowSize(bitCount, width) < width * (bitCount / 8) + 4
    ensures RowSize(bitCount, width) % 4 == 0
    ensures RowSize(bitCount, width) == width * (bitCount / 8) <==> width * (bitCount / 8) % 4 == 0
  {
    var bytes := width * (bitCount / 8);
    EightBits(bitCount, width);
    assert RowSize(bitCount, width) == (8 * bytes + 31) / 32 * 4;
    PaddedToFour(bytes);
  }

  lemma EightBits(bitCount: uint16, width: uint32)
    requires TrueColour(bitCount)
    ensures bitCount * width == 8 * (width * (bitCount / 8)) && width * (bitCount / 8) >= 0
  {}

  lemma PaddedToFour(bytes: nat)
    ensures bytes <= (8 * bytes + 31) / 32 * 4 < bytes + 4 && (8 * bytes + 31) / 32 * 4 % 4 == 0
    ensures (8 * bytes + 31) / 32 * 4 == bytes <==> bytes % 4 == 0
  {}

  /** Without padding, the stored rows follow one another pixel by pixel. */
  lemma UnpaddedRowsAreContiguous(bitCount: uint16, width: uint32, row: nat, x: nat)
    requires TrueColour(bitCount) && (row == 0 || width * (bitCount / 8) % 4 == 0)
    ensures StoredOffset(bitCount, width, row, x) == PixelBytes(bitCount, row * width + x)
  {
    RowSizeIsPaddedWidth(bitCount, width);
    if row > 0 {
      Distribute(row, width, x, bitCount / 8);
    }
  }

  lemma Distribute(row: int, width: nat, x: int, bytes: nat)
    ensures (row * width + x) * bytes == row * (width * bytes) + x * bytes
  {}

  /** Without padding, every pixel of the format lies among the bytes of width * height pixels. */
  lemma UnpaddedPixelsAreInside(bitCount: uint16, width: uint32, height: uint32, topDown: bool, x: nat, y: nat)
    requires TrueColour(bitCount) && (height <= 1 || width * (bitCount / 8) % 4 == 0)
    requires x < width && y < height
    ensures 0 <= StoredOffset(bitCount, width, StoredRow(height, topDown, y), x)
              <= PixelBytes(bitCount, width * height) - 3
  {
    var row := StoredRow(height, topDown, y);
    UnpaddedRowsAreContiguous(bitCount, width, row, x);
    InRows(row, height, width, x);
  }

  // ----- numbers of rows and columns

  /** Row-major positions lie below the product of the sides. */
  lemma InRows(row: int, height: int, width: int, x: int)
    requires 0 <= row < height && 0 <= x < width
    ensures 0 <= row * width + x < width * height
  {
    var rest := height - 1 - row;
    assert width * height == row * width + width + rest * width;
    NatProduct(rest, width);
    NatProduct(row, width);
  }

  lemma NatProduct(a: nat, b: nat)
    ensures a * b >= 0
  {}

  /** Row-major numbers counted from `first` do not wrap when the last of them fits an int. */
  lemma RowMajorFits(row: nat, height: uint32, width: uint32, x: nat, first: nat)
    requires row < height && x < width && width * height + first <= TWO_TO_31
    ensures ToInt32(width * row + x + first) == row * width + x + first
    ensures 0 <= row * width + x < width * height
  {
    InRows(row, height, width, x);
    FitsInt32(row * width + x + first);
  }

  lemma FitsInt32(n: nat)
    ensures n < TWO_TO_31 ==> ToInt32(n) == n
  {}

  class BitMapImage {
    const file: seq<uint8>
    const image: nat        // where the pixels start in the file
    const bitCount: uint16
    const width: uint32
    const height: uint32
    const isAscend: bool    // the stored height is negative: rows are stored from the top

    /** The fields are what the header of the file says. */
    predicate IsOf(file: seq<uint8>)
      requires |file| >= SIZE_OF_HEADERS
    {
      && this.file == file && image == PixelsAt(file) && bitCount == BitCount(file)
      && width == Width(file) && height == Height(file) && isAscend == (StoredHeight(file) < 0)
    }

    constructor (file: seq<uint8>)
      requires |file| >= SIZE_OF_HEADERS
      ensures IsOf(file)
    {
      this.file := file;
      image := U32(file, OFFSET_OF_BF_OFF_BITS);
      bitCount := U16(file, OFFSET_OF_BIT_COUNT);
      width := U32(file, OFFSET_OF_WIDTH);
      var bcHeight := ToInt32(U32(file, OFFSET_OF_HEIGHT));
      if bcHeight < 0 {
        height := (bcHeight as int) * -1;
        isAscend := true;
      } else {
        height := bcHeight;
        isAscend := false;
      }
    }

    function BytesPerPixel(): nat {
      bitCount / 8
    }

    /** The pixel number that getColor computes: unsigned 32-bit arithmetic, then a signed int. */
    function PixelIndex(x: int32, y: int32): int32 {
      if !isAscend then ToInt32(width * ((height - y - 1) % TWO_TO_32) + x)
      else ToInt32(width * y + x + 1)
    }

    /** The byte offset, from the start of the pixels, of the colour that getColor reads. */
    function ByteIndex(x: int32, y: int32): int {
      PixelIndex(x, y) * BytesPerPixel()
    }

    /** A true-colour image whose pixel numbers and offsets fit an int. */
    predicate Plain() {
      && TrueColour(bitCount)
      && width < TWO_TO_31 && height < TWO_TO_31
      && PixelBytes(bitCount, width * height + 2) < TWO_TO_31
    }

    predicate InImage(x: int, y: int) {
      0 <= x < width && 0 <= y < height
    }

    /** The largest pixel number that getColor computes: one past the image's when rows are stored
        from the top. */
    function LastIndex(): int {
      width * height - if isAscend then 0 else 1
    }

    /** Both branches compute a row number times the width plus a column; no wrap occurs in an image
        whose pixel numbers fit an int. */
    lemma PixelIndexIsRowMajor(x: int32, y: int32)
      requires InImage(x, y) && LastIndex() < TWO_TO_31
      ensures PixelIndex(x, y) == if isAscend then y * width + x + 1 else (height - 1 - y) * width + x
      ensures 0 <= PixelIndex(x, y) <= LastIndex()
    {
      if isAscend {
        RowMajorFits(y, height, width, x, 1);
      } else {
        var row: uint32 := height - 1 - y;
        RowMajorFits(row, height, width, x, 0);
        assert (height - y - 1) % TWO_TO_32 == row;
      }
    }

    lemma PlainIndicesFit()
      requires Plain()
      ensures LastIndex() < TWO_TO_31
    {
      NatProduct(width, height);
    }

    /** The factor of every byte offset is 3 or 4. */
    lemma ByteIndexIsScaled(x: int32, y: int32)
      requires Plain()
      ensures ByteIndex(x, y) == PixelBytes(bitCount, PixelIndex(x, y))
    {}

    // ----- reads outside the file

    /** The three bytes that getColor reads lie in the file. */
    predicate ReadsInFile(x: int32, y: int32) {
      0 <= image + ByteIndex(x, y) && image + ByteIndex(x, y) + 2 < |file|
    }

    ghost predicate AllReadsInFile() {
      forall x: int32, y: int32 :: InImage(x, y) ==> ReadsInFile(x, y)
    }

    /** getColor stays inside the file for every pixel exactly when the file holds the colour of the
        last pixel number it computes. */
    lemma AllReadsInFileIff()
      requires Plain() && width > 0 && height > 0
      ensures AllReadsInFile() <==> image + PixelBytes(bitCount, LastIndex()) + 3 <= |file|
    {
      PlainIndicesFit();
      var x: int32, y: int32 := width - 1, if isAscend then height - 1 else 0;
      PixelIndexIsRowMajor(x, y);
      assert PixelIndex(x, y) == LastIndex() by { LastRow(); }
      ByteIndexIsScaled(x, y);
      assert ReadsInFile(x, y) <==> image + PixelBytes(bitCount, LastIndex()) + 3 <= |file|;
      forall x': int32, y': int32 | InImage(x', y')
        ensures ReadsInFile(x, y) ==> ReadsInFile(x', y')
      {
        PixelIndexIsRowMajor(x', y');
        ByteIndexIsScaled(x', y');
      }
    }

    lemma LastRow()
      requires height > 0
      ensures (height - 1) * width + width == width * height
    {}

    /** A file that ends with its last pixel is read inside its bounds exactly when its rows are
        stored from the bottom. */
    lemma ExactFileIsReadInsideIff()
      requires Plain() && width > 0 && height > 0
      requires image + PixelBytes(bitCount, width * height) == |file|
      ensures AllReadsInFile() <==> !isAscend
    {
      AllReadsInFileIff();
    }

    function GetColor(x: int32, y: int32): Color
      requires ReadsInFile(x, y)
    {
      var index := image + ByteIndex(x, y);
      Color(file[index + 2], file[index + 1], file[index])
    }

    // ----- the file format

    /** Where the format stores the pixel shown at column x of row y. */
    function FormatIndex(x: nat, y: nat): int {
      StoredOffset(bitCount, width, StoredRow(height, isAscend, y), x)
    }

    /** getColor reads every pixel of the image where the format stores it. */
    ghost predicate ReadsTheFormat() {
      forall x: int32, y: int32 :: InImage(x, y) ==> ByteIndex(x, y) == FormatIndex(x, y)
    }

    /** It does so exactly for images stored from the bottom whose rows need no padding, or that
        have one row only. */
    lemma ReadsTheFormatIff()
      requires Plain() && width > 0 && height > 0
      ensures ReadsTheFormat() <==> !isAscend && (height == 1 || width * BytesPerPixel() % 4 == 0)
    {
      PlainIndicesFit();
      RowSizeIsPaddedWidth(bitCount, width);
      if isAscend {
        TopDownIsOffByOne();
      } else if height == 1 || width * BytesPerPixel() % 4 == 0 {
        forall x: int32, y: int32 | InImage(x, y)
          ensures ByteIndex(x, y) == FormatIndex(x, y)
        {
          PixelIndexIsRowMajor(x, y);
          ByteIndexIsScaled(x, y);
          UnpaddedRowsAreContiguous(bitCount, width, height - 1 - y, x);
        }
      } else {
        PaddingIsIgnored();
      }
    }

    /** The first pixel of an image stored from the top is read one pixel too far. */
    lemma TopDownIsOffByOne()
      requires Plain() && isAscend && width > 0 && height > 0
      ensures ByteIndex(0, 0) == BytesPerPixel() != FormatIndex(0, 0) == 0
    {
      PlainIndicesFit();
      PixelIndexIsRowMajor(0, 0);
    }

    /** The second stored row of a padded image is read from the padding of the first. */
    lemma PaddingIsIgnored()
      requires Plain() && !isAscend && width > 0 && height > 1 && width * BytesPerPixel() % 4 != 0
      ensures ByteIndex(0, height - 2) == width * BytesPerPixel()
      ensures width * BytesPerPixel() < FormatIndex(0, height - 2) == RowSize(bitCount, width)
    {
      PlainIndicesFit();
      RowSizeIsPaddedWidth(bitCount, width);
      PixelIndexIsRowMajor(0, height - 2);
    }
  }
}
