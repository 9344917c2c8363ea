/** Little-endian numbers in memory, and records that are laid out field after field. */
module Bytes {
  import opened Machine

  // ----- reading, as the processor does

  function U16(m: seq<uint8>, at: nat): uint16
    requires at + 2 <= |m|
  {
    (m[at] as int) + 0x100 * (m[at + 1] as int)
  }

  function U32(m: seq<uint8>, at: nat): uint32
    requires at + 4 <= |m|
  {
    (U16(m, at) as int) + 0x1_0000 * (U16(m, at + 2) as int)
  }

  function U64(m: seq<uint8>, at: nat): uint64
    requires at + 8 <= |m|
  {
    (U32(m, at) as int) + 0x1_0000_0000 * (U32(m, at + 4) as int)
  }

  // ----- writing

  /** The lowest `width` bytes of x, the lowest first. */
  function LittleEndian(x: nat, width: nat): (bytes: seq<uint8>)
    ensures |bytes| == width
  {
    if width == 0 then [] else [x % 0x100] + LittleEndian(x / 0x100, width - 1)
  }

  datatype Field = Field(width: nat, value: nat)

  /** Where field n starts. */
  function Offset(fields: seq<Field>, n: nat): nat
    requires n <= |fields|
  {
    if n == 0 then 0 else Offset(fields, n - 1) + fields[n - 1].width
  }

  /** The bytes of the first n fields. */
  function Layout(fields: seq<Field>, n: nat): (bytes: seq<uint8>)
    requires n <= |fields|
    ensures |bytes| == Offset(fields, n)
  {
    if n == 0 then []
    else Layout(fields, n - 1) + LittleEndian(fields[n - 1].value, fields[n - 1].width)
  }

  /** The bytes at `at` are those of the fields. */
  predicate LiesAt(m: seq<uint8>, at: nat, bytes: seq<uint8>) {
    at + |bytes| <= |m| && m[at..at + |bytes|] == bytes
  }

  // ----- what is written is read back

  lemma ReadsU16(m: seq<uint8>, at: nat, x: nat)
    requires LiesAt(m, at, LittleEndian(x, 2))
    ensures U16(m, at) == x % TWO_TO_16
  {
    var bytes := LittleEndian(x, 2);
    assert bytes == [x % 0x100] + LittleEndian(x / 0x100, 1);
    assert m[at] == m[at..at + 2][0] && m[at + 1] == m[at..at + 2][1];
  }

  lemma ReadsU32(m: seq<uint8>, at: nat, x: nat)
    requires LiesAt(m, at, LittleEndian(x, 4))
    ensures U32(m, at) == x % TWO_TO_32
  {
    LowPart(x, 2, 2);
    HighPart(x);
    PartsLie(m, at, LittleEndian(x, 2), LittleEndian(x / 0x1_0000, 2));
    ReadsU16(m, at, x);
    ReadsU16(m, at + 2, x / 0x1_0000);
    Join16(x);
  }

  lemma ReadsU64(m: seq<uint8>, at: nat, x: nat)
    requires LiesAt(m, at, LittleEndian(x, 8))
    ensures U64(m, at) == x % TWO_TO_64
  {
    LowPart(x, 4, 4);
    HighPart(x);
    PartsLie(m, at, LittleEndian(x, 4), LittleEndian(x / 0x1_0000_0000, 4));
    ReadsU32(m, at, x);
    ReadsU32(m, at + 4, x / 0x1_0000_0000);
    Join32(x);
  }

  lemma Join16(x: nat)
    ensures x % TWO_TO_16 + 0x1_0000 * (x / 0x1_0000 % TWO_TO_16) == x % TWO_TO_32
  {
    var h := x / 0x1_0000;
    assert x == TWO_TO_32 * (h / 0x1_0000) + (0x1_0000 * (h % 0x1_0000) + x % 0x1_0000);
  }

  lemma Join32(x: nat)
    ensures x % TWO_TO_32 + 0x1_0000_0000 * (x / 0x1_0000_0000 % TWO_TO_32) == x % TWO_TO_64
  {
    var h := x / 0x1_0000_0000;
    assert x == TWO_TO_64 * (h / 0x1_0000_0000) + (0x1_0000_0000 * (h % 0x1_0000_0000) + x % 0x1_0000_0000);
  }

  /** What is left of x without its lowest k bytes. */
  function High(x: nat, k: nat): nat {
    if k == 0 then x else High(x / 0x100, k - 1)
  }

  lemma {:induction false} LowPart(x: nat, low: nat, high: nat)
    ensures LittleEndian(x, low + high) == LittleEndian(x, low) + LittleEndian(High(x, low), high)
  {
    if low > 0 {
      LowPart(x / 0x100, low - 1, high);
    }
  }

  lemma HighPart(x: nat)
    ensures High(x, 2) == x / 0x1_0000 && High(x, 4) == x / 0x1_0000_0000
  {
    var y := x / 0x100;
    var z := y / 0x100;
    assert High(x, 2) == High(y, 1) == z == x / 0x1_0000;
    assert High(x, 4) == High(z, 2);
    assert High(z, 2) == High(z / 0x100, 1) == z / 0x100 / 0x100;
  }

  lemma PartsLie(m: seq<uint8>, at: nat, a: seq<uint8>, b: seq<uint8>)
    requires LiesAt(m, at, a + b)
    ensures LiesAt(m, at, a) && LiesAt(m, at + |a|, b)
  {
    var all := m[at..at + |a + b|];
    assert all[..|a|] == a && all[|a|..] == b;
  }

  /** Every field of a record lies where the fields before it end. */
  lemma {:induction false} FieldLies(m: seq<uint8>, at: nat, fields: seq<Field>, n: nat, i: nat)
    requires i < n <= |fields| && LiesAt(m, at, Layout(fields, n))
    ensures LiesAt(m, at + Offset(fields, i), LittleEndian(fields[i].value, fields[i].width))
  {
    PartsLie(m, at, Layout(fields, n - 1), LittleEndian(fields[n - 1].value, fields[n - 1].width));
    if i < n - 1 {
      FieldLies(m, at, fields, n - 1, i);
    }
  }

  lemma Fits(x: nat, limit: nat)
    requires x < limit
    ensures x % limit == x
  {}

  lemma ReadsField16(m: seq<uint8>, at: nat, fields: seq<Field>, n: nat, i: nat)
    requires i < n <= |fields| && LiesAt(m, at, Layout(fields, n))
    requires fields[i].width == 2 && fields[i].value < TWO_TO_16
    ensures at + Offset(fields, i) + 2 <= |m| && U16(m, at + Offset(fields, i)) == fields[i].value
  {
    FieldLies(m, at, fields, n, i);
    ReadsU16(m, at + Offset(fields, i), fields[i].value);
    Fits(fields[i].value, TWO_TO_16);
  }

  lemma ReadsField32(m: seq<uint8>, at: nat, fields: seq<Field>, n: nat, i: nat)
    requires i < n <= |fields| && LiesAt(m, at, Layout(fields, n))
    requires fields[i].width == 4 && fields[i].value < TWO_TO_32
    ensures at + Offset(fields, i) + 4 <= |m| && U32(m, at + Offset(fields, i)) == fields[i].value
  {
    FieldLies(m, at, fields, n, i);
    ReadsU32(m, at + Offset(fields, i), fields[i].value);
    Fits(fields[i].value, TWO_TO_32);
  }

  lemma ReadsField64(m: seq<uint8>, at: nat, fields: seq<Field>, n: nat, i: nat)
    requires i < n <= |fields| && LiesAt(m, at, Layout(fields, n))
    requires fields[i].width == 8 && fields[i].value < TWO_TO_64
    ensures at + Offset(fields, i) + 8 <= |m| && U64(m, at + Offset(fields, i)) == fields[i].value
  {
    FieldLies(m, at, fields, n, i);
    ReadsU64(m, at + Offset(fields, i), fields[i].value);
    Fits(fields[i].value, TWO_TO_64);
  }
}
