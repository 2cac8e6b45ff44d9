/** Pixel storage of extmod/modframebuf.c: seven packed formats over one byte buffer, and the
    proof that each of them is a 2D array of independent colours. */
module FbPixels {
  import opened Common

  datatype Format = MVLSB | RGB565 | GS4_HMSB | MHLSB | MHMSB | GS2_HMSB | GS8

  type Colour = bv32

  /** The fields of a frame buffer besides its bytes. */
  datatype Geometry = Geometry(format: Format, width: nat, height: nat, stride: nat)

  // ---------- one byte ----------

  predicate Mono(f: Format) { f == MVLSB || f == MHLSB || f == MHMSB }

  /** Pixels kept in one byte; RGB565 keeps one pixel in two. */
  function PerByte(f: Format): nat {
    match f
    case MVLSB => 8 case MHLSB => 8 case MHMSB => 8
    case GS2_HMSB => 4 case GS4_HMSB => 2 case GS8 => 1 case RGB565 => 1
  }

  function PixelBytes(f: Format): nat { if f == RGB565 then 2 else 1 }

  function Low8(c: Colour): Byte { (c & 0xff) as Byte }

  /** The bits of a colour that a format of at most 8 bits per pixel keeps. */
  function Shade(f: Format, c: Colour): Byte {
    if Mono(f) then (if c != 0 then 1 else 0)
    else if f == GS2_HMSB then Low8(c) & 0x3
    else if f == GS4_HMSB then Low8(c) & 0xf
    else Low8(c)
  }

  /** The colour that a format keeps of a 32-bit one. */
  function Truncate(f: Format, c: Colour): Colour {
    if f == RGB565 then c & 0xffff else Shade(f, c) as Colour
  }

  function Bit(k: nat): Byte
    requires k < 8
  {
    if k == 0 then 1 else if k == 1 then 2 else if k == 2 then 4 else if k == 3 then 8
    else if k == 4 then 16 else if k == 5 then 32 else if k == 6 then 64 else 128
  }

  /** A byte with bit k switched. */
  function WithBit(b: Byte, k: nat, on: bool): Byte
    requires k < 8
  {
    (b & !Bit(k)) | (if on then Bit(k) else 0)
  }

  /** Moves the two bits of a pixel to place k. */
  function PairAt(n: Byte, k: nat): Byte
    requires k < 4
  {
    if k == 0 then n else if k == 1 then n << 2 else if k == 2 then n << 4 else n << 6
  }

  function PairOf(b: Byte, k: nat): Byte
    requires k < 4
  {
    if k == 0 then b & 0x3 else if k == 1 then (b >> 2) & 0x3 else if k == 2 then (b >> 4) & 0x3
    else (b >> 6) & 0x3
  }

  /** Replaces pixel k of a byte by the bits n. */
  function SetSlot(f: Format, b: Byte, k: nat, n: Byte): Byte
    requires k < PerByte(f) && f != RGB565
  {
    if Mono(f) then WithBit(b, k, n != 0)
    else if f == GS8 then n
    else if f == GS4_HMSB then (if k == 1 then (n & 0x0f) | (b & 0xf0) else (n << 4) | (b & 0x0f))
    else PairAt(n, k) | (b & !PairAt(0x3, k))
  }

  /** Reads pixel k of a byte. */
  function GetSlot(f: Format, b: Byte, k: nat): Byte
    requires k < PerByte(f) && f != RGB565
  {
    if Mono(f) then (if b & Bit(k) != 0 then 1 else 0)
    else if f == GS8 then b
    else if f == GS4_HMSB then (if k == 1 then b & 0x0f else b >> 4)
    else PairOf(b, k)
  }

  lemma BitsDistinct(k: nat, j: nat)
    requires k < 8 && j < 8 && k != j
    ensures Bit(k) & Bit(j) == 0
  {}

  lemma BitReplaced(b: Byte, p: Byte, q: Byte, on: bool)
    requires p & q == 0 && p != 0
    ensures ((b & !p) | (if on then p else 0)) & q == b & q
    ensures ((b & !p) | (if on then p else 0)) & p == if on then p else 0
  {}

  lemma Nibbles(b: Byte, n: Byte)
    requires n & 0xf0 == 0
    ensures ((n << 4) | (b & 0x0f)) >> 4 == n
    ensures ((n << 4) | (b & 0x0f)) & 0x0f == b & 0x0f
    ensures ((n & 0x0f) | (b & 0xf0)) >> 4 == b >> 4
    ensures ((n & 0x0f) | (b & 0xf0)) & 0x0f == n
  {}

  lemma Pairs(b: Byte, n: Byte, k: nat, j: nat)
    requires k < 4 && j < 4 && n & 0xfc == 0
    ensures PairOf(PairAt(n, k) | (b & !PairAt(0x3, k)), j) == if j == k then n else PairOf(b, j)
  {}

  lemma ShadeFits(f: Format, c: Colour)
    ensures PixelBits(f, Shade(f, c))
  {}

  /** The bits that a pixel of the format can hold. */
  predicate PixelBits(f: Format, n: Byte) {
    if Mono(f) then n == 0 || n == 1
    else if f == GS2_HMSB then n & 0xfc == 0
    else if f == GS4_HMSB then n & 0xf0 == 0
    else true
  }

  lemma MonoSlots(f: Format, b: Byte, k: nat, n: Byte, j: nat)
    requires Mono(f) && k < 8 && j < 8 && (n == 0 || n == 1)
    ensures GetSlot(f, SetSlot(f, b, k, n), j) == if j == k then n else GetSlot(f, b, j)
  {
    if j != k { BitsDistinct(k, j); }
    BitReplaced(b, Bit(k), if j == k then 0 else Bit(j), n != 0);
  }

  lemma SlotsAreIndependent(f: Format, b: Byte, k: nat, n: Byte, j: nat)
    requires f != RGB565 && k < PerByte(f) && j < PerByte(f) && PixelBits(f, n)
    ensures GetSlot(f, SetSlot(f, b, k, n), j) == if j == k then n else GetSlot(f, b, j)
  {
    if Mono(f) {
      MonoSlots(f, b, k, n, j);
    } else if f == GS4_HMSB {
      Nibbles(b, n);
    } else if f == GS2_HMSB {
      Pairs(b, n, k, j);
    }
  }

  lemma BackToByte(b: Byte)
    ensures Low8(b as Colour) == b && (b as Colour != 0 <==> b != 0)
  {}

  lemma SlotFits(f: Format, b: Byte, k: nat)
    requires f != RGB565 && k < PerByte(f)
    ensures Mono(f) ==> GetSlot(f, b, k) == 0 || GetSlot(f, b, k) == 1
    ensures f == GS2_HMSB ==> GetSlot(f, b, k) & 0x3 == GetSlot(f, b, k)
    ensures f == GS4_HMSB ==> GetSlot(f, b, k) & 0xf == GetSlot(f, b, k)
  {}

  lemma GetIsTruncated(f: Format, b: Byte, k: nat)
    requires f != RGB565 && k < PerByte(f)
    ensures Shade(f, GetSlot(f, b, k) as Colour) == GetSlot(f, b, k)
  {
    SlotFits(f, b, k);
    BackToByte(GetSlot(f, b, k));
  }

  // ---------- the buffer ----------

  /** First byte of pixel (x, y). */
  function Index(g: Geometry, x: nat, y: nat): nat {
    match g.format
    case MVLSB => y / 8 * g.stride + x
    case RGB565 => 2 * (x + y * g.stride)
    case _ => (x + y * g.stride) / PerByte(g.format)
  }

  /** Which of the byte's pixels (x, y) is. */
  function Slot(g: Geometry, x: nat, y: nat): (k: nat)
    ensures k < PerByte(g.format)
  {
    match g.format
    case MVLSB => y % 8
    case MHMSB => x % 8
    case MHLSB => 7 - x % 8
    case GS2_HMSB => x % 4
    case GS4_HMSB => x % 2
    case _ => 0
  }

  predicate InFrame(g: Geometry, x: int, y: int) { 0 <= x < g.width && 0 <= y < g.height }

  predicate Reaches(g: Geometry, len: nat, x: nat, y: nat) {
    Index(g, x, y) + PixelBytes(g.format) <= len
  }

  /** Every in-frame pixel lies inside a buffer of this length. */
  ghost predicate Fits(g: Geometry, len: nat) {
    forall x: nat, y: nat :: InFrame(g, x, y) ==> Reaches(g, len, x, y)
  }

  /** The row stride is whole bytes and rows do not overlap. */
  predicate Sound(g: Geometry) {
    g.width <= g.stride && (g.format != MVLSB ==> g.stride % PerByte(g.format) == 0)
  }

  /** setpixel */
  function Put(g: Geometry, s: seq<Byte>, x: nat, y: nat, c: Colour): (r: seq<Byte>)
    requires Reaches(g, |s|, x, y)
    ensures |r| == |s|
  {
    var i := Index(g, x, y);
    if g.format == RGB565 then s[i := Low8(c)][i + 1 := Low8(c >> 8)]
    else s[i := SetSlot(g.format, s[i], Slot(g, x, y), Shade(g.format, c))]
  }

  /** getpixel */
  function Get(g: Geometry, s: seq<Byte>, x: nat, y: nat): Colour
    requires Reaches(g, |s|, x, y)
  {
    var i := Index(g, x, y);
    if g.format == RGB565 then s[i] as Colour | (s[i + 1] as Colour << 8)
    else GetSlot(g.format, s[i], Slot(g, x, y)) as Colour
  }

  /** Two pixels never share a slot. */
  predicate Apart(g: Geometry, x: nat, y: nat, i: nat, j: nat) {
    Index(g, x, y) != Index(g, i, j) || Slot(g, x, y) != Slot(g, i, j)
  }

  lemma RowIndex(g: Geometry, x: nat, y: nat)
    requires g.format != MVLSB && g.format != RGB565 && g.stride % PerByte(g.format) == 0
    ensures Index(g, x, y) == x / PerByte(g.format) + y * (g.stride / PerByte(g.format))
  {
    var p := PerByte(g.format);
    var m := g.stride / p;
    assert g.stride == p * m;
    assert x + y * g.stride == p * (x / p + y * m) + x % p;
    DivModUnique(x + y * g.stride, p, x / p + y * m, x % p);
  }

  /** A place in a row of n, and the row: the pair is determined by its flat position. */
  lemma RowsDisjoint(n: nat, a: nat, r: nat, b: nat, q: nat)
    requires a < n && b < n && a + r * n == b + q * n
    ensures a == b && r == q
  {
    DivModUnique(a + r * n, n, r, a);
    DivModUnique(b + q * n, n, q, b);
  }

  lemma ByteRowsApart(g: Geometry, x: nat, y: nat, i: nat, j: nat)
    requires g.format != MVLSB && g.format != RGB565 && Sound(g)
    requires InFrame(g, x, y) && InFrame(g, i, j) && Index(g, x, y) == Index(g, i, j)
    ensures y == j
  {
    var p := PerByte(g.format);
    var m := g.stride / p;
    RowIndex(g, x, y);
    RowIndex(g, i, j);
    assert x / p < m && i / p < m;
    RowsDisjoint(m, x / p, y, i / p, j);
  }

  lemma SameRowApart(g: Geometry, x: nat, i: nat, y: nat)
    requires x != i && (g.format != MVLSB ==> g.stride % PerByte(g.format) == 0)
    ensures Apart(g, x, y, i, y)
  {
    if g.format != MVLSB && g.format != RGB565 {
      RowIndex(g, x, y);
      RowIndex(g, i, y);
    }
  }

  lemma PixelsApart(g: Geometry, x: nat, y: nat, i: nat, j: nat)
    requires Sound(g) || (y == 0 == j && (g.format != MVLSB ==> g.stride % PerByte(g.format) == 0))
    requires InFrame(g, x, y) && InFrame(g, i, j) && (x, y) != (i, j)
    ensures Apart(g, x, y, i, j)
  {
    if y == j {
      SameRowApart(g, x, i, y);
    } else if Index(g, x, y) == Index(g, i, j) {
      if g.format == MVLSB {
        RowsDisjoint(g.stride, x, y / 8, i, j / 8);
      } else if g.format == RGB565 {
        RowsDisjoint(g.stride, x, y, i, j);
      } else {
        ByteRowsApart(g, x, y, i, j);
      }
    }
  }

  /** The 2D array law: a written pixel reads back truncated to the format and every other
      pixel of the frame keeps its colour. */
  lemma PutGet(g: Geometry, s: seq<Byte>, x: nat, y: nat, c: Colour, i: nat, j: nat)
    requires Sound(g) && Fits(g, |s|) && InFrame(g, x, y) && InFrame(g, i, j)
    ensures Get(g, Put(g, s, x, y, c), i, j)
         == if (i, j) == (x, y) then Truncate(g.format, c) else Get(g, s, i, j)
  {
    if (i, j) != (x, y) { PixelsApart(g, x, y, i, j); }
    PutGetApart(g, s, x, y, c, i, j);
  }

  /** The law for two pixels, whatever the geometry: it is enough that they do not share a slot. */
  lemma PutGetApart(g: Geometry, s: seq<Byte>, x: nat, y: nat, c: Colour, i: nat, j: nat)
    requires Reaches(g, |s|, x, y) && Reaches(g, |s|, i, j)
    requires (i, j) == (x, y) || Apart(g, x, y, i, j)
    ensures Get(g, Put(g, s, x, y, c), i, j)
         == if (i, j) == (x, y) then Truncate(g.format, c) else Get(g, s, i, j)
  {
    if g.format != RGB565 {
      ShadeFits(g.format, c);
      SlotsAreIndependent(g.format, s[Index(g, x, y)], Slot(g, x, y), Shade(g.format, c), Slot(g, i, j));
    } else if (i, j) == (x, y) {
      assert Low8(c) as Colour | (Low8(c >> 8) as Colour << 8) == c & 0xffff;
    }
  }

  lemma PutBackIsTruncated(g: Geometry, s: seq<Byte>, x: nat, y: nat)
    requires Reaches(g, |s|, x, y)
    ensures Truncate(g.format, Get(g, s, x, y)) == Get(g, s, x, y)
  {
    hide Index;
    if g.format != RGB565 {
      GetIsTruncated(g.format, s[Index(g, x, y)], Slot(g, x, y));
    }
  }

  // ---------- where a pixel is, bit by bit ----------

  /** The byte and the number of bits above which a pixel is kept, and how many bits it has. */
  function Place(g: Geometry, x: nat, y: nat): (nat, nat, nat) {
    match g.format
    case MVLSB => (y / 8 * g.stride + x, y % 8, 1)
    case MHLSB => ((x + y * g.stride) / 8, 7 - x % 8, 1)
    case MHMSB => ((x + y * g.stride) / 8, x % 8, 1)
    case GS2_HMSB => ((x + y * g.stride) / 4, 2 * (x % 4), 2)
    case GS4_HMSB => ((x + y * g.stride) / 2, 4 * (1 - x % 2), 4)
    case GS8 => (x + y * g.stride, 0, 8)
    case RGB565 => (2 * (x + y * g.stride), 0, 16)
  }

  /** n ones. */
  function Ones(n: nat): Byte
    requires n <= 8
  {
    if n == 1 then 1 else if n == 2 then 3 else if n == 4 then 15 else 255
  }

  /** The n bits of a byte above k others. */
  function Field(b: Byte, k: nat, n: nat): Byte
    requires k + n <= 8
  {
    (b >> k) & Ones(n)
  }

  function WithField(b: Byte, k: nat, n: nat, v: Byte): Byte
    requires k + n <= 8
  {
    (b & !(Ones(n) << k)) | (v << k)
  }

  /** What a colour is cut down to: on or off, or its low bits. */
  function Kept(f: Format, n: nat, c: Colour): Byte
    requires n <= 8
  {
    if Mono(f) then (if c != 0 then 1 else 0) else (c & 0xff) as Byte & Ones(n)
  }

  /** A pixel of up to eight bits is read and written by shifting and masking its byte. */
  lemma PixelBitsAre(g: Geometry, s: seq<Byte>, x: nat, y: nat, c: Colour)
    requires g.format != RGB565 && Reaches(g, |s|, x, y)
    ensures var (i, k, n) := Place(g, x, y);
            && i < |s| && k + n <= 8
            && Get(g, s, x, y) == Field(s[i], k, n) as Colour
            && Put(g, s, x, y, c) == s[i := WithField(s[i], k, n, Kept(g.format, n, c))]
  {
    hide GetSlot, SetSlot, Field, WithField, Kept, Shade;
    var (i, k, n) := Place(g, x, y);
    PlaceIs(g, x, y);
    ShadeIsKept(g.format, n, c);
    ShadeFits(g.format, c);
    SlotIsField(g.format, s[i], Slot(g, x, y), Kept(g.format, n, c));
  }

  function ShiftOf(f: Format, slot: nat): int {
    if Mono(f) then slot else if f == GS2_HMSB then 2 * slot else if f == GS4_HMSB then 4 * (1 - slot) else 0
  }

  lemma PlaceIs(g: Geometry, x: nat, y: nat)
    requires g.format != RGB565
    ensures var (i, k, n) := Place(g, x, y);
            i == Index(g, x, y) && k == ShiftOf(g.format, Slot(g, x, y)) && n == 8 / PerByte(g.format)
  {}

  lemma ShadeIsKept(f: Format, n: nat, c: Colour)
    requires f != RGB565 && n == 8 / PerByte(f)
    ensures Shade(f, c) == Kept(f, n, c)
  {}

  lemma SlotIsField(f: Format, b: Byte, slot: nat, v: Byte)
    requires f != RGB565 && slot < PerByte(f)
    ensures var (k, n) := (ShiftOf(f, slot), 8 / PerByte(f));
            && 0 <= k && k + n <= 8
            && GetSlot(f, b, slot) == Field(b, k, n)
            && (PixelBits(f, v) ==> SetSlot(f, b, slot, v) == WithField(b, k, n, v))
  {
    hide GetSlot, SetSlot, Field, WithField, PixelBits;
    if Mono(f) {
      MonoField(f, b, slot, v);
    } else if f == GS2_HMSB {
      PairField(b, slot, v);
    } else if f == GS4_HMSB {
      NibbleField(b, slot, v);
    } else {
      ByteField(b, v);
    }
  }

  lemma MonoField(f: Format, b: Byte, k: nat, v: Byte)
    requires Mono(f) && k < 8
    ensures GetSlot(f, b, k) == Field(b, k, 1)
    ensures PixelBits(f, v) ==> SetSlot(f, b, k, v) == WithField(b, k, 1, v)
  {
    hide Bit, WithBit, Field, WithField;
    BitRead(b, k);
    BitWritten(b, k, v != 0);
  }

  lemma PairField(b: Byte, k: nat, v: Byte)
    requires k < 4
    ensures GetSlot(GS2_HMSB, b, k) == Field(b, 2 * k, 2)
    ensures SetSlot(GS2_HMSB, b, k, v) == WithField(b, 2 * k, 2, v)
  {
    hide PairAt, PairOf, Field, WithField;
    PairRead(b, k);
    PairWritten(b, k, v);
  }

  lemma NibbleField(b: Byte, k: nat, v: Byte)
    requires k < 2
    ensures GetSlot(GS4_HMSB, b, k) == Field(b, 4 * (1 - k), 4)
    ensures PixelBits(GS4_HMSB, v) ==> SetSlot(GS4_HMSB, b, k, v) == WithField(b, 4 * (1 - k), 4, v)
  {
    NibbleBits(b, v);
    if k == 0 {} else {}
  }

  lemma ByteField(b: Byte, v: Byte)
    ensures GetSlot(GS8, b, 0) == Field(b, 0, 8)
    ensures SetSlot(GS8, b, 0, v) == WithField(b, 0, 8, v)
  {
    WholeByte(b, v);
  }

  lemma BitRead(b: Byte, k: nat)
    requires k < 8
    ensures (if b & Bit(k) != 0 then 1 else 0) == Field(b, k, 1)
  {
    if k == 0 {} else if k == 1 {} else if k == 2 {} else if k == 3 {}
    else if k == 4 {} else if k == 5 {} else if k == 6 {} else {}
  }

  lemma BitIsShift(k: nat)
    requires k < 8
    ensures Bit(k) == 1 << k && (0 as Byte) << k == 0
  {}

  lemma BitWritten(b: Byte, k: nat, on: bool)
    requires k < 8
    ensures WithBit(b, k, on) == WithField(b, k, 1, if on then 1 else 0)
  {
    hide Bit;
    BitIsShift(k);
  }

  lemma PairRead(b: Byte, k: nat)
    requires k < 4
    ensures PairOf(b, k) == Field(b, 2 * k, 2)
  {
    if k == 0 {} else if k == 1 {} else if k == 2 {} else {}
  }

  lemma PairWritten(b: Byte, k: nat, c: Byte)
    requires k < 4
    ensures PairAt(c, k) | (b & !PairAt(3, k)) == WithField(b, 2 * k, 2, c)
  {
    if k == 0 {} else if k == 1 {} else if k == 2 {} else {}
  }

  lemma NibbleBits(b: Byte, c: Byte)
    ensures b & 0x0f == (b >> 0) & 15 && b >> 4 == (b >> 4) & 15
    ensures c & 0xf0 == 0 ==> (c & 0x0f) | (b & 0xf0) == (b & !(15 << 0)) | (c << 0)
    ensures (c << 4) | (b & 0x0f) == (b & !(15 << 4)) | (c << 4)
  {}

  lemma WholeByte(b: Byte, c: Byte)
    ensures (b >> 0) & 255 == b && (b & !(255 << 0)) | (c << 0) == c
  {}

  /** A 16-bit pixel is the low byte, then the high one. */
  lemma WordPixelIs(g: Geometry, s: seq<Byte>, x: nat, y: nat, c: Colour)
    requires g.format == RGB565 && Reaches(g, |s|, x, y)
    ensures var i := 2 * (x + y * g.stride);
            && i + 1 < |s|
            && Get(g, s, x, y) == s[i] as Colour + 256 * s[i + 1] as Colour
            && Put(g, s, x, y, c) == s[i := (c & 0xff) as Byte][i + 1 := ((c >> 8) & 0xff) as Byte]
  {
    var i := 2 * (x + y * g.stride);
    TwoBytes(s[i] as Colour, s[i + 1] as Colour);
  }

  lemma TwoBytes(a: Colour, b: Colour)
    requires a < 256 && b < 256
    ensures a | (b << 8) == a + 256 * b
  {}

  // ---------- construction ----------

  const FORMAT_CODES: map<int, Format> :=
    map[0 := MVLSB, 1 := RGB565, 2 := GS4_HMSB, 3 := MHLSB, 4 := MHMSB, 5 := GS2_HMSB, 6 := GS8]

  function RoundTo(n: nat, p: nat): (r: nat)
    requires p > 0
    ensures n <= r < n + p
  {
    (n + p - 1) / p * p
  }

  function BitsPerPixel(f: Format): nat {
    match f
    case GS2_HMSB => 2 case GS4_HMSB => 4 case GS8 => 8 case RGB565 => 16
    case _ => 1
  }

  /** The stride before it is stored in its 16-bit field. */
  function RoundedStride(f: Format, stride: nat): nat {
    if f == MVLSB then stride else RoundTo(stride, PerByte(f))
  }

  lemma RoundedRows(height: nat)
    requires height >= 1
    ensures RoundTo(height, 8) >= 8
  {}

  /** `strides` full rows of `stride` and `left` rows of `cols`. */
  function Pixels(strides: nat, stride: nat, left: nat, cols: nat): nat {
    strides * stride + left * cols
  }

  /** The bytes that the constructor asks of the buffer. */
  function BytesRequired(f: Format, width: nat, height: nat, stride: nat): nat
    requires height >= 1
  {
    var rows := if f == MVLSB then RoundTo(height, 8) else height;
    var cols := if f == MVLSB then width else RoundTo(width, PerByte(f));
    var strides: nat := if f == MVLSB then RoundedRows(height); rows - 8 else height - 1;
    var left: nat := rows - strides;
    Pixels(strides, RoundedStride(f, stride), left, cols) * BitsPerPixel(f) / 8
  }

  /** framebuf_make_new: the checks, and the fields of the object it makes. */
  function MakeNew(width: int, height: int, code: int, stride: int, len: nat): Result<Geometry, ()> {
    if width < 1 || height < 1 || width > 0xffff || height > 0xffff || stride > 0xffff || stride < width
    then Err(())
    else if code !in FORMAT_CODES then Err(())
    else
      var f := FORMAT_CODES[code];
      if BytesRequired(f, width, height, stride) > len then Err(())
      else Ok(Geometry(f, width, height, RoundedStride(f, stride) % 0x1_0000))
  }

  lemma RoundExact(n: nat, p: nat)
    requires p > 0
    ensures RoundTo(n, p) % p == 0 && (RoundTo(n, p) / p) * p == RoundTo(n, p)
  {
    DivModUnique(RoundTo(n, p), p, (n + p - 1) / p, 0);
  }

  /** A stride that wraps to 0 lets rows overlap but cannot push a pixel further out. */
  lemma StoredStride(f: Format, stride: nat)
    requires stride <= 0xffff
    ensures var r := RoundedStride(f, stride);
            && r <= 0x1_0000
            && (r <= 0xffff ==> r % 0x1_0000 == r >= stride)
            && (r == 0x1_0000 ==> r % 0x1_0000 == 0)
            && (f != MVLSB ==> r % 0x1_0000 % PerByte(f) == 0)
  {
    RoundExact(stride, PerByte(f));
  }

  lemma BandBytes(bands: nat, stride: nat, width: nat)
    requires bands >= 1
    ensures Pixels(8 * bands - 8, stride, 8, width) * 1 / 8 == (bands - 1) * stride + width
  {
    assert (8 * bands - 8) * stride == 8 * ((bands - 1) * stride);
  }

  lemma FlatBytes(f: Format, pos: nat, rows: nat, stride: nat, width: nat)
    requires f != MVLSB && stride % PerByte(f) == 0
    requires pos < rows * stride + width
    ensures pos / PerByte(f) * PixelBytes(f) + PixelBytes(f)
         <= Pixels(rows, stride, 1, RoundTo(width, PerByte(f))) * BitsPerPixel(f) / 8
  {
    var p := PerByte(f);
    RoundExact(width, p);
    var m, w := stride / p, RoundTo(width, p) / p;
    assert stride == p * m && RoundTo(width, p) == p * w;
    Factor(rows, p, m, w);
    ByteBound(f, pos, rows * m + w);
  }

  lemma Factor(rows: nat, p: nat, m: nat, w: nat)
    ensures Pixels(rows, p * m, 1, p * w) == p * (rows * m + w)
  {}

  lemma ByteBound(f: Format, pos: nat, bytes: nat)
    requires f != MVLSB && pos < PerByte(f) * bytes
    ensures pos / PerByte(f) * PixelBytes(f) + PixelBytes(f)
         <= PerByte(f) * bytes * BitsPerPixel(f) / 8
  {}

  lemma RowStart(x: nat, y: nat, width: nat, height: nat, stride: nat, full: nat)
    requires x < width && y < height && stride <= full
    ensures x + y * stride < (height - 1) * full + width
  {
    MulMonotone(stride, y, height - 1);
    MulMonotone(height - 1, stride, full);
  }

  lemma BandsFit(g: Geometry, len: nat, x: nat, y: nat)
    requires g.format == MVLSB && InFrame(g, x, y)
    requires BytesRequired(MVLSB, g.width, g.height, g.stride) <= len
    ensures Reaches(g, len, x, y)
  {
    var bands := RoundTo(g.height, 8) / 8;
    RoundExact(g.height, 8);
    BandBytes(bands, g.stride, g.width);
    RowStart(x, y / 8, g.width, bands, g.stride, g.stride);
  }

  lemma RowsFit(g: Geometry, full: nat, len: nat, x: nat, y: nat)
    requires g.format != MVLSB && InFrame(g, x, y)
    requires g.stride <= full && full % PerByte(g.format) == 0
    requires Pixels(g.height - 1, full, 1, RoundTo(g.width, PerByte(g.format))) * BitsPerPixel(g.format) / 8 <= len
    ensures Reaches(g, len, x, y)
  {
    hide Pixels, RoundTo;
    RowStart(x, y, g.width, g.height, g.stride, full);
    FlatBytes(g.format, x + y * g.stride, g.height - 1, full, g.width);
  }

  /** Every frame buffer the constructor accepts keeps every in-frame pixel in its buffer. */
  lemma AcceptedFits(width: int, height: int, code: int, stride: int, len: nat, x: nat, y: nat)
    requires MakeNew(width, height, code, stride, len).Ok?
    requires InFrame(MakeNew(width, height, code, stride, len).value, x, y)
    ensures Reaches(MakeNew(width, height, code, stride, len).value, len, x, y)
  {
    var g := MakeNew(width, height, code, stride, len).value;
    StoredStride(g.format, stride);
    if g.format == MVLSB {
      BandsFit(g, len, x, y);
    } else {
      RoundExact(stride, PerByte(g.format));
      RowsFit(g, RoundedStride(g.format, stride), len, x, y);
    }
  }

  /** The stored stride is sound exactly when the rounded stride fits its 16-bit field. */
  lemma AcceptedSound(width: int, height: int, code: int, stride: int, len: nat)
    requires MakeNew(width, height, code, stride, len).Ok?
    ensures var g := MakeNew(width, height, code, stride, len).value;
            Sound(g) <==> RoundedStride(g.format, stride) <= 0xffff
  {
    StoredStride(FORMAT_CODES[code], stride);
  }

  /** Setting and getting pixels in a buffer of this length is setting and getting the elements of
      a two-dimensional array. */
  ghost predicate ArrayLaw(g: Geometry, len: nat) {
    && Fits(g, len)
    && forall s: seq<Byte>, x: nat, y: nat, c: Colour, i: nat, j: nat ::
         |s| == len && InFrame(g, x, y) && InFrame(g, i, j) ==>
           Get(g, Put(g, s, x, y, c), i, j) == if (i, j) == (x, y) then Truncate(g.format, c) else Get(g, s, i, j)
  }

  /** An accepted frame buffer is a two-dimensional array exactly when the rounded stride fits its
      field or there is only one row: otherwise the stored stride is 0 and the rows lie on top of
      each other. */
  lemma AcceptedIndependent(width: int, height: int, code: int, stride: int, len: nat)
    requires MakeNew(width, height, code, stride, len).Ok?
    ensures var g := MakeNew(width, height, code, stride, len).value;
            ArrayLaw(g, len) <==> RoundedStride(g.format, stride) <= 0xffff || height == 1
  {
    hide Put, Get, MakeNew, Truncate;
    var g := MakeNew(width, height, code, stride, len).value;
    AcceptedShape(width, height, code, stride, len);
    StoredStride(g.format, stride);
    forall x: nat, y: nat | InFrame(g, x, y) ensures Reaches(g, len, x, y) {
      AcceptedFits(width, height, code, stride, len, x, y);
    }
    if RoundedStride(g.format, stride) <= 0xffff || height == 1 {
      forall s: seq<Byte>, x: nat, y: nat, c: Colour, i: nat, j: nat
        | |s| == len && InFrame(g, x, y) && InFrame(g, i, j)
        ensures Get(g, Put(g, s, x, y, c), i, j) == if (i, j) == (x, y) then Truncate(g.format, c) else Get(g, s, i, j)
      {
        if (i, j) != (x, y) { PixelsApart(g, x, y, i, j); }
        PutGetApart(g, s, x, y, c, i, j);
      }
    } else {
      RowsCoincide(g, len);
    }
  }

  lemma AcceptedShape(width: int, height: int, code: int, stride: int, len: nat)
    requires MakeNew(width, height, code, stride, len).Ok?
    ensures var g := MakeNew(width, height, code, stride, len).value;
            && g.width == width > 0 && g.height == height > 0 && width <= stride <= 0xffff
            && g.stride == RoundedStride(g.format, stride) % 0x1_0000
  {
  }

  /** With a stride of 0 a pixel of the first row is also the pixel below it. */
  lemma RowsCoincide(g: Geometry, len: nat)
    requires g.stride == 0 && g.format != MVLSB && 0 < g.width && 1 < g.height && Fits(g, len)
    ensures !ArrayLaw(g, len)
  {
    hide Put, Get;
    var s := seq(len, _ => 0 as Byte);
    assert InFrame(g, 0, 0) && InFrame(g, 0, 1);
    SameSlot(g, s);
    assert Get(g, Put(g, s, 0, 0, 1), 0, 1) != Get(g, s, 0, 1);
  }

  lemma SameSlot(g: Geometry, s: seq<Byte>)
    requires g.stride == 0 && g.format != MVLSB && Reaches(g, |s|, 0, 0) && Reaches(g, |s|, 0, 1)
    requires forall k :: 0 <= k < |s| ==> s[k] == 0
    ensures Get(g, Put(g, s, 0, 0, 1), 0, 1) == 1 && Get(g, s, 0, 1) == 0
  {
    PutGetApart(g, s, 0, 0, 1, 0, 0);
    assert Index(g, 0, 1) == Index(g, 0, 0) && Slot(g, 0, 1) == Slot(g, 0, 0);
    assert Truncate(g.format, 1) == 1;
  }

  /** A frame of two rows whose stride wraps is accepted. */
  lemma StrideWraps()
    ensures MakeNew(1, 2, 3, 65535, 8193) == Ok(Geometry(MHLSB, 1, 2, 0))
    ensures !ArrayLaw(Geometry(MHLSB, 1, 2, 0), 8193)
  {
    assert RoundTo(65535, 8) == 65536 && RoundTo(1, 8) == 8;
    AcceptedIndependent(1, 2, 3, 65535, 8193);
  }

  /** The numbers of the formats. */
  predicate Numbered(code: int, f: Format) {
    match f
    case MVLSB => code == 0
    case RGB565 => code == 1
    case GS4_HMSB => code == 2
    case MHLSB => code == 3
    case MHMSB => code == 4
    case GS2_HMSB => code == 5
    case GS8 => code == 6
  }

  /** The constructor asks for exactly the bytes up to and including that of the last pixel. */
  lemma LastByte(f: Format, width: nat, height: nat, stride: nat)
    requires 1 <= width && 1 <= height
    ensures var g := Geometry(f, width, height, RoundedStride(f, stride));
            BytesRequired(f, width, height, stride) == Index(g, width - 1, height - 1) + PixelBytes(f)
  {
    var g := Geometry(f, width, height, RoundedStride(f, stride));
    if f == MVLSB {
      var bands := RoundTo(height, 8) / 8;
      RoundExact(height, 8);
      assert bands == (height - 1) / 8 + 1;
      BandBytes(bands, stride, width);
    } else {
      var p := PerByte(f);
      RoundExact(stride, p);
      RoundExact(width, p);
      var m, w := g.stride / p, RoundTo(width, p) / p;
      Factor(height - 1, p, m, w);
      LastInRow(width, p);
      WholeBytes(f, (height - 1) * m + w);
      if f == RGB565 {
        assert m == g.stride && w == width;
      } else {
        RowIndex(g, width - 1, height - 1);
      }
    }
  }

  lemma WholeBytes(f: Format, n: nat)
    requires f != MVLSB
    ensures PerByte(f) * n * BitsPerPixel(f) / 8 == n * PixelBytes(f)
  {}

  lemma LastInRow(width: nat, p: nat)
    requires 1 <= width && 1 <= p
    ensures RoundTo(width, p) / p == (width - 1) / p + 1
  {
    var q, r := (width - 1) / p, (width - 1) % p;
    assert width + p - 1 == p * (q + 1) + r;
    DivModUnique(width + p - 1, p, q + 1, r);
    DivModUnique((q + 1) * p, p, q + 1, 0);
  }

  /** Accepted are exactly the sizes, strides and formats in range whose last pixel, at the rounded
      stride, is inside the buffer. */
  lemma AcceptedExactly(width: int, height: int, code: int, stride: int, len: nat, f: Format)
    requires Numbered(code, f)
    ensures MakeNew(width, height, code, stride, len).Ok? <==>
            && 1 <= width <= stride <= 0xffff && 1 <= height <= 0xffff
            && Reaches(Geometry(f, width, height, RoundedStride(f, stride)), len, width - 1, height - 1)
    ensures MakeNew(width, height, code, stride, len).Ok? ==>
            MakeNew(width, height, code, stride, len).value == Geometry(f, width, height, RoundedStride(f, stride) % 0x1_0000)
  {
    hide BytesRequired, Index, RoundedStride;
    if 1 <= width <= stride <= 0xffff && 1 <= height <= 0xffff { LastByte(f, width, height, stride); }
  }

  /** No other number is a format. */
  lemma UnknownFormat(width: int, height: int, code: int, stride: int, len: nat)
    requires code < 0 || code > 6
    ensures MakeNew(width, height, code, stride, len).Err?
  {
  }

  /** What every drawing operation asks of a frame buffer, the constructor gives exactly when the
      rounded stride fits its field. */
  lemma AcceptedValid(width: int, height: int, code: int, stride: int, len: nat)
    requires MakeNew(width, height, code, stride, len).Ok?
    ensures var g := MakeNew(width, height, code, stride, len).value;
            && 0 < g.width && 0 < g.height && Fits(g, len)
            && (Sound(g) <==> RoundedStride(g.format, stride) <= 0xffff)
  {
    hide MakeNew, Sound;
    var g := MakeNew(width, height, code, stride, len).value;
    AcceptedShape(width, height, code, stride, len);
    AcceptedSound(width, height, code, stride, len);
    forall x: nat, y: nat | InFrame(g, x, y) ensures Reaches(g, len, x, y) {
      AcceptedFits(width, height, code, stride, len, x, y);
    }
  }

  // ---------- the object ----------

  /** A frame buffer object: geometry fixed at construction, bytes changed in place. */
  class FrameBuffer {
    const g: Geometry
    const buf: array<Byte>

    constructor (g: Geometry, buf: array<Byte>)
      ensures this.g == g && this.buf == buf
    {
      this.g := g;
      this.buf := buf;
    }

    ghost predicate Valid() { Sound(g) && 0 < g.width && 0 < g.height && Fits(g, buf.Length) }

    method SetPixel(x: nat, y: nat, c: Colour)
      requires Reaches(g, buf.Length, x, y)
      modifies buf
      ensures buf[..] == Put(g, old(buf[..]), x, y, c)
    {
      var i := Index(g, x, y);
      if g.format == RGB565 {
        buf[i] := Low8(c);
        buf[i + 1] := Low8(c >> 8);
      } else {
        buf[i] := SetSlot(g.format, buf[i], Slot(g, x, y), Shade(g.format, c));
      }
    }

    method GetPixel(x: nat, y: nat) returns (c: Colour)
      requires Reaches(g, buf.Length, x, y)
      ensures c == Get(g, buf[..], x, y)
    {
      var i := Index(g, x, y);
      if g.format == RGB565 {
        c := buf[i] as Colour | (buf[i + 1] as Colour << 8);
      } else {
        c := GetSlot(g.format, buf[i], Slot(g, x, y)) as Colour;
      }
    }
  }

  /** framebuf_make_new: refuses, or makes an object that is ready for drawing exactly when the
      rounded stride fits its field. */
  method Make(buf: array<Byte>, width: int, height: int, code: int, stride: int) returns (r: Result<FrameBuffer, ()>)
    ensures r.Ok? <==> MakeNew(width, height, code, stride, buf.Length).Ok?
    ensures r.Ok? ==> r.value.buf == buf && Ok(r.value.g) == MakeNew(width, height, code, stride, buf.Length)
    ensures r.Ok? ==> (r.value.Valid() <==> RoundedStride(r.value.g.format, stride) <= 0xffff)
  {
    var g := MakeNew(width, height, code, stride, buf.Length);
    if g.Err? { return Err(()); }
    AcceptedValid(width, height, code, stride, buf.Length);
    var fb := new FrameBuffer(g.value, buf);
    r := Ok(fb);
  }
}
