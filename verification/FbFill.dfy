/** The fast rectangle fills of extmod/modframebuf.c. Each walks its format's bytes directly and
    is proved equal to setting the rectangle's pixels one by one. */
module FbFill {
  import opened Common
  import opened FbPixels

  // ---------- the slow fill ----------

  /** Sets w pixels of row y from x on. */
  ghost function PutRow(g: Geometry, s: seq<Byte>, x: nat, y: nat, w: nat, c: Colour): (r: seq<Byte>)
    requires Fits(g, |s|) && x + w <= g.width && y < g.height
    ensures |r| == |s|
    decreases w
  {
    if w == 0 then s else
      assert InFrame(g, x + w - 1, y);
      Put(g, PutRow(g, s, x, y, w - 1, c), x + w - 1, y, c)
  }

  ghost function PutRows(g: Geometry, s: seq<Byte>, x: nat, y: nat, w: nat, h: nat, c: Colour): (r: seq<Byte>)
    requires Fits(g, |s|) && x + w <= g.width && y + h <= g.height
    ensures |r| == |s|
    decreases h
  {
    if h == 0 then s else PutRow(g, PutRows(g, s, x, y, w, h - 1, c), x, y + h - 1, w, c)
  }

  /** Sets h pixels of column x from y on. */
  ghost function PutColumn(g: Geometry, s: seq<Byte>, x: nat, y: nat, h: nat, c: Colour): (r: seq<Byte>)
    requires Fits(g, |s|) && x < g.width && y + h <= g.height
    ensures |r| == |s|
    decreases h
  {
    if h == 0 then s else
      assert InFrame(g, x, y + h - 1);
      Put(g, PutColumn(g, s, x, y, h - 1, c), x, y + h - 1, c)
  }

  ghost function PutColumns(g: Geometry, s: seq<Byte>, x: nat, y: nat, w: nat, h: nat, c: Colour): (r: seq<Byte>)
    requires Fits(g, |s|) && x + w <= g.width && y + h <= g.height
    ensures |r| == |s|
    decreases w
  {
    if w == 0 then s else PutColumn(g, PutColumns(g, s, x, y, w - 1, h, c), x + w - 1, y, h, c)
  }

  lemma {:induction false} RowGet(g: Geometry, s: seq<Byte>, x: nat, y: nat, w: nat, c: Colour, i: nat, j: nat)
    requires Sound(g) && Fits(g, |s|) && x + w <= g.width && y < g.height && InFrame(g, i, j)
    ensures Get(g, PutRow(g, s, x, y, w, c), i, j)
         == if j == y && x <= i < x + w then Truncate(g.format, c) else Get(g, s, i, j)
    decreases w
  {
    hide Put, Get, Index, Slot, Reaches, Truncate;
    if w == 0 {
    } else {
      RowGet(g, s, x, y, w - 1, c, i, j);
      PutGet(g, PutRow(g, s, x, y, w - 1, c), x + w - 1, y, c, i, j);
    }
  }

  lemma {:induction false} RowsGet(g: Geometry, s: seq<Byte>, x: nat, y: nat, w: nat, h: nat, c: Colour, i: nat, j: nat)
    requires Sound(g) && Fits(g, |s|) && x + w <= g.width && y + h <= g.height && InFrame(g, i, j)
    ensures Get(g, PutRows(g, s, x, y, w, h, c), i, j)
         == if x <= i < x + w && y <= j < y + h then Truncate(g.format, c) else Get(g, s, i, j)
    decreases h
  {
    hide Put, Get, Index, Slot, Reaches, Truncate;
    if h == 0 {
    } else {
      RowsGet(g, s, x, y, w, h - 1, c, i, j);
      RowGet(g, PutRows(g, s, x, y, w, h - 1, c), x, y + h - 1, w, c, i, j);
    }
  }

  lemma {:induction false} ColumnGet(g: Geometry, s: seq<Byte>, x: nat, y: nat, h: nat, c: Colour, i: nat, j: nat)
    requires Sound(g) && Fits(g, |s|) && x < g.width && y + h <= g.height && InFrame(g, i, j)
    ensures Get(g, PutColumn(g, s, x, y, h, c), i, j)
         == if i == x && y <= j < y + h then Truncate(g.format, c) else Get(g, s, i, j)
    decreases h
  {
    hide Put, Get, Index, Slot, Reaches, Truncate;
    if h == 0 {
    } else {
      ColumnGet(g, s, x, y, h - 1, c, i, j);
      PutGet(g, PutColumn(g, s, x, y, h - 1, c), x, y + h - 1, c, i, j);
    }
  }

  lemma {:induction false} ColumnsGet(g: Geometry, s: seq<Byte>, x: nat, y: nat, w: nat, h: nat, c: Colour, i: nat, j: nat)
    requires Sound(g) && Fits(g, |s|) && x + w <= g.width && y + h <= g.height && InFrame(g, i, j)
    ensures Get(g, PutColumns(g, s, x, y, w, h, c), i, j)
         == if x <= i < x + w && y <= j < y + h then Truncate(g.format, c) else Get(g, s, i, j)
    decreases w
  {
    hide Put, Get, Index, Slot, Reaches, Truncate;
    if w == 0 {
    } else {
      ColumnsGet(g, s, x, y, w - 1, h, c, i, j);
      ColumnGet(g, PutColumns(g, s, x, y, w - 1, h, c), x + w - 1, y, h, c, i, j);
    }
  }

  // ---------- the fast fills ----------

  /** Where the fast fills find the byte of a pixel, and what setpixel does there. */
  lemma MonoHorizPut(g: Geometry, s: seq<Byte>, x: nat, y: nat, c: Colour)
    requires (g.format == MHLSB || g.format == MHMSB) && Sound(g) && Fits(g, |s|) && InFrame(g, x, y)
    ensures var b := x / 8 + y * (g.stride / 8);
            var k := if g.format == MHMSB then x % 8 else 7 - x % 8;
            b < |s| && Reaches(g, |s|, x, y) &&
            Put(g, s, x, y, c) == s[b := WithBit(s[b], k, c != 0)]
  {
    RowIndex(g, x, y);
  }

  lemma MvlsbPut(g: Geometry, s: seq<Byte>, x: nat, y: nat, c: Colour)
    requires g.format == MVLSB && Fits(g, |s|) && InFrame(g, x, y)
    ensures var b := y / 8 * g.stride + x;
            b < |s| && Reaches(g, |s|, x, y) &&
            Put(g, s, x, y, c) == s[b := WithBit(s[b], y % 8, c != 0)]
  {}

  /** Cell number of pixel (x, y) where every pixel has a cell of its own. */
  function Flat(g: Geometry, x: nat, y: nat): nat { x + y * g.stride }

  lemma FlatStep(g: Geometry, x: nat, y: nat)
    ensures Flat(g, x + 1, y) == Flat(g, x, y) + 1 && Flat(g, x, y + 1) == Flat(g, x, y) + g.stride
  {}

  lemma FlatAdd(g: Geometry, x: nat, y: nat, w: nat)
    ensures Flat(g, x + w, y) == Flat(g, x, y) + w
  {}

  lemma Rgb565Put(g: Geometry, s: seq<Byte>, x: nat, y: nat, c: Colour)
    requires g.format == RGB565 && Fits(g, |s|) && InFrame(g, x, y)
    ensures var b := Flat(g, x, y);
            2 * b + 1 < |s| && Reaches(g, |s|, x, y) &&
            Put(g, s, x, y, c) == s[2 * b := Low8(c)][2 * b + 1 := Low8(c >> 8)]
  {}

  lemma Gs8Put(g: Geometry, s: seq<Byte>, x: nat, y: nat, c: Colour)
    requires g.format == GS8 && Fits(g, |s|) && InFrame(g, x, y)
    ensures var b := Flat(g, x, y);
            b < |s| && Reaches(g, |s|, x, y) && Put(g, s, x, y, c) == s[b := Low8(c)]
  {}

  lemma Gs4Put(g: Geometry, s: seq<Byte>, x: nat, y: nat, c: Colour)
    requires g.format == GS4_HMSB && Sound(g) && Fits(g, |s|) && InFrame(g, x, y)
    ensures var b := x / 2 + y * (g.stride / 2);
            var n := Shade(GS4_HMSB, c);
            b < |s| && Reaches(g, |s|, x, y) &&
            Put(g, s, x, y, c) == s[b := if x % 2 == 1 then (n & 0x0f) | (s[b] & 0xf0) else (n << 4) | (s[b] & 0x0f)]
  {
    RowIndex(g, x, y);
  }

  /** One column of mono_horiz_fill_rect, from byte b down whole rows of bytes. */
  method FillMonoColumn(fb: FrameBuffer, x: nat, y: nat, h: nat, c: Colour, advance: nat)
    requires fb.Valid() && (fb.g.format == MHLSB || fb.g.format == MHMSB) && advance == fb.g.stride / 8
    requires x < fb.g.width && y + h <= fb.g.height
    modifies fb.buf
    ensures fb.buf[..] == PutColumn(fb.g, old(fb.buf[..]), x, y, h, c)
  {
    hide Put, Index, Slot, Reaches, WithBit;
    ghost var t := fb.buf[..];
    var b := x / 8 + y * advance;
    var offset := if fb.g.format == MHMSB then x % 8 else 7 - x % 8;
    for m := 0 to h
      invariant b == x / 8 + (y + m) * advance
      invariant fb.buf[..] == PutColumn(fb.g, t, x, y, m, c)
    {
      MonoHorizPut(fb.g, fb.buf[..], x, y + m, c);
      fb.buf[b] := WithBit(fb.buf[b], offset, c != 0);
      b := b + advance;
    }
  }

  /** mono_horiz_fill_rect: column by column. */
  method FillMonoHoriz(fb: FrameBuffer, x: nat, y: nat, w: nat, h: nat, c: Colour)
    requires fb.Valid() && (fb.g.format == MHLSB || fb.g.format == MHMSB)
    requires x + w <= fb.g.width && y + h <= fb.g.height
    modifies fb.buf
    ensures fb.buf[..] == PutColumns(fb.g, old(fb.buf[..]), x, y, w, h, c)
  {
    hide Put, Index, Slot, Reaches;
    for k := 0 to w
      invariant fb.buf[..] == PutColumns(fb.g, old(fb.buf[..]), x, y, k, h, c)
    {
      FillMonoColumn(fb, x + k, y, h, c, fb.g.stride / 8);
    }
  }

  /** One row of mvlsb_fill_rect: the same bit of consecutive bytes. */
  method FillMvlsbRow(fb: FrameBuffer, x: nat, y: nat, w: nat, c: Colour)
    requires fb.Valid() && fb.g.format == MVLSB && x + w <= fb.g.width && y < fb.g.height
    modifies fb.buf
    ensures fb.buf[..] == PutRow(fb.g, old(fb.buf[..]), x, y, w, c)
  {
    hide Put, Index, Slot, Reaches, WithBit;
    ghost var t := fb.buf[..];
    var b := y / 8 * fb.g.stride + x;
    var offset := y % 8;
    for k := 0 to w
      invariant b == y / 8 * fb.g.stride + x + k
      invariant fb.buf[..] == PutRow(fb.g, t, x, y, k, c)
    {
      MvlsbPut(fb.g, fb.buf[..], x + k, y, c);
      fb.buf[b] := WithBit(fb.buf[b], offset, c != 0);
      b := b + 1;
    }
  }

  /** mvlsb_fill_rect: row by row. */
  method FillMvlsb(fb: FrameBuffer, x: nat, y: nat, w: nat, h: nat, c: Colour)
    requires fb.Valid() && fb.g.format == MVLSB
    requires x + w <= fb.g.width && y + h <= fb.g.height
    modifies fb.buf
    ensures fb.buf[..] == PutRows(fb.g, old(fb.buf[..]), x, y, w, h, c)
  {
    hide Put, Index, Slot, Reaches;
    for m := 0 to h
      invariant fb.buf[..] == PutRows(fb.g, old(fb.buf[..]), x, y, w, m, c)
    {
      FillMvlsbRow(fb, x, y + m, w, c);
    }
  }

  /** One row of rgb565_fill_rect: consecutive 16-bit stores. */
  method FillRgb565Row(fb: FrameBuffer, x: nat, y: nat, w: nat, c: Colour, at: nat) returns (b: nat)
    requires fb.Valid() && fb.g.format == RGB565 && x + w <= fb.g.width && y < fb.g.height
    requires at == Flat(fb.g, x, y)
    modifies fb.buf
    ensures fb.buf[..] == PutRow(fb.g, old(fb.buf[..]), x, y, w, c) && b == at + w
  {
    hide Put, Index, Slot, Reaches, Flat, Low8;
    ghost var t := fb.buf[..];
    b := at;
    for k := 0 to w
      invariant b == at + k == Flat(fb.g, x + k, y)
      invariant fb.buf[..] == PutRow(fb.g, t, x, y, k, c)
    {
      Rgb565Put(fb.g, fb.buf[..], x + k, y, c);
      fb.buf[2 * b] := Low8(c);
      fb.buf[2 * b + 1] := Low8(c >> 8);
      b := b + 1;
      FlatStep(fb.g, x + k, y);
    }
  }

  /** rgb565_fill_rect: skips `stride - w` cells after each row. */
  method FillRgb565(fb: FrameBuffer, x: nat, y: nat, w: nat, h: nat, c: Colour)
    requires fb.Valid() && fb.g.format == RGB565
    requires x + w <= fb.g.width && y + h <= fb.g.height
    modifies fb.buf
    ensures fb.buf[..] == PutRows(fb.g, old(fb.buf[..]), x, y, w, h, c)
  {
    hide Put, Index, Slot, Reaches, Flat;
    var b := Flat(fb.g, x, y);
    for m := 0 to h
      invariant b == Flat(fb.g, x, y + m)
      invariant fb.buf[..] == PutRows(fb.g, old(fb.buf[..]), x, y, w, m, c)
    {
      b := FillRgb565Row(fb, x, y + m, w, c, b);
      b := b + fb.g.stride - w;
      FlatStep(fb.g, x, y + m);
    }
  }

  /** gs2_hmsb_fill_rect: column by column through setpixel. */
  method FillGs2(fb: FrameBuffer, x: nat, y: nat, w: nat, h: nat, c: Colour)
    requires fb.Valid() && fb.g.format == GS2_HMSB
    requires x + w <= fb.g.width && y + h <= fb.g.height
    modifies fb.buf
    ensures fb.buf[..] == PutColumns(fb.g, old(fb.buf[..]), x, y, w, h, c)
  {
    hide Put, Index, Slot, Reaches;
    ghost var s := fb.buf[..];
    for xx := x to x + w
      invariant fb.buf[..] == PutColumns(fb.g, s, x, y, xx - x, h, c)
    {
      ghost var t := fb.buf[..];
      for yy := y to y + h
        invariant fb.buf[..] == PutColumn(fb.g, t, xx, y, yy - y, c)
      {
        assert InFrame(fb.g, xx, yy);
        fb.SetPixel(xx, yy, c);
      }
    }
  }

  /** memset */
  method Memset(a: array<Byte>, at: nat, v: Byte, n: nat)
    requires at + n <= a.Length
    modifies a
    ensures a[..] == Filled(old(a[..]), at, v, n)
  {
    for i := 0 to n
      invariant forall k :: 0 <= k < a.Length ==> a[k] == if at <= k < at + i then v else old(a[k])
    {
      a[at + i] := v;
    }
  }

  function Filled(s: seq<Byte>, at: nat, v: Byte, n: nat): (r: seq<Byte>)
    requires at + n <= |s|
    ensures |r| == |s|
  {
    s[..at] + seq(n, _ => v) + s[at + n..]
  }

  lemma FilledStep(s: seq<Byte>, at: nat, v: Byte, n: nat)
    requires at + n < |s|
    ensures Filled(s, at, v, n + 1) == Filled(s, at, v, n)[at + n := v]
  {}

  /** gs8_fill_rect: one memset per row. */
  method FillGs8(fb: FrameBuffer, x: nat, y: nat, w: nat, h: nat, c: Colour)
    requires fb.Valid() && fb.g.format == GS8
    requires x + w <= fb.g.width && y + h <= fb.g.height && w > 0
    modifies fb.buf
    ensures fb.buf[..] == PutRows(fb.g, old(fb.buf[..]), x, y, w, h, c)
  {
    hide Put, Index, Slot, Reaches, Flat, Filled;
    var p := Flat(fb.g, x, y);
    for m := 0 to h
      invariant p == Flat(fb.g, x, y + m)
      invariant fb.buf[..] == PutRows(fb.g, old(fb.buf[..]), x, y, w, m, c)
    {
      Gs8Put(fb.g, fb.buf[..], x + w - 1, y + m, c);
      FlatAdd(fb.g, x, y + m, w - 1);
      MemsetIsRow(fb.g, fb.buf[..], x, y + m, w, c);
      Memset(fb.buf, p, Low8(c), w);
      p := p + fb.g.stride;
      FlatStep(fb.g, x, y + m);
    }
  }

  lemma {:induction false} MemsetIsRow(g: Geometry, s: seq<Byte>, x: nat, y: nat, w: nat, c: Colour)
    requires g.format == GS8 && Fits(g, |s|) && x + w <= g.width && y < g.height
    requires Flat(g, x, y) + w <= |s|
    ensures PutRow(g, s, x, y, w, c) == Filled(s, Flat(g, x, y), Low8(c), w)
    decreases w
  {
    hide Put, Index, Slot, Reaches, Flat, Filled;
    if w == 0 {
      FilledNone(s, Flat(g, x, y), Low8(c));
    } else {
      MemsetIsRow(g, s, x, y, w - 1, c);
      Gs8Put(g, PutRow(g, s, x, y, w - 1, c), x + w - 1, y, c);
      FlatAdd(g, x, y, w - 1);
      FilledStep(s, Flat(g, x, y), Low8(c), w - 1);
    }
  }

  // ---------- GS4: nibbles at the ends, memset in between ----------

  lemma NibblePair(b: Byte, n: Byte)
    requires n & 0xf0 == 0
    ensures (n & 0x0f) | (((n << 4) | (b & 0x0f)) & 0xf0) == (n << 4) | n
  {}

  /** Two pixels that share a byte, set one after the other, are one store of the pair. */
  lemma Gs4Pair(g: Geometry, s: seq<Byte>, x: nat, y: nat, k: nat, c: Colour)
    requires g.format == GS4_HMSB && Sound(g) && Fits(g, |s|)
    requires (x + k) % 2 == 0 && x + k + 2 <= g.width && y < g.height
    ensures var n := Shade(GS4_HMSB, c);
            var i := (x + k) / 2 + y * (g.stride / 2);
            && i < |s|
            && PutRow(g, s, x, y, k + 2, c) == PutRow(g, s, x, y, k, c)[i := (n << 4) | n]
  {
    hide Put, Index, Slot, Reaches, Shade;
    var n := Shade(GS4_HMSB, c);
    var t := PutRow(g, s, x, y, k, c);
    var i := (x + k) / 2 + y * (g.stride / 2);
    assert (x + k + 1) / 2 == (x + k) / 2;
    ShadeFits(GS4_HMSB, c);
    NibblePair(t[i], n) by { Gs4Put(g, t, x + k, y, c); }
    Gs4Put(g, t, x + k, y, c);
    assert PutRow(g, s, x, y, k + 1, c) == t[i := (n << 4) | (t[i] & 0x0f)];
    Gs4Put(g, PutRow(g, s, x, y, k + 1, c), x + k + 1, y, c);
  }

  lemma {:induction false} Gs4Memset(g: Geometry, s: seq<Byte>, x: nat, y: nat, k: nat, pairs: nat, c: Colour)
    requires g.format == GS4_HMSB && Sound(g) && Fits(g, |s|)
    requires (x + k) % 2 == 0 && x + k + 2 * pairs <= g.width && y < g.height
    requires (x + k) / 2 + y * (g.stride / 2) + pairs <= |s|
    ensures var n := Shade(GS4_HMSB, c);
            PutRow(g, s, x, y, k + 2 * pairs, c) ==
            Filled(PutRow(g, s, x, y, k, c), (x + k) / 2 + y * (g.stride / 2), (n << 4) | n, pairs)
    decreases pairs
  {
    hide Put, Index, Slot, Reaches, Shade, Filled;
    var n := Shade(GS4_HMSB, c);
    var t, at := PutRow(g, s, x, y, k, c), (x + k) / 2 + y * (g.stride / 2);
    if pairs == 0 {
      FilledNone(t, at, (n << 4) | n);
    } else {
      Gs4Memset(g, s, x, y, k, pairs - 1, c);
      assert (x + (k + 2 * (pairs - 1))) / 2 == (x + k) / 2 + (pairs - 1);
      Gs4Pair(g, s, x, y, k + 2 * (pairs - 1), c);
      FilledStep(t, at, (n << 4) | n, pairs - 1);
    }
  }

  lemma FilledNone(s: seq<Byte>, at: nat, v: Byte)
    requires at <= |s|
    ensures Filled(s, at, v, 0) == s
  {}

  /** The leading nibble of a row that starts on an odd pixel. */
  method Gs4Head(fb: FrameBuffer, x: nat, y: nat, n: Byte, ghost c: Colour, p: nat)
    requires fb.Valid() && fb.g.format == GS4_HMSB && n == Shade(GS4_HMSB, c)
    requires x % 2 == 1 && InFrame(fb.g, x, y) && p == x / 2 + y * (fb.g.stride / 2)
    modifies fb.buf
    ensures fb.buf[..] == PutRow(fb.g, old(fb.buf[..]), x, y, 1, c)
  {
    hide Put, Index, Slot, Reaches, Shade;
    ghost var s, g := fb.buf[..], fb.g;
    Gs4Put(g, s, x, y, c);
    ShadeFits(GS4_HMSB, c);
    LowNibble(s[p], n);
    assert PutRow(g, s, x, y, 1, c) == Put(g, PutRow(g, s, x, y, 0, c), x, y, c);
    fb.buf[p] := (fb.buf[p] & 0xf0) | n;
  }

  /** The rest of the row from even pixel x + k on: memset, then a trailing nibble. Returns the
      byte after the memset. */
  method Gs4Tail(fb: FrameBuffer, ghost s: seq<Byte>, x: nat, y: nat, ghost k: nat, ww: nat, n: Byte,
                 ghost c: Colour, at: nat) returns (p: nat)
    requires fb.Valid() && fb.g.format == GS4_HMSB && n == Shade(GS4_HMSB, c) && |s| == fb.buf.Length
    requires (x + k) % 2 == 0 && x + k + ww <= fb.g.width && y < fb.g.height
    requires at == (x + k) / 2 + y * (fb.g.stride / 2) && at + ww / 2 <= |s|
    requires fb.buf[..] == PutRow(fb.g, s, x, y, k, c)
    modifies fb.buf
    ensures fb.buf[..] == PutRow(fb.g, s, x, y, k + ww, c)
    ensures p == at + ww / 2
  {
    hide Put, Index, Slot, Reaches, Shade, Filled;
    ghost var g := fb.g;
    Gs4Memset(g, s, x, y, k, ww / 2, c);
    Memset(fb.buf, at, (n << 4) | n, ww / 2);
    p := at + ww / 2;
    if ww % 2 == 1 {
      Gs4Put(g, fb.buf[..], x + k + ww - 1, y, c);
      assert (x + k + ww - 1) / 2 == (x + k) / 2 + ww / 2;
      fb.buf[p] := (n << 4) | (fb.buf[p] & 0x0f);
    }
  }

  /** One row of gs4_hmsb_fill_rect: returns the byte where the source's pointer stands before
      it skips to the next row. */
  method FillGs4Row(fb: FrameBuffer, x: nat, y: nat, w: nat, n: Byte, ghost c: Colour, at: nat) returns (p: nat)
    requires fb.Valid() && fb.g.format == GS4_HMSB && n == Shade(GS4_HMSB, c)
    requires 0 < w && x + w <= fb.g.width && y < fb.g.height
    requires at == Gs4Byte(fb.g, x, y)
    modifies fb.buf
    ensures fb.buf[..] == PutRow(fb.g, old(fb.buf[..]), x, y, w, c)
    ensures p + (fb.g.stride - w) / 2 == at + fb.g.stride / 2
  {
    hide Put, Index, Slot, Reaches, Shade;
    ghost var s := fb.buf[..];
    Gs4Put(fb.g, s, x + w - 1, y, c);
    var ww := w;
    p := at;
    if x % 2 == 1 {
      Gs4Head(fb, x, y, n, c, p);
      p := p + 1;
      ww := ww - 1;
    }
    p := Gs4Tail(fb, s, x, y, w - ww, ww, n, c, p);
    if ww % 2 == 1 && x % 2 == 0 {
      p := p + 1;
    }
  }

  lemma Gs4Start(g: Geometry, x: nat, y: nat)
    requires g.format == GS4_HMSB && Sound(g)
    ensures Index(g, x, y) == Gs4Byte(g, x, y)
  {
    RowIndex(g, x, y);
  }

  /** The byte of pixel (x, y), rows of stride / 2 bytes apart. */
  function Gs4Byte(g: Geometry, x: nat, y: nat): nat { x / 2 + y * (g.stride / 2) }

  lemma Gs4Next(g: Geometry, x: nat, y: nat)
    ensures Gs4Byte(g, x, y + 1) == Gs4Byte(g, x, y) + g.stride / 2
  {}

  lemma LowNibble(b: Byte, n: Byte)
    requires n & 0xf0 == 0
    ensures (b & 0xf0) | n == (n & 0x0f) | (b & 0xf0)
  {}

  /** gs4_hmsb_fill_rect: for every parity of x and w each row advances by stride / 2 bytes. */
  method FillGs4(fb: FrameBuffer, x: nat, y: nat, w: nat, h: nat, c: Colour)
    requires fb.Valid() && fb.g.format == GS4_HMSB
    requires x + w <= fb.g.width && y + h <= fb.g.height && w > 0
    modifies fb.buf
    ensures fb.buf[..] == PutRows(fb.g, old(fb.buf[..]), x, y, w, h, c)
  {
    hide Put, Index, Slot, Reaches, Shade, Gs4Byte, Fits, Sound;
    var n := Shade(GS4_HMSB, c);
    Gs4Start(fb.g, x, y);
    var p := Index(fb.g, x, y);
    var skip := (fb.g.stride - w) / 2;
    for m := 0 to h
      invariant p == Gs4Byte(fb.g, x, y + m)
      invariant fb.buf[..] == PutRows(fb.g, old(fb.buf[..]), x, y, w, m, c)
    {
      p := FillGs4Row(fb, x, y + m, w, n, c, p);
      p := p + skip;
      Gs4Next(fb.g, x, y + m);
    }
  }

  // ---------- dispatch and clipping ----------

  /** A region of the plane has been painted: exactly its in-frame pixels have the colour and
      every other pixel of the frame is as before. */
  ghost predicate Painted(g: Geometry, s: seq<Byte>, t: seq<Byte>, region: iset<(int, int)>, c: Colour) {
    && |s| == |t| && Fits(g, |s|)
    && forall i: nat, j: nat :: InFrame(g, i, j) ==>
         Get(g, t, i, j) == if (i, j) in region then Truncate(g.format, c) else Get(g, s, i, j)
  }

  ghost function Rectangle(x: int, y: int, w: int, h: int): iset<(int, int)> {
    iset p: (int, int) | x <= p.0 < x + w && y <= p.1 < y + h
  }

  lemma PaintedTwice(g: Geometry, s: seq<Byte>, t: seq<Byte>, u: seq<Byte>,
                     a: iset<(int, int)>, b: iset<(int, int)>, c: Colour)
    requires Painted(g, s, t, a, c) && Painted(g, t, u, b, c)
    ensures Painted(g, s, u, a + b, c)
  {
    hide Put, Get, Index, Slot, Reaches, Truncate;
  }

  /** Only the part of a region that is in the frame matters. */
  lemma PaintedSame(g: Geometry, s: seq<Byte>, t: seq<Byte>, a: iset<(int, int)>, b: iset<(int, int)>, c: Colour)
    requires Painted(g, s, t, a, c)
    requires forall i: nat, j: nat :: InFrame(g, i, j) ==> ((i, j) in a <==> (i, j) in b)
    ensures Painted(g, s, t, b, c)
  {
    hide Put, Get, Index, Slot, Reaches, Truncate;
  }

  lemma RowsArePainted(g: Geometry, s: seq<Byte>, x: nat, y: nat, w: nat, h: nat, c: Colour)
    requires Sound(g) && Fits(g, |s|) && x + w <= g.width && y + h <= g.height
    ensures Painted(g, s, PutRows(g, s, x, y, w, h, c), Rectangle(x, y, w, h), c)
  {
    hide Put, Get, Index, Slot, Reaches, Truncate;
    forall i: nat, j: nat | InFrame(g, i, j)
      ensures Get(g, PutRows(g, s, x, y, w, h, c), i, j)
           == if (i, j) in Rectangle(x, y, w, h) then Truncate(g.format, c) else Get(g, s, i, j)
    {
      RowsGet(g, s, x, y, w, h, c, i, j);
    }
  }

  lemma ColumnsArePainted(g: Geometry, s: seq<Byte>, x: nat, y: nat, w: nat, h: nat, c: Colour)
    requires Sound(g) && Fits(g, |s|) && x + w <= g.width && y + h <= g.height
    ensures Painted(g, s, PutColumns(g, s, x, y, w, h, c), Rectangle(x, y, w, h), c)
  {
    hide Put, Get, Index, Slot, Reaches, Truncate;
    forall i: nat, j: nat | InFrame(g, i, j)
      ensures Get(g, PutColumns(g, s, x, y, w, h, c), i, j)
           == if (i, j) in Rectangle(x, y, w, h) then Truncate(g.format, c) else Get(g, s, i, j)
    {
      ColumnsGet(g, s, x, y, w, h, c, i, j);
    }
  }

  /** formats[fb->format].fill_rect: whatever the format, exactly the rectangle is painted. */
  method FormatFill(fb: FrameBuffer, x: nat, y: nat, w: nat, h: nat, c: Colour)
    requires fb.Valid() && 0 < w && x + w <= fb.g.width && y + h <= fb.g.height
    modifies fb.buf
    ensures Painted(fb.g, old(fb.buf[..]), fb.buf[..], Rectangle(x, y, w, h), c)
  {
    hide Put, Get, Index, Slot, Reaches, Truncate;
    RowsArePainted(fb.g, fb.buf[..], x, y, w, h, c);
    ColumnsArePainted(fb.g, fb.buf[..], x, y, w, h, c);
    match fb.g.format
    case MVLSB => FillMvlsb(fb, x, y, w, h, c);
    case RGB565 => FillRgb565(fb, x, y, w, h, c);
    case GS2_HMSB => FillGs2(fb, x, y, w, h, c);
    case GS4_HMSB => FillGs4(fb, x, y, w, h, c);
    case GS8 => FillGs8(fb, x, y, w, h, c);
    case MHLSB => FillMonoHoriz(fb, x, y, w, h, c);
    case MHMSB => FillMonoHoriz(fb, x, y, w, h, c);
  }

  /** fill_rect: clipping loses nothing inside the frame and paints nothing outside the
      rectangle, for every sign and size of the arguments. */
  method FillRect(fb: FrameBuffer, x: int, y: int, w: int, h: int, c: Colour)
    requires fb.Valid()
    modifies fb.buf
    ensures Painted(fb.g, old(fb.buf[..]), fb.buf[..], Rectangle(x, y, w, h), c)
  {
    hide Put, Get, Index, Slot, Reaches, Truncate;
    if h < 1 || w < 1 || x + w <= 0 || y + h <= 0 || y >= fb.g.height || x >= fb.g.width {
      return;
    }
    var xend, yend := Min(fb.g.width, x + w), Min(fb.g.height, y + h);
    var x0, y0 := Max(x, 0), Max(y, 0);
    FormatFill(fb, x0, y0, xend - x0, yend - y0, c);
    PaintedSame(fb.g, old(fb.buf[..]), fb.buf[..], Rectangle(x0, y0, xend - x0, yend - y0), Rectangle(x, y, w, h), c);
  }

  /** setpixel_checked */
  method SetPixelChecked(fb: FrameBuffer, x: int, y: int, c: Colour, mask: bool)
    requires fb.Valid()
    modifies fb.buf
    ensures Painted(fb.g, old(fb.buf[..]), fb.buf[..], if mask then iset{(x, y)} else iset{}, c)
  {
    hide Put, Get, Index, Slot, Reaches, Truncate;
    if mask && 0 <= x < fb.g.width && 0 <= y < fb.g.height {
      ghost var s := fb.buf[..];
      assert InFrame(fb.g, x, y);
      fb.SetPixel(x, y, c);
      forall i: nat, j: nat | InFrame(fb.g, i, j)
        ensures Get(fb.g, fb.buf[..], i, j) == if (i, j) == (x, y) then Truncate(fb.g.format, c) else Get(fb.g, s, i, j)
      {
        PutGet(fb.g, s, x, y, c, i, j);
      }
    }
  }
}
