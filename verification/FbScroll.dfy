/** In-place scrolling of extmod/modframebuf.c: the order in which pixels are copied makes the
    result the same as moving all of them at once. */
module FbScroll {
  import opened Common
  import opened FbPixels

  /** The direction in which a coordinate is walked for a step of this sign. */
  function Direction(step: int): int { if step < 0 then 1 else -1 }

  /** i comes before x in the walk. */
  predicate Passed(step: int, x: int, i: int) { if step < 0 then i < x else x < i }

  /** The pixel that (i, j) takes its colour from is in the frame. */
  predicate HasSource(g: Geometry, xstep: int, ystep: int, i: int, j: int) {
    InFrame(g, i - xstep, j - ystep)
  }

  /** The simultaneous move: what pixel (i, j) of the scrolled image must be. */
  ghost function Scrolled(g: Geometry, s: seq<Byte>, xstep: int, ystep: int, i: nat, j: nat): Colour
    requires Fits(g, |s|) && InFrame(g, i, j)
  {
    if HasSource(g, xstep, ystep, i, j) then Get(g, s, i - xstep, j - ystep) else Get(g, s, i, j)
  }

  /** The walk stands at (x, y): the pixels before it are moved and the others untouched. */
  ghost predicate At(g: Geometry, s: seq<Byte>, t: seq<Byte>, xstep: int, ystep: int, x: int, y: int) {
    && |s| == |t| && Fits(g, |s|)
    && forall i: nat, j: nat :: InFrame(g, i, j) ==>
         Get(g, t, i, j) ==
         if Passed(ystep, y, j) || (j == y && Passed(xstep, x, i)) then Scrolled(g, s, xstep, ystep, i, j)
         else Get(g, s, i, j)
  }

  lemma CopyOne(g: Geometry, s: seq<Byte>, t: seq<Byte>, xstep: int, ystep: int, x: nat, y: nat)
    requires Sound(g) && At(g, s, t, xstep, ystep, x, y)
    requires InFrame(g, x, y) && HasSource(g, xstep, ystep, x, y)
    ensures At(g, s, Put(g, t, x, y, Get(g, t, x - xstep, y - ystep)), xstep, ystep, x + Direction(xstep), y)
  {
    hide Put, Get, Index, Slot, Reaches, Truncate, Sound;
    var c := Get(g, t, x - xstep, y - ystep);
    assert c == Get(g, s, x - xstep, y - ystep);
    PutBackIsTruncated(g, t, x - xstep, y - ystep);
    var u := Put(g, t, x, y, c);
    forall i: nat, j: nat | InFrame(g, i, j)
      ensures Get(g, u, i, j) ==
              if Passed(ystep, y, j) || (j == y && Passed(xstep, x + Direction(xstep), i))
              then Scrolled(g, s, xstep, ystep, i, j) else Get(g, s, i, j)
    {
      PutGet(g, t, x, y, c, i, j);
    }
  }

  /** At the end of a row the rest of the row has no source, so the next row can start. */
  lemma RowDone(g: Geometry, s: seq<Byte>, t: seq<Byte>, xstep: int, ystep: int, x: int, xend: int, y: int)
    requires At(g, s, t, xstep, ystep, xend, y)
    requires x == (if xstep < 0 then 0 else g.width - 1)
    requires xend == if xstep < 0 then g.width + xstep else xstep - 1
    ensures At(g, s, t, xstep, ystep, x, y + Direction(ystep))
  {
    hide Get, Index, Slot, Reaches;
    forall i: nat, j: nat | InFrame(g, i, j)
      ensures Get(g, t, i, j) ==
              if Passed(ystep, y + Direction(ystep), j) || (j == y + Direction(ystep) && Passed(xstep, x, i))
              then Scrolled(g, s, xstep, ystep, i, j) else Get(g, s, i, j)
    {}
  }

  /** framebuf_scroll */
  method Scroll(fb: FrameBuffer, xstep: int, ystep: int)
    requires fb.Valid()
    modifies fb.buf
    ensures forall i: nat, j: nat :: InFrame(fb.g, i, j) ==>
      Get(fb.g, fb.buf[..], i, j) == Scrolled(fb.g, old(fb.buf[..]), xstep, ystep, i, j)
  {
    hide Put, Get, Index, Slot, Reaches, Sound, Truncate;
    ghost var s, g := fb.buf[..], fb.g;
    var sx, xend := 0, fb.g.width + xstep;
    if xstep < 0 {
      if xend <= 0 { return; }
    } else {
      sx, xend := fb.g.width - 1, xstep - 1;
      if xend >= sx { return; }
    }
    var y, yend := 0, fb.g.height + ystep;
    if ystep < 0 {
      if yend <= 0 { return; }
    } else {
      y, yend := fb.g.height - 1, ystep - 1;
      if yend >= y { return; }
    }
    while y != yend
      invariant if ystep < 0 then 0 <= y <= yend else yend <= y < g.height
      invariant At(g, s, fb.buf[..], xstep, ystep, sx, y)
      decreases if ystep < 0 then yend - y else y - yend
    {
      var x := sx;
      while x != xend
        invariant if xstep < 0 then 0 <= x <= xend else xend <= x < g.width
        invariant At(g, s, fb.buf[..], xstep, ystep, x, y)
        decreases if xstep < 0 then xend - x else x - xend
      {
        CopyOne(g, s, fb.buf[..], xstep, ystep, x, y);
        var c := fb.GetPixel(x - xstep, y - ystep);
        fb.SetPixel(x, y, c);
        x := x + Direction(xstep);
      }
      RowDone(g, s, fb.buf[..], xstep, ystep, sx, xend, y);
      y := y + Direction(ystep);
    }
  }
}
