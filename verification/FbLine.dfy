/** Line drawing of extmod/modframebuf.c. The incremental error term is proved to plot, at every
    step along the longer axis, the pixel nearest to the ideal line. */
module FbLine {
  import opened Common
  import opened FbPixels
  import opened FbFill

  function Abs(a: int): (r: nat)
    ensures r == a || r == -a
  {
    if a < 0 then -a else a
  }

  function Sign(a: int): int { if a > 0 then 1 else -1 }

  /** m * i / n to the nearest integer, halves upwards: how far the shorter axis has moved. */
  function Minor(n: nat, m: nat, i: nat): nat {
    if n == 0 then 0 else (2 * m * i + n) / (2 * n)
  }

  function Steps(x1: int, y1: int, x2: int, y2: int): nat {
    if Abs(y2 - y1) > Abs(x2 - x1) then Abs(y2 - y1) else Abs(x2 - x1)
  }

  /** The pixel nearest to the ideal line, i steps along the longer axis. */
  function Point(x1: int, y1: int, x2: int, y2: int, i: nat): (int, int) {
    var dx, dy := Abs(x2 - x1), Abs(y2 - y1);
    var sx, sy := Sign(x2 - x1), Sign(y2 - y1);
    if dy > dx then (x1 + sx * Minor(dy, dx, i), y1 + sy * i)
    else (x1 + sx * i, y1 + sy * Minor(dx, dy, i))
  }

  ghost function Walk(x1: int, y1: int, x2: int, y2: int, n: int): iset<(int, int)> {
    iset i: nat | i < n :: Point(x1, y1, x2, y2, i)
  }

  /** All pixels of a line, both endpoints included. */
  ghost function Line(x1: int, y1: int, x2: int, y2: int): iset<(int, int)> {
    Walk(x1, y1, x2, y2, Steps(x1, y1, x2, y2) + 1)
  }

  /** An offset within half a step of m * i / n is the nearest one. */
  lemma MinorUnique(n: nat, m: nat, i: nat, k: nat)
    requires 0 < n && 0 - n <= 2 * (m * i - n * k) < n
    ensures k == Minor(n, m, i)
  {
    var r := 2 * (m * i - n * k) + n;
    assert 2 * m * i + n == 2 * n * k + r;
    DivModUnique(2 * m * i + n, 2 * n, k, r);
  }

  /** The plotted offset is within half a step of the ideal line. */
  lemma MinorAccurate(n: nat, m: nat, i: nat)
    requires 0 < n
    ensures 0 - n <= 2 * (m * i - n * Minor(n, m, i)) < n
  {
    var a := 2 * m * i + n;
    assert a == 2 * n * (a / (2 * n)) + a % (2 * n);
  }

  lemma MinorStep(n: nat, m: nat, i: nat)
    requires 0 < n && m <= n
    ensures Minor(n, m, i) <= Minor(n, m, i + 1) <= Minor(n, m, i) + 1
  {
    MinorAccurate(n, m, i);
    var k := Minor(n, m, i);
    var r := m * i - n * k;
    assert m * (i + 1) - n * k == r + m;
    assert m * (i + 1) - n * (k + 1) == r + m - n;
    if 2 * (r + m) < n {
      MinorUnique(n, m, i + 1, k);
    } else {
      MinorUnique(n, m, i + 1, k + 1);
    }
  }

  lemma MinorEnds(n: nat, m: nat)
    requires m <= n
    ensures Minor(n, m, 0) == 0 && Minor(n, m, n) == m
  {
    if n > 0 {
      MinorUnique(n, m, 0, 0);
      assert m * n - n * m == 0;
      MinorUnique(n, m, n, m);
    }
  }

  /** The walk starts and ends exactly at the two endpoints. */
  lemma Endpoints(x1: int, y1: int, x2: int, y2: int)
    ensures Point(x1, y1, x2, y2, 0) == (x1, y1)
    ensures Point(x1, y1, x2, y2, Steps(x1, y1, x2, y2)) == (x2, y2)
  {
    hide Minor;
    var dx, dy := Abs(x2 - x1), Abs(y2 - y1);
    MinorEnds(Max(dx, dy), Min(dx, dy));
  }

  /** Successive pixels touch, so the line has no gaps and never turns back. */
  lemma Connected(x1: int, y1: int, x2: int, y2: int, i: nat)
    requires i < Steps(x1, y1, x2, y2)
    ensures var p, q := Point(x1, y1, x2, y2, i), Point(x1, y1, x2, y2, i + 1);
            && (q.0 == p.0 || q.0 == p.0 + Sign(x2 - x1))
            && (q.1 == p.1 || q.1 == p.1 + Sign(y2 - y1))
            && p != q
  {
    hide Minor;
    var dx, dy := Abs(x2 - x1), Abs(y2 - y1);
    MinorStep(Max(dx, dy), Min(dx, dy), i);
  }

  lemma {:induction false} MinorRange(n: nat, m: nat, i: nat)
    requires m <= n && i <= n
    ensures 0 <= Minor(n, m, i) <= m
    decreases n - i
  {
    if i == n {
      MinorEnds(n, m);
    } else {
      MinorStep(n, m, i);
      MinorRange(n, m, i + 1);
    }
  }

  /** The line stays in the box spanned by its endpoints. */
  lemma InBox(x1: int, y1: int, x2: int, y2: int, i: nat)
    requires i <= Steps(x1, y1, x2, y2)
    ensures var p := Point(x1, y1, x2, y2, i);
            Min(x1, x2) <= p.0 <= Max(x1, x2) && Min(y1, y2) <= p.1 <= Max(y1, y2)
  {
    hide Minor;
    var dx, dy := Abs(x2 - x1), Abs(y2 - y1);
    MinorRange(Max(dx, dy), Min(dx, dy), i);
  }

  /** Every point plotted is within half a pixel of the straight line between the endpoints, measured
      along the shorter axis. */
  lemma PointOnLine(x1: int, y1: int, x2: int, y2: int, i: nat)
    requires i <= Steps(x1, y1, x2, y2)
    ensures var p := Point(x1, y1, x2, y2, i);
            2 * Abs((p.0 - x1) * (y2 - y1) - (p.1 - y1) * (x2 - x1)) <= Steps(x1, y1, x2, y2)
  {
    hide Minor;
    var dx, dy := Abs(x2 - x1), Abs(y2 - y1);
    var sx, sy := Sign(x2 - x1), Sign(y2 - y1);
    if dy > dx {
      var k := Minor(dy, dx, i);
      MinorAccurate(dy, dx, i);
      SignsOut(sx, sy, k, dy, i, dx);
    } else if dx > 0 {
      var k := Minor(dx, dy, i);
      MinorAccurate(dx, dy, i);
      SignsOut(sx, sy, i, dy, k, dx);
    }
  }

  lemma SignsOut(sx: int, sy: int, a: int, dy: int, b: int, dx: int)
    requires (sx == 1 || sx == -1) && (sy == 1 || sy == -1)
    ensures Abs((sx * a) * (sy * dy) - (sy * b) * (sx * dx)) == Abs(dy * a - dx * b)
  {
    if sx == sy {
      assert (sx * a) * (sy * dy) == dy * a && (sy * b) * (sx * dx) == dx * b;
    } else {
      assert (sx * a) * (sy * dy) == -(dy * a) && (sy * b) * (sx * dx) == -(dx * b);
    }
  }

  lemma WalkGrows(x1: int, y1: int, x2: int, y2: int, n: nat)
    ensures Walk(x1, y1, x2, y2, n + 1) == Walk(x1, y1, x2, y2, n) + iset{Point(x1, y1, x2, y2, n)}
  {
    hide Point;
  }

  lemma WalkStart(x1: int, y1: int, x2: int, y2: int)
    ensures Walk(x1, y1, x2, y2, 0) == iset{}
  {}

  /** Runs `line`'s inner loop: one turn at most is taken, and the error term is again that of
      the nearest pixel one step further. */
  method Advance(e: int, dx: nat, dy: nat, ghost i: nat, ghost k: nat) returns (e': int, moved: nat)
    requires 0 < dx && dy <= dx && k == Minor(dx, dy, i)
    requires e == 2 * (dy * i - dx * k) + 2 * dy - dx
    ensures moved <= 1 && k + moved == Minor(dx, dy, i + 1)
    ensures e' + 2 * dy == 2 * (dy * (i + 1) - dx * (k + moved)) + 2 * dy - dx
  {
    MinorAccurate(dx, dy, i);
    e', moved := e, 0;
    ghost var r := dy * i - dx * k;
    while e' >= 0
      invariant e' == 2 * (r - dx * moved) + 2 * dy - dx
      invariant moved <= 1 && (moved == 1 ==> 2 * (r + dy) >= dx)
      decreases e'
    {
      moved := moved + 1;
      e' := e' - 2 * dx;
      assert dx * moved == dx * (moved - 1) + dx;
    }
    assert dy * (i + 1) - dx * (k + moved) == r + dy - dx * moved;
    MinorUnique(dx, dy, i + 1, k + moved);
  }

  /** line: paints exactly the pixels nearest to the ideal line, clipped to the frame. */
  method DrawLine(fb: FrameBuffer, x1: int, y1: int, x2: int, y2: int, c: Colour)
    requires fb.Valid()
    modifies fb.buf
    ensures Painted(fb.g, old(fb.buf[..]), fb.buf[..], Line(x1, y1, x2, y2), c)
  {
    hide Painted, Minor;
    var dx, dy := Abs(x2 - x1), Abs(y2 - y1);
    var sx, sy := Sign(x2 - x1), Sign(y2 - y1);
    var u, v := x1, y1;
    var steep := dy > dx;
    if steep {
      u, v, dx, dy, sx, sy := v, u, dy, dx, sy, sx;
    }
    ghost var s := fb.buf[..];
    ghost var k := 0;
    MinorEnds(dx, dy);
    WalkStart(x1, y1, x2, y2);
    PaintedNothing(fb.g, s, c);
    var e := 2 * dy - dx;
    for i := 0 to dx
      invariant k == Minor(dx, dy, i)
      invariant e == 2 * (dy * i - dx * k) + 2 * dy - dx
      invariant (if steep then (v, u) else (u, v)) == Point(x1, y1, x2, y2, i)
      invariant u == (if steep then y1 else x1) + sx * i && v == (if steep then x1 else y1) + sy * k
      invariant Painted(fb.g, s, fb.buf[..], Walk(x1, y1, x2, y2, i), c)
    {
      ghost var t := fb.buf[..];
      if steep {
        SetPixelChecked(fb, v, u, c, true);
      } else {
        SetPixelChecked(fb, u, v, c, true);
      }
      PaintedTwice(fb.g, s, t, fb.buf[..], Walk(x1, y1, x2, y2, i), iset{Point(x1, y1, x2, y2, i)}, c);
      WalkGrows(x1, y1, x2, y2, i);
      var moved;
      e, moved := Advance(e, dx, dy, i, k);
      v := v + sy * moved;
      k := k + moved;
      u := u + sx;
      e := e + 2 * dy;
    }
    Endpoints(x1, y1, x2, y2);
    ghost var t := fb.buf[..];
    SetPixelChecked(fb, x2, y2, c, true);
    PaintedTwice(fb.g, s, t, fb.buf[..], Walk(x1, y1, x2, y2, dx), iset{(x2, y2)}, c);
    WalkGrows(x1, y1, x2, y2, dx);
  }

  lemma PaintedNothing(g: Geometry, s: seq<Byte>, c: Colour)
    requires Fits(g, |s|)
    ensures Painted(g, s, s, iset{}, c)
  {
    hide Get, Index, Slot, Reaches;
  }
}
