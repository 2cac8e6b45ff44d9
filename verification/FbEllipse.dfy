/** Ellipse drawing of extmod/modframebuf.c. Both loops keep the exact error of the point they
    stand at, choose the better neighbour, and so paint in every row the integer point whose
    error is smallest, for as long as the arc is steeper than one pixel per row. */
module FbEllipse {
  import opened Common
  import opened FbPixels
  import opened FbFill
  import opened FbLine

  /** b^2 x^2 + a^2 y^2 - a^2 b^2 with A = a^2 and B = b^2: 0 on the ideal ellipse. */
  function Error(A: nat, B: nat, x: int, y: int): int { B * x * x + A * y * y - A * B }

  /** The errors of (x, y) and of its inner neighbour, added: which of the two is nearer. */
  function Balance(A: nat, B: nat, x: int, y: int): int { 2 * Error(A, B, x, y) + B * (1 - 2 * x) }

  /** (x, y) has the smallest absolute error of its row, the outer point winning a tie. */
  predicate Nearest(A: nat, B: nat, x: int, y: int) {
    Balance(A, B, x, y) <= 0 < Balance(A, B, x + 1, y)
  }

  lemma StepY(A: nat, B: nat, x: int, y: int)
    ensures Error(A, B, x, y + 1) == Error(A, B, x, y) + A * (2 * y + 1)
  {}

  lemma StepX(A: nat, B: nat, x: int, y: int)
    ensures Error(A, B, x - 1, y) == Error(A, B, x, y) + B * (1 - 2 * x)
    ensures Balance(A, B, x, y) == Error(A, B, x, y) + Error(A, B, x - 1, y)
  {
    assert B * (x - 1) * (x - 1) == B * x * x - 2 * B * x + B;
  }

  lemma BalanceStepX(A: nat, B: nat, x: int, y: int)
    ensures Balance(A, B, x + 1, y) == Balance(A, B, x, y) + 4 * B * x
  {
    StepX(A, B, x + 1, y);
    StepX(A, B, x, y);
    assert B * (1 - 2 * (x + 1)) == B * (1 - 2 * x) - 2 * B;
    assert B * (1 - 2 * x) == B - 2 * B * x;
  }

  lemma BalanceStepY(A: nat, B: nat, x: int, y: int)
    ensures Balance(A, B, x, y + 1) == Balance(A, B, x, y) + 2 * (A * (2 * y + 1))
  {
    StepY(A, B, x, y);
  }

  /** Moving outwards or away from the axis never lowers the balance. */
  lemma {:induction false} BalanceMonotone(A: nat, B: nat, x: nat, y: nat, p: nat, q: nat)
    requires x <= p && y <= q
    ensures Balance(A, B, x, y) <= Balance(A, B, p, q)
    decreases p - x + q - y
  {
    if x < p {
      BalanceMonotone(A, B, x, y, p - 1, q);
      BalanceStepX(A, B, p - 1, q);
      assert 0 <= 4 * B * (p - 1);
    } else if y < q {
      BalanceMonotone(A, B, x, y, p, q - 1);
      BalanceStepY(A, B, p, q - 1);
      assert 0 <= A * (2 * (q - 1) + 1);
    }
  }

  lemma {:induction false} ErrorMonotone(A: nat, B: nat, x: nat, p: nat, y: int)
    requires x <= p
    ensures Error(A, B, x, y) <= Error(A, B, p, y)
    decreases p - x
  {
    if x < p {
      ErrorMonotone(A, B, x, p - 1, y);
      StepX(A, B, p, y);
      assert B * (1 - 2 * p) <= 0;
    }
  }

  /** The nearest point of a row beats every other integer point of that row. */
  lemma NearestIsBest(A: nat, B: nat, x: nat, y: int, p: nat)
    requires Nearest(A, B, x, y)
    ensures Abs(Error(A, B, x, y)) <= Abs(Error(A, B, p, y))
  {
    hide Error;
    StepX(A, B, x, y);
    StepX(A, B, x + 1, y);
    if p < x {
      ErrorMonotone(A, B, p, x - 1, y);
      ErrorMonotone(A, B, x - 1, x, y);
    } else if p > x {
      ErrorMonotone(A, B, x + 1, p, y);
      ErrorMonotone(A, B, x, x + 1, y);
    }
  }

  /** The points of one loop. For a >= 1 and b != 0: in every row the nearest point, as long as
      b^2 x >= a^2 y. A zero radius leaves one point, a negative a none. */
  ghost function Arc(a: int, b: int): iset<(int, int)> {
    if Regular(a, b) then
      iset p: (int, int) | OnArc(a * a, b * b, p.0, p.1)
    else if a < 0 && b != 0 then iset{}
    else iset{(a, 0)}
  }

  predicate Regular(a: int, b: int) { a >= 1 && b != 0 }

  predicate OnArc(A: nat, B: nat, x: int, y: int) {
    0 <= x && 0 <= y && Nearest(A, B, x, y) && B * x >= A * y
  }

  // ---------- what is painted at a point ----------

  datatype Mask = Mask(fill: bool, q1: bool, q2: bool, q3: bool, q4: bool)

  ghost function When(b: bool, r: iset<(int, int)>): iset<(int, int)> { if b then r else iset{} }

  /** draw_ellipse_points: a mirrored point, or the row from the axis to it, in each quadrant. */
  ghost function Stroke(cx: int, cy: int, x: int, y: int, m: Mask): iset<(int, int)> {
    if m.fill then
      When(m.q1, Rectangle(cx, cy - y, x + 1, 1)) + When(m.q2, Rectangle(cx - x, cy - y, x + 1, 1)) +
      When(m.q3, Rectangle(cx - x, cy + y, x + 1, 1)) + When(m.q4, Rectangle(cx, cy + y, x + 1, 1))
    else
      When(m.q1, iset{(cx + x, cy - y)}) + When(m.q2, iset{(cx - x, cy - y)}) +
      When(m.q3, iset{(cx - x, cy + y)}) + When(m.q4, iset{(cx + x, cy + y)})
  }

  /** The strokes of a set of points; `swap` exchanges the axes. */
  ghost function Strokes(cx: int, cy: int, arc: iset<(int, int)>, swap: bool, m: Mask): iset<(int, int)> {
    iset p: (int, int), q: (int, int) | q in arc && p in StrokeAt(cx, cy, q, swap, m) :: p
  }

  ghost function StrokeAt(cx: int, cy: int, q: (int, int), swap: bool, m: Mask): iset<(int, int)> {
    if swap then Stroke(cx, cy, q.1, q.0, m) else Stroke(cx, cy, q.0, q.1, m)
  }

  lemma StrokesGrow(cx: int, cy: int, arc: iset<(int, int)>, q: (int, int), swap: bool, m: Mask)
    ensures Strokes(cx, cy, arc + iset{q}, swap, m) == Strokes(cx, cy, arc, swap, m) + StrokeAt(cx, cy, q, swap, m)
  {
    hide StrokeAt;
  }

  method FillWhen(fb: FrameBuffer, b: bool, x: int, y: int, w: int, c: Colour)
    requires fb.Valid()
    modifies fb.buf
    ensures Painted(fb.g, old(fb.buf[..]), fb.buf[..], When(b, Rectangle(x, y, w, 1)), c)
  {
    hide Painted;
    PaintedNothing(fb.g, fb.buf[..], c);
    if b {
      FillRect(fb, x, y, w, 1, c);
    }
  }

  method DrawPoints(fb: FrameBuffer, cx: int, cy: int, x: int, y: int, c: Colour, m: Mask)
    requires fb.Valid()
    modifies fb.buf
    ensures Painted(fb.g, old(fb.buf[..]), fb.buf[..], Stroke(cx, cy, x, y, m), c)
  {
    hide Painted;
    ghost var s := fb.buf[..];
    if m.fill {
      FillWhen(fb, m.q1, cx, cy - y, x + 1, c);
      ghost var s1 := fb.buf[..];
      FillWhen(fb, m.q2, cx - x, cy - y, x + 1, c);
      ghost var s2 := fb.buf[..];
      FillWhen(fb, m.q3, cx - x, cy + y, x + 1, c);
      ghost var s3 := fb.buf[..];
      FillWhen(fb, m.q4, cx, cy + y, x + 1, c);
      Four(fb.g, s, s1, s2, s3, fb.buf[..],
        When(m.q1, Rectangle(cx, cy - y, x + 1, 1)), When(m.q2, Rectangle(cx - x, cy - y, x + 1, 1)),
        When(m.q3, Rectangle(cx - x, cy + y, x + 1, 1)), When(m.q4, Rectangle(cx, cy + y, x + 1, 1)), c);
    } else {
      SetPixelChecked(fb, cx + x, cy - y, c, m.q1);
      ghost var s1 := fb.buf[..];
      SetPixelChecked(fb, cx - x, cy - y, c, m.q2);
      ghost var s2 := fb.buf[..];
      SetPixelChecked(fb, cx - x, cy + y, c, m.q3);
      ghost var s3 := fb.buf[..];
      SetPixelChecked(fb, cx + x, cy + y, c, m.q4);
      Four(fb.g, s, s1, s2, s3, fb.buf[..],
        When(m.q1, iset{(cx + x, cy - y)}), When(m.q2, iset{(cx - x, cy - y)}),
        When(m.q3, iset{(cx - x, cy + y)}), When(m.q4, iset{(cx + x, cy + y)}), c);
    }
  }

  lemma Four(g: Geometry, s: seq<Byte>, s1: seq<Byte>, s2: seq<Byte>, s3: seq<Byte>, s4: seq<Byte>,
             r1: iset<(int, int)>, r2: iset<(int, int)>, r3: iset<(int, int)>, r4: iset<(int, int)>, c: Colour)
    requires Painted(g, s, s1, r1, c) && Painted(g, s1, s2, r2, c)
    requires Painted(g, s2, s3, r3, c) && Painted(g, s3, s4, r4, c)
    ensures Painted(g, s, s4, r1 + r2 + r3 + r4, c)
  {
    hide Painted;
    PaintedTwice(g, s, s1, s2, r1, r2, c);
    PaintedTwice(g, s, s2, s3, r1 + r2, r3, c);
    PaintedTwice(g, s, s3, s4, r1 + r2 + r3, r4, c);
  }

  // ---------- one loop ----------

  /** The points of the arc in the first n rows. */
  ghost function Rows(a: int, b: int, n: int): iset<(int, int)> {
    iset p: (int, int) | p in Arc(a, b) && p.1 < n
  }

  /** What the loop knows at (x, y) for proper radii: everything beyond x is too far out, and x
      itself is the nearest point while the arc is still steep. */
  ghost predicate Standing(A: nat, B: nat, x: int, y: int) {
    && 0 <= x && 0 <= y
    && Balance(A, B, x + 1, y) > 0
    && (B * x >= A * y ==> Balance(A, B, x, y) <= 0)
  }

  lemma StandingStart(a: int, b: int)
    requires Regular(a, b)
    ensures Standing(a * a, b * b, a, 0) && Error(a * a, b * b, a, 0) == 0
  {
    var A, B := a * a, b * b;
    assert B * a * a == A * B;
    assert B * (1 - 2 * a) <= 0 && B * (1 - 2 * (a + 1)) + 2 * (B * (2 * a + 1)) > 0;
    StepX(A, B, a + 1, 0);
  }

  /** The choice: stay when the balance at the new row is not positive, else step inwards. */
  lemma StandingStep(A: nat, B: nat, x: int, y: int)
    requires 0 < A && 0 < B && Standing(A, B, x, y) && B * x >= A * y
    ensures Balance(A, B, x, y + 1) > 0 ==> Standing(A, B, x - 1, y + 1)
    ensures Balance(A, B, x, y + 1) <= 0 ==> Standing(A, B, x, y + 1)
  {
    hide Balance, Error;
    BalanceStepX(A, B, x, y);
    assert x != 0;
    if Balance(A, B, x, y + 1) > 0 {
      BalanceStepX(A, B, x - 1, y + 1);
      BalanceStepY(A, B, x, y);
      if B * (x - 1) >= A * (y + 1) {
        assert A * (2 * y + 1) == 2 * (A * y) + A && A * (y + 1) == A * y + A;
        assert 4 * B * (x - 1) == 4 * (B * (x - 1));
      }
    } else {
      BalanceStepY(A, B, x + 1, y);
      assert A * (2 * y + 1) > 0;
    }
  }

  /** The row that the loop stands at holds exactly the loop's point. */
  lemma RowsGrow(a: int, b: int, x: int, y: int)
    requires Regular(a, b) && Standing(a * a, b * b, x, y) && b * b * x >= a * a * y
    ensures Rows(a, b, y + 1) == Rows(a, b, y) + iset{(x, y)}
  {
    hide Balance, Error;
    var A, B := a * a, b * b;
    assert OnArc(A, B, x, y);
    forall p: (int, int) | p in Arc(a, b) && p.1 == y ensures p.0 == x {
      if p.0 < x {
        BalanceMonotone(A, B, p.0 + 1, y, x, y);
      } else if p.0 > x {
        BalanceMonotone(A, B, x + 1, y, p.0, y);
      }
    }
  }

  /** Once the arc is flat it stays flat: the loop has met every row. */
  lemma RowsComplete(a: int, b: int, x: int, y: int)
    requires Regular(a, b) && Standing(a * a, b * b, x, y) && b * b * x < a * a * y
    ensures Rows(a, b, y) == Arc(a, b)
  {
    hide Balance, Error;
    var A, B := a * a, b * b;
    forall p: (int, int) | p in Arc(a, b) ensures p.1 < y {
      if p.1 >= y {
        if p.0 > x {
          BalanceMonotone(A, B, x + 1, y, p.0, p.1);
        } else {
          MulMonotone(B, p.0, x);
          MulMonotone(A, y, p.1);
        }
        assert false;
      }
    }
  }

  lemma RowsNone(a: int, b: int)
    ensures Rows(a, b, 0) == iset{}
  {}

  /** Degenerate radii: at most one point, in the first row. */
  lemma RowsDegenerate(a: int, b: int)
    requires !Regular(a, b) && !(a == 0 && b == 0)
    ensures a * a * 0 <= b * b * a <==> Arc(a, b) == iset{(a, 0)}
    ensures b * b * a < 0 ==> Arc(a, b) == iset{}
    ensures Arc(a, b) == iset{(a, 0)} ==> Rows(a, b, 1) == Arc(a, b)
  {
    if a < 0 && b != 0 {
      assert b * b > 0;
      assert b * b * a < 0;
      assert (a, 0) !in Arc(a, b);
    } else {
      assert b * b * a == 0;
      assert (a, 0) in Arc(a, b);
    }
  }

  /** A degenerate loop leaves after its first point, so the second test fails. */
  lemma DegenerateLeaves(a: int, b: int)
    requires (a == 0 && b != 0) || (a != 0 && b == 0)
    ensures Error(a * a, b * b, a, 0) == 0
    ensures a == 0 ==> Balance(a * a, b * b, 0, 1) > 0
    ensures b == 0 ==> a * a > 0
  {
    if a == 0 { assert b * b > 0; } else { assert a * a > 0; }
  }

  /** The variables of a loop. */
  datatype Cursor = Cursor(x: int, y: int, xchange: int, ychange: int, error: int, stopX: int, stopY: int)

  function Start(a: int, b: int): Cursor {
    Cursor(a, 0, b * b * (1 - 2 * a), a * a, 0, 2 * b * b * a, 0)
  }

  /** One turn: a row further, and a column inwards when that is nearer. */
  function Turn(k: Cursor, twoA: int, twoB: int): Cursor {
    var error := k.error + k.ychange;
    if 2 * error + k.xchange > 0 then
      Cursor(k.x - 1, k.y + 1, k.xchange + twoB, k.ychange + twoA, error + k.xchange, k.stopX - twoB, k.stopY + twoA)
    else
      Cursor(k.x, k.y + 1, k.xchange, k.ychange + twoA, error, k.stopX, k.stopY + twoA)
  }

  /** The error and the change terms equal their closed forms at the cursor's point. */
  ghost predicate Exact(A: nat, B: nat, k: Cursor) {
    && k.error == Error(A, B, k.x, k.y)
    && k.xchange == B * (1 - 2 * k.x) && k.ychange == A * (2 * k.y + 1)
    && k.stopX == 2 * (B * k.x) && k.stopY == 2 * (A * k.y)
  }

  lemma ExactTurn(A: nat, B: nat, k: Cursor)
    requires Exact(A, B, k)
    ensures Exact(A, B, Turn(k, 2 * A, 2 * B))
    ensures 2 * (k.error + k.ychange) + k.xchange == Balance(A, B, k.x, k.y + 1)
  {
    hide Error;
    StepY(A, B, k.x, k.y);
    StepX(A, B, k.x, k.y + 1);
    BalanceIs(A, B, k.x, k.y + 1);
    Shift(B, k.x);
    Grow(A, k.y);
  }

  lemma ExactStop(A: nat, B: nat, k: Cursor)
    requires Exact(A, B, k)
    ensures k.stopX >= k.stopY <==> B * k.x >= A * k.y
  {}

  predicate Squares(A: nat, B: nat, a: int, b: int) { A == a * a && B == b * b }

  /** Everything a loop keeps about its variables. */
  ghost predicate Keeps(a: int, b: int, A: nat, B: nat, k: Cursor) {
    && 0 <= k.y && Exact(A, B, k)
    && (Regular(a, b) ==> Standing(A, B, k.x, k.y))
    && (!Regular(a, b) ==>
         (k.x == a && k.y == 0) || (k.y == 1 && k.stopX < k.stopY && Arc(a, b) == iset{(a, 0)}))
  }

  lemma KeepsStart(a: int, b: int)
    ensures Keeps(a, b, a * a, b * b, Start(a, b))
  {
    hide Error, Balance, Arc;
    StartError(a, b);
    assert 2 * b * b * a == 2 * (b * b * a);
    if Regular(a, b) { StandingStart(a, b); }
  }

  lemma KeepsTurn(a: int, b: int, A: nat, B: nat, k: Cursor)
    requires Squares(A, B, a, b) && !(a == 0 && b == 0) && Keeps(a, b, A, B, k) && k.stopX >= k.stopY
    ensures var n := Turn(k, 2 * A, 2 * B);
            && Keeps(a, b, A, B, n)
            && n.stopX - n.stopY < k.stopX - k.stopY
            && Rows(a, b, n.y) == Rows(a, b, k.y) + iset{(k.x, k.y)}
  {
    hide Error, Balance, Arc, Rows, Squares, Exact, Standing;
    ExactStop(A, B, k);
    ArcStep(a, b, A, B, k.x, k.y);
    ExactTurn(A, B, k);
    ExactStop(A, B, Turn(k, 2 * A, 2 * B));
  }

  lemma KeepsEnd(a: int, b: int, A: nat, B: nat, k: Cursor)
    requires Squares(A, B, a, b) && !(a == 0 && b == 0) && Keeps(a, b, A, B, k) && k.stopX < k.stopY
    ensures Rows(a, b, k.y) == Arc(a, b)
  {
    hide Error, Balance, Arc;
    if Regular(a, b) {
      RowsComplete(a, b, k.x, k.y);
    } else {
      RowsDegenerate(a, b);
      RowsNone(a, b);
    }
  }

  function TwoSquares(a: int): int { 2 * a * a }

  ghost predicate LoopInvariant(a: int, b: int, k: Cursor) { Keeps(a, b, a * a, b * b, k) }

  lemma LoopStart(a: int, b: int)
    ensures LoopInvariant(a, b, Start(a, b))
  {
    KeepsStart(a, b);
  }

  lemma LoopTurn(a: int, b: int, k: Cursor)
    requires !(a == 0 && b == 0) && LoopInvariant(a, b, k) && k.stopX >= k.stopY
    ensures var n := Turn(k, TwoSquares(a), TwoSquares(b));
            && LoopInvariant(a, b, n)
            && n.stopX - n.stopY < k.stopX - k.stopY
            && Rows(a, b, n.y) == Rows(a, b, k.y) + iset{(k.x, k.y)}
  {
    hide Keeps, Rows;
    KeepsTurn(a, b, a * a, b * b, k);
  }

  lemma LoopEnd(a: int, b: int, k: Cursor)
    requires !(a == 0 && b == 0) && LoopInvariant(a, b, k) && k.stopX < k.stopY
    ensures Rows(a, b, k.y) == Arc(a, b)
  {
    KeepsEnd(a, b, a * a, b * b, k);
  }

  /** The body of both loops of framebuf_ellipse: with `swap` the roles of the axes are
      exchanged. Exactly the points of the arc are drawn. */
  method DrawArc(fb: FrameBuffer, cx: int, cy: int, a: int, b: int, c: Colour, m: Mask, swap: bool)
    requires fb.Valid() && !(a == 0 && b == 0)
    modifies fb.buf
    ensures Painted(fb.g, old(fb.buf[..]), fb.buf[..], Strokes(cx, cy, Arc(a, b), swap, m), c)
  {
    hide Painted, Arc, Rows, LoopInvariant, Strokes, Stroke, TwoSquares, Start;
    ghost var s := fb.buf[..];
    var twoA, twoB := TwoSquares(a), TwoSquares(b);
    var Cursor(x, y, xchange, ychange, error, stoppingX, stoppingY) := Start(a, b);
    LoopStart(a, b);
    StartRow(a, b);
    RowsNone(a, b);
    NoStrokes(cx, cy, swap, m);
    PaintedNothing(fb.g, s, c);
    while stoppingX >= stoppingY
      invariant LoopInvariant(a, b, Cursor(x, y, xchange, ychange, error, stoppingX, stoppingY))
      invariant Painted(fb.g, s, fb.buf[..], Strokes(cx, cy, Rows(a, b, y), swap, m), c)
      decreases stoppingX - stoppingY
    {
      ghost var t := fb.buf[..];
      if swap { DrawPoints(fb, cx, cy, y, x, c, m); } else { DrawPoints(fb, cx, cy, x, y, c, m); }
      LoopTurn(a, b, Cursor(x, y, xchange, ychange, error, stoppingX, stoppingY));
      StrokesGrow(cx, cy, Rows(a, b, y), (x, y), swap, m);
      PaintedTwice(fb.g, s, t, fb.buf[..], Strokes(cx, cy, Rows(a, b, y), swap, m), StrokeAt(cx, cy, (x, y), swap, m), c);
      y := y + 1;
      stoppingY := stoppingY + twoA;
      error := error + ychange;
      ychange := ychange + twoA;
      if 2 * error + xchange > 0 {
        x := x - 1;
        stoppingX := stoppingX - twoB;
        error := error + xchange;
        xchange := xchange + twoB;
      }
    }
    LoopEnd(a, b, Cursor(x, y, xchange, ychange, error, stoppingX, stoppingY));
  }

  lemma StartRow(a: int, b: int)
    ensures Start(a, b).y == 0
  {}

  lemma Grow(A: nat, y: int)
    ensures A * (y + 1) == A * y + A && A * (2 * (y + 1) + 1) == A * (2 * y + 1) + 2 * A
  {}

  lemma Shift(B: nat, x: int)
    ensures B * (x - 1) == B * x - B && B * (1 - 2 * (x - 1)) == B * (1 - 2 * x) + 2 * B
  {}

  lemma BalanceIs(A: nat, B: nat, x: int, y: int)
    ensures Balance(A, B, x, y) == 2 * Error(A, B, x, y) + B * (1 - 2 * x)
  {}

  lemma StartError(a: int, b: int)
    ensures Error(a * a, b * b, a, 0) == 0
  {
    assert b * b * a * a == a * a * (b * b);
  }

  lemma NoStrokes(cx: int, cy: int, swap: bool, m: Mask)
    ensures Strokes(cx, cy, iset{}, swap, m) == iset{}
  {}

  /** One turn of the loop, for proper and degenerate radii alike. */
  lemma ArcStep(a: int, b: int, A: nat, B: nat, x: int, y: int)
    requires Squares(A, B, a, b) && !(a == 0 && b == 0) && B * x >= A * y && 0 <= y
    requires Regular(a, b) ==> Standing(A, B, x, y)
    requires !Regular(a, b) ==> x == a && y == 0
    ensures Rows(a, b, y + 1) == Rows(a, b, y) + iset{(x, y)}
    ensures A > 0 || (B > 0 && Balance(A, B, x, y + 1) > 0)
    ensures Regular(a, b) ==> if Balance(A, B, x, y + 1) > 0 then Standing(A, B, x - 1, y + 1)
                              else Standing(A, B, x, y + 1)
    ensures !Regular(a, b) ==> Arc(a, b) == iset{(a, 0)}
    ensures !Regular(a, b) ==>
      if Balance(A, B, x, y + 1) > 0 then B * (x - 1) < A * (y + 1) else B * x < A * (y + 1)
  {
    hide Balance, Error;
    if Regular(a, b) {
      assert a * a > 0 && b * b > 0;
      RowsGrow(a, b, x, y);
      StandingStep(A, B, x, y);
    } else {
      RowsDegenerate(a, b);
      RowsNone(a, b);
      DegenerateLeaves(a, b);
    }
  }

  /** framebuf_ellipse, for every pair of radii. */
  method DrawEllipse(fb: FrameBuffer, cx: int, cy: int, a: int, b: int, c: Colour, m: Mask)
    requires fb.Valid()
    modifies fb.buf
    ensures Painted(fb.g, old(fb.buf[..]), fb.buf[..],
              if a == 0 && b == 0 then When(m.q1 || m.q2 || m.q3 || m.q4, iset{(cx, cy)})
              else Strokes(cx, cy, Arc(a, b), false, m) + Strokes(cx, cy, Arc(b, a), true, m), c)
  {
    hide Painted;
    ghost var s := fb.buf[..];
    if a == 0 && b == 0 {
      SetPixelChecked(fb, cx, cy, c, m.q1 || m.q2 || m.q3 || m.q4);
      return;
    }
    DrawArc(fb, cx, cy, a, b, c, m, false);
    ghost var t := fb.buf[..];
    DrawArc(fb, cx, cy, b, a, c, m, true);
    PaintedTwice(fb.g, s, t, fb.buf[..], Strokes(cx, cy, Arc(a, b), false, m), Strokes(cx, cy, Arc(b, a), true, m), c);
  }

  // ---------- the drawing as geometry ----------

  /** The mask's flag for the quadrant of an offset from the centre, y growing downwards: first upper
      right, then upper left, lower left and lower right. On an axis either neighbour will do. */
  predicate Selected(m: Mask, dx: int, dy: int) {
    || (m.q1 && dx >= 0 && dy <= 0)
    || (m.q2 && dx <= 0 && dy <= 0)
    || (m.q3 && dx <= 0 && dy >= 0)
    || (m.q4 && dx >= 0 && dy >= 0)
  }

  /** A point of the arc paints the pixels at its distances from the axes, or the whole span up to
      them when filling, in the quadrants selected. */
  lemma StrokeIs(cx: int, cy: int, x: nat, y: nat, m: Mask, p: (int, int))
    ensures var (dx, dy) := (p.0 - cx, p.1 - cy);
            p in Stroke(cx, cy, x, y, m) <==>
              Abs(dy) == y && (if m.fill then Abs(dx) <= x else Abs(dx) == x) && Selected(m, dx, dy)
  {
  }

  /** A row or column of the arc has one point. */
  lemma ArcIsAFunction(a: int, b: int, x: int, u: int, y: int)
    requires Regular(a, b) && (x, y) in Arc(a, b) && (u, y) in Arc(a, b)
    ensures x == u
  {
    hide Balance;
    if x < u {
      BalanceMonotone(a * a, b * b, x + 1, y, u, y);
    } else if u < x {
      BalanceMonotone(a * a, b * b, u + 1, y, x, y);
    }
  }

  /** The arc begins at the end of its axis. */
  lemma ArcStart(a: int, b: int)
    requires Regular(a, b)
    ensures (a, 0) in Arc(a, b)
  {
    StandingStart(a, b);
    assert b * b * a >= 0 && a * a * 0 == 0;
  }

  /** The arc has no gap: a point off the axis has a neighbour one row nearer to it. */
  lemma ArcConnected(a: int, b: int, x: int, y: int)
    requires Regular(a, b) && (x, y) in Arc(a, b) && y > 0
    ensures (x, y - 1) in Arc(a, b) || (x + 1, y - 1) in Arc(a, b)
  {
    hide Balance;
    var A, B := a * a, b * b;
    assert A > 0 && B > 0;
    BalanceStepY(A, B, x, y - 1);
    BalanceStepY(A, B, x + 1, y - 1);
    BalanceStepX(A, B, x + 1, y - 1);
    var t := A * (2 * (y - 1) + 1);
    assert t == 2 * (A * y) - A;
    assert A * (y - 1) == A * y - A && B * (x + 1) == B * x + B && 4 * B * (x + 1) == 4 * (B * x) + 4 * B;
  }

  /** Of two candidates with the same absolute error on either side, the outer one is taken. */
  lemma OuterWins(A: nat, B: nat, x: nat, y: int)
    requires B > 0 && x >= 1 && Error(A, B, x - 1, y) <= 0 <= Error(A, B, x, y)
    requires Abs(Error(A, B, x - 1, y)) == Abs(Error(A, B, x, y))
    ensures Nearest(A, B, x, y)
  {
    hide Error, Balance;
    StepX(A, B, x, y);
    BalanceStepX(A, B, x, y);
    MulMonotone(B, 1, x);
    assert 4 * B * x == 4 * (B * x);
  }

  /** The circle of radius 3. */
  lemma SmallCircle(p: (int, int))
    ensures p in Arc(3, 3) <==> p == (3, 0) || p == (3, 1) || p == (2, 2)
  {
    var (x, y) := p;
    if 0 <= x && 0 <= y && x <= 4 && y <= 4 {
      assert Nearest(9, 9, x, y) <==> Balance(9, 9, x, y) <= 0 < Balance(9, 9, x + 1, y);
    } else if 0 <= x && 0 <= y && x > 4 {
      BalanceMonotone(9, 9, 4, 0, x, y);
    }
  }

  /** The ellipse, pixel by pixel: a pixel is painted exactly when its distances from the axes are
      those of a point of one of the two arcs, or no further out than one when filling, and its
      quadrant is selected. */
  lemma EllipseIs(cx: int, cy: int, a: int, b: int, m: Mask, p: (int, int))
    requires a >= 1 && b >= 1
    ensures var (dx, dy) := (p.0 - cx, p.1 - cy);
            p in Strokes(cx, cy, Arc(a, b), false, m) + Strokes(cx, cy, Arc(b, a), true, m) <==>
              Selected(m, dx, dy) && exists u: nat :: OnEllipse(a, b, u, Abs(dy)) && (if m.fill then Abs(dx) <= u else Abs(dx) == u)
  {
    hide Stroke, Selected, Arc;
    var (dx, dy) := (p.0 - cx, p.1 - cy);
    if p in Strokes(cx, cy, Arc(a, b), false, m) {
      var q :| q in Arc(a, b) && p in StrokeAt(cx, cy, q, false, m);
      ArcIsPositive(a, b, q);
      StrokeIs(cx, cy, q.0, q.1, m, p);
      assert OnEllipse(a, b, q.0, Abs(dy));
    }
    if p in Strokes(cx, cy, Arc(b, a), true, m) {
      var q :| q in Arc(b, a) && p in StrokeAt(cx, cy, q, true, m);
      ArcIsPositive(b, a, q);
      StrokeIs(cx, cy, q.1, q.0, m, p);
      assert OnEllipse(a, b, q.1, Abs(dy));
    }
    if Selected(m, dx, dy) && exists u: nat :: OnEllipse(a, b, u, Abs(dy)) && (if m.fill then Abs(dx) <= u else Abs(dx) == u) {
      var u: nat :| OnEllipse(a, b, u, Abs(dy)) && (if m.fill then Abs(dx) <= u else Abs(dx) == u);
      StrokeIs(cx, cy, u, Abs(dy), m, p);
      if (u, Abs(dy) as int) in Arc(a, b) {
        assert p in StrokeAt(cx, cy, (u, Abs(dy)), false, m);
      } else {
        assert p in StrokeAt(cx, cy, (Abs(dy), u), true, m);
      }
    }
  }

  /** A point of either arc, as distances from the two axes. */
  ghost predicate OnEllipse(a: int, b: int, u: nat, v: nat) { (u, v) in Arc(a, b) || (v, u) in Arc(b, a) }

  lemma ArcIsPositive(a: int, b: int, q: (int, int))
    requires a >= 1 && b >= 1 && q in Arc(a, b)
    ensures 0 <= q.0 && 0 <= q.1
  {}
}
