/** Polygons of extmod/modframebuf.c. Each scan line collects the x coordinates where edges
    cross it, sorts them and fills between pairs; the result is proved to be the even-odd rule. */
module FbPoly {
  import opened Common
  import opened FbPixels
  import opened FbFill
  import opened FbLine

  type Vertex = (int, int)

  /** Division that truncates towards zero. */
  function TDiv(a: int, b: int): int
    requires b != 0
  {
    if (a >= 0) == (b > 0) then Abs(a) / Abs(b) else -(Abs(a) / Abs(b))
  }

  /** The k-th vertex met when walking the polygon from vertex 0 backwards and round to 0 again. */
  function Corner(poly: seq<Vertex>, k: nat): Vertex
    requires 0 < |poly| && k <= |poly|
  {
    if k == 0 then poly[0] else poly[|poly| - k]
  }

  // ---------- crossings ----------

  predicate Below(p: Vertex, row: int) { p.1 > row }

  /** The edge crosses the scan line; its lower end is not counted. */
  predicate Crosses(p: Vertex, q: Vertex, row: int) { Below(p, row) != Below(q, row) }

  /** Where it crosses, in 1/32 pixels. */
  function Crossing(p: Vertex, q: Vertex, row: int): int
    requires Crosses(p, q, row)
  {
    32 * p.0 + TDiv(32 * (q.0 - p.0) * (row - p.1), q.1 - p.1)
  }

  function Node(p: Vertex, q: Vertex, row: int): int
    requires Crosses(p, q, row)
  {
    TDiv(Crossing(p, q, row) + 16, 32)
  }

  /** The crossings of the first k edges, in the order they are met. */
  function Nodes(poly: seq<Vertex>, row: int, k: nat): seq<int>
    requires 0 < |poly| && k <= |poly|
  {
    if k == 0 then []
    else
      var p, q := Corner(poly, k - 1), Corner(poly, k);
      Nodes(poly, row, k - 1) + if Crosses(p, q, row) then [Node(p, q, row)] else []
  }

  /** Crossings so far and the side of the scan line have the same parity, so a closed polygon
      has an even number of them, and there are never more than edges. */
  lemma {:induction false} NodesEven(poly: seq<Vertex>, row: int, k: nat)
    requires 0 < |poly| && k <= |poly|
    ensures |Nodes(poly, row, k)| <= k
    ensures |Nodes(poly, row, k)| % 2 == 0 <==> Below(Corner(poly, k), row) == Below(Corner(poly, 0), row)
    ensures k == |poly| ==> |Nodes(poly, row, k)| % 2 == 0
    decreases k
  {
    hide Node;
    if k == 0 {
    } else {
      NodesEven(poly, row, k - 1);
    }
  }

  lemma AbsMul(m: int, t: int)
    ensures Abs(m * t) == Abs(m) * Abs(t)
    ensures (m >= 0 && t >= 0) || (m <= 0 && t <= 0) ==> m * t >= 0
    ensures (m >= 0 && t <= 0) || (m <= 0 && t >= 0) ==> m * t <= 0
  {}

  lemma Interpolate(m: int, t: int, d: int)
    requires d != 0 && (if d > 0 then 0 <= t <= d else d <= t <= 0)
    ensures Min(0, m) <= TDiv(m * t, d) <= Max(0, m)
  {
    AbsMul(m, t);
    MulMonotone(Abs(m), Abs(t), Abs(d));
    DivBound(Abs(m * t), Abs(d), Abs(m));
    if m * t == 0 { assert Abs(m * t) / Abs(d) == 0; }
  }

  lemma DivBound(a: nat, e: nat, n: nat)
    requires 0 < e && a <= n * e
    ensures 0 <= a / e <= n
  {
    assert e * (n + 1) == n * e + e;
    if a / e > n {
      MulMonotone(e, n + 1, a / e);
    }
  }

  /** The crossing lies between the edge's ends. */
  lemma CrossingBetween(p: Vertex, q: Vertex, row: int)
    requires Crosses(p, q, row)
    ensures 32 * Min(p.0, q.0) <= Crossing(p, q, row) <= 32 * Max(p.0, q.0)
  {
    hide TDiv;
    Interpolate(32 * (q.0 - p.0), row - p.1, q.1 - p.1);
  }

  /** The rounded crossing never leaves its edge on the left; it leaves it on the right exactly
      when the edge's right end is negative and the crossing is less than half a pixel from it. */
  lemma NodeBetween(p: Vertex, q: Vertex, row: int)
    requires Crosses(p, q, row)
    ensures Min(p.0, q.0) <= Node(p, q, row) <= Max(p.0, q.0) + 1
    ensures Node(p, q, row) <= Max(p.0, q.0) <==>
            Max(p.0, q.0) >= 0 || Crossing(p, q, row) + 16 <= 32 * Max(p.0, q.0)
    // half a pixel from the crossing, but up to one and a half to its right once it is left of the origin
    ensures Crossing(p, q, row) >= -16 ==> -16 <= Crossing(p, q, row) - 32 * Node(p, q, row) < 16
    ensures Crossing(p, q, row) < -16 ==> -48 < Crossing(p, q, row) - 32 * Node(p, q, row) <= -16
  {
    hide Crossing;
    CrossingBetween(p, q, row);
  }

  /** A vertical edge at x = -5 is filled from x = -4. */
  lemma NegativeEdgeMoves()
    ensures Crosses((-5, 0), (-5, 10), 3) && Node((-5, 0), (-5, 10), 3) == -4
  {
    assert Crossing((-5, 0), (-5, 10), 3) == -160;
  }

  // ---------- sorting ----------

  /** How many elements are smaller than v. */
  function Less(s: seq<int>, v: int): nat {
    if s == [] then 0 else (if s[0] < v then 1 else 0) + Less(s[1..], v)
  }

  function Inversions(s: seq<int>): nat {
    if s == [] then 0 else Less(s[1..], s[0]) + Inversions(s[1..])
  }

  function Swapped(s: seq<int>, i: nat): seq<int>
    requires i + 1 < |s|
  {
    s[i := s[i + 1]][i + 1 := s[i]]
  }

  lemma SwappedTail(s: seq<int>, i: nat)
    requires 0 < i && i + 1 < |s|
    ensures Swapped(s, i)[0] == s[0] && Swapped(s, i)[1..] == Swapped(s[1..], i - 1)
  {}

  lemma SwappedHead(s: seq<int>)
    requires 1 < |s|
    ensures Swapped(s, 0) == [s[1], s[0]] + s[2..] && s == [s[0], s[1]] + s[2..]
    ensures s[1..] == [s[1]] + s[2..] && Swapped(s, 0)[1..] == [s[0]] + s[2..]
  {}

  lemma {:induction false} LessSwapped(s: seq<int>, i: nat, v: int)
    requires i + 1 < |s|
    ensures Less(Swapped(s, i), v) == Less(s, v)
    decreases i
  {
    if i == 0 {
      SwappedHead(s);
    } else {
      SwappedTail(s, i);
      LessSwapped(s[1..], i - 1, v);
    }
  }

  /** Exchanging neighbours that are out of order removes exactly one inversion. */
  lemma {:induction false} InversionsSwapped(s: seq<int>, i: nat)
    requires i + 1 < |s| && s[i] > s[i + 1]
    ensures Inversions(Swapped(s, i)) == Inversions(s) - 1
    decreases i
  {
    if i == 0 {
      SwappedHead(s);
      assert s[1..][1..] == s[2..];
      assert Swapped(s, 0)[1..][1..] == s[2..];
    } else {
      SwappedTail(s, i);
      InversionsSwapped(s[1..], i - 1);
      LessSwapped(s[1..], i - 1, s[0]);
    }
  }

  predicate Sorted(s: seq<int>) { forall i, j :: 0 <= i < j < |s| ==> s[i] <= s[j] }

  /** The same elements, and so the same counts. */
  ghost predicate Permuted(s: seq<int>, t: seq<int>) {
    multiset(s) == multiset(t) && forall v :: Less(s, v) == Less(t, v)
  }

  lemma SwapPermutes(s: seq<int>, i: nat, t: seq<int>)
    requires i + 1 < |s| && Permuted(t, s)
    ensures Permuted(t, Swapped(s, i))
  {
    hide Less;
    forall v ensures Less(Swapped(s, i), v) == Less(s, v) { LessSwapped(s, i, v); }
  }

  lemma SortedPrefix(s: seq<int>, i: nat)
    requires i + 1 < |s| && Sorted(s[..i + 1])
    ensures s[i] <= s[i + 1] ==> Sorted(s[..i + 2])
    ensures Sorted(Swapped(s, i)[..if i > 0 then i else 1])
  {
    var t := Swapped(s, i)[..if i > 0 then i else 1];
    forall p, q | 0 <= p < q < |t| ensures t[p] <= t[q] { assert t[p] == s[..i + 1][p] && t[q] == s[..i + 1][q]; }
    if s[i] <= s[i + 1] {
      var u := s[..i + 2];
      forall p, q | 0 <= p < q < |u| ensures u[p] <= u[q] {
        assert u[p] == s[..i + 1][p];
        if q <= i { assert u[q] == s[..i + 1][q]; }
      }
    }
  }

  /** The back-stepping sort: terminates, sorts, and only permutes. */
  method SortNodes(nodes: array<int>, n: nat)
    requires n <= nodes.Length
    modifies nodes
    ensures Sorted(nodes[..n]) && Permuted(old(nodes[..n]), nodes[..n])
    ensures nodes[n..] == old(nodes[n..])
  {
    hide Permuted, Sorted, Inversions, Swapped;
    ghost var start := nodes[..n];
    ghost var s := start;
    SortedShort(s[..Min(n, 1)]);
    SamePermuted(s);
    var i := 0;
    while i + 1 < n
      invariant 0 <= i <= Max(0, n - 1) && s == nodes[..n]
      invariant Sorted(s[..Min(n, i + 1)]) && Permuted(start, s)
      invariant nodes[n..] == old(nodes[n..])
      decreases 2 * Inversions(s) + n - i
    {
      SortedPrefix(s, i);
      if nodes[i] > nodes[i + 1] {
        InversionsSwapped(s, i);
        SwapPermutes(s, i, start);
        nodes[i], nodes[i + 1] := nodes[i + 1], nodes[i];
        SwappedIs(s, i, nodes[..n]);
        s := Swapped(s, i);
        if i > 0 {
          i := i - 1;
        }
      } else {
        i := i + 1;
      }
    }
    assert s[..n] == s;
  }

  lemma SwappedIs(s: seq<int>, i: nat, t: seq<int>)
    requires i + 1 < |s| == |t| && t[i] == s[i + 1] && t[i + 1] == s[i]
    requires forall k :: 0 <= k < |s| && k != i && k != i + 1 ==> t[k] == s[k]
    ensures t == Swapped(s, i)
  {}

  lemma SortedShort(s: seq<int>)
    requires |s| <= 1
    ensures Sorted(s)
  {}

  lemma SamePermuted(s: seq<int>)
    ensures Permuted(s, s)
  {}

  // ---------- the even-odd rule ----------

  /** u is on a crossing or has an odd number of them to its left. */
  predicate EvenOdd(nodes: seq<int>, u: int) { u in nodes || Less(nodes, u) % 2 == 1 }

  /** u is between the nodes of some pair. */
  predicate InSpans(nodes: seq<int>, u: int)
    requires |nodes| % 2 == 0
    decreases |nodes|
  {
    |nodes| > 0 && (nodes[0] <= u <= nodes[1] || InSpans(nodes[2..], u))
  }

  lemma {:induction false} NoneLess(s: seq<int>, u: int)
    requires forall i :: 0 <= i < |s| ==> u <= s[i]
    ensures Less(s, u) == 0
    decreases |s|
  {
    if s == [] {
    } else {
      NoneLess(s[1..], u);
    }
  }

  /** On sorted nodes, filling pairs is the even-odd rule. */
  lemma {:induction false} SpansAreEvenOdd(nodes: seq<int>, u: int)
    requires Sorted(nodes) && |nodes| % 2 == 0
    ensures InSpans(nodes, u) <==> EvenOdd(nodes, u)
    decreases |nodes|
  {
    if nodes == [] {
    } else {
      var p, q, rest := nodes[0], nodes[1], nodes[2..];
      assert nodes == [p, q] + rest;
      SpansAreEvenOdd(rest, u);
      assert nodes[1..] == [q] + rest && nodes[1..][1..] == rest;
      assert u in nodes <==> u == p || u == q || u in rest;
      assert Less(nodes, u) == (if p < u then 1 else 0) + Less(nodes[1..], u);
      assert Less(nodes[1..], u) == (if q < u then 1 else 0) + Less(rest, u);
      assert p <= q && forall i :: 0 <= i < |rest| ==> q <= rest[i] by {
        assert forall i :: 0 <= i < |rest| ==> rest[i] == nodes[i + 2];
      }
      if u <= q {
        NoneLess(rest, u);
      }
    }
  }

  /** Sorting does not change what the rule says. */
  lemma EvenOddPermuted(a: seq<int>, b: seq<int>, u: int)
    requires Permuted(b, a)
    ensures EvenOdd(a, u) <==> EvenOdd(b, u)
  {
    assert u in a <==> u in multiset(a);
    assert u in b <==> u in multiset(b);
  }

  // ---------- one scan line ----------

  /** The pixels that the pairs of a row paint. */
  ghost function Spans(nodes: seq<int>, x: int, y: int): iset<(int, int)>
    requires |nodes| % 2 == 0
  {
    iset p: (int, int) | p.1 == y && InSpans(nodes, p.0 - x)
  }

  lemma SpansFirst(nodes: seq<int>, x: int, y: int)
    requires |nodes| % 2 == 0 && |nodes| > 0
    ensures Spans(nodes, x, y) == Rectangle(x + nodes[0], y, nodes[1] - nodes[0] + 1, 1) + Spans(nodes[2..], x, y)
  {}

  method FillSpans(fb: FrameBuffer, nodes: array<int>, n: nat, x: int, y: int, c: Colour)
    requires fb.Valid() && n <= nodes.Length && n % 2 == 0 && fb.buf as object != nodes
    modifies fb.buf
    ensures Painted(fb.g, old(fb.buf[..]), fb.buf[..], Spans(nodes[..n], x, y), c)
  {
    hide Painted, InSpans;
    ghost var s, all := fb.buf[..], Spans(nodes[..n], x, y);
    ghost var done: iset<(int, int)> := iset{};
    PaintedNothing(fb.g, s, c);
    var i := 0;
    while i < n
      invariant 0 <= i <= n && i % 2 == 0
      invariant done + Spans(nodes[i..n], x, y) == all
      invariant Painted(fb.g, s, fb.buf[..], done, c)
    {
      ghost var t := fb.buf[..];
      SpansFirst(nodes[i..n], x, y);
      assert nodes[i..n][2..] == nodes[i + 2..n];
      FillRect(fb, x + nodes[i], y, nodes[i + 1] - nodes[i] + 1, 1, c);
      ghost var r := Rectangle(x + nodes[i], y, nodes[i + 1] - nodes[i] + 1, 1);
      PaintedTwice(fb.g, s, t, fb.buf[..], done, r, c);
      done := done + r;
      i := i + 2;
    }
    SpansNone(nodes[i..n], x, y);
  }

  lemma SpansNone(nodes: seq<int>, x: int, y: int)
    requires nodes == []
    ensures Spans(nodes, x, y) == iset{}
  {}

  /** What an edge that ends on the scan line adds: its lower end, or all of it if level. */
  ghost function Foot(p: Vertex, q: Vertex, row: int, x: int, y: int): iset<(int, int)> {
    if Crosses(p, q, row) || row != Max(p.1, q.1) then iset{}
    else if p.1 < q.1 then iset{(x + q.0, y + q.1)}
    else if q.1 < p.1 then iset{(x + p.0, y + p.1)}
    else Line(x + p.0, y + p.1, x + q.0, y + q.1)
  }

  ghost function Feet(poly: seq<Vertex>, row: int, x: int, y: int, k: nat): iset<(int, int)>
    requires 0 < |poly| && k <= |poly|
  {
    if k == 0 then iset{} else Feet(poly, row, x, y, k - 1) + Foot(Corner(poly, k - 1), Corner(poly, k), row, x, y)
  }

  /** One pass over the edges: paints the feet and collects the nodes. */
  method CollectNodes(fb: FrameBuffer, poly: seq<Vertex>, nodes: array<int>, row: int, x: int, y: int, c: Colour)
    returns (n: nat)
    requires fb.Valid() && 0 < |poly| <= nodes.Length && fb.buf as object != nodes
    modifies fb.buf, nodes
    ensures n <= |poly| && n % 2 == 0 && nodes[..n] == Nodes(poly, row, |poly|)
    ensures Painted(fb.g, old(fb.buf[..]), fb.buf[..], Feet(poly, row, x, y, |poly|), c)
  {
    hide Painted, Node, Line;
    ghost var s := fb.buf[..];
    PaintedNothing(fb.g, s, c);
    n := 0;
    var p := poly[0];
    for k := 0 to |poly|
      invariant p == Corner(poly, k) && n <= k && nodes[..n] == Nodes(poly, row, k)
      invariant Painted(fb.g, s, fb.buf[..], Feet(poly, row, x, y, k), c)
    {
      var q := poly[|poly| - 1 - k];
      ghost var t := fb.buf[..];
      PaintedNothing(fb.g, t, c);
      if p.1 != q.1 && ((p.1 > row && q.1 <= row) || (p.1 <= row && q.1 > row)) {
        nodes[n] := Node(p, q, row);
        n := n + 1;
      } else if row == Max(p.1, q.1) {
        if p.1 < q.1 {
          SetPixelChecked(fb, x + q.0, y + q.1, c, true);
        } else if q.1 < p.1 {
          SetPixelChecked(fb, x + p.0, y + p.1, c, true);
        } else {
          DrawLine(fb, x + p.0, y + p.1, x + q.0, y + q.1, c);
        }
      }
      PaintedTwice(fb.g, s, t, fb.buf[..], Feet(poly, row, x, y, k), Foot(p, q, row, x, y), c);
      p := q;
    }
    NodesEven(poly, row, |poly|);
  }

  // ---------- the whole polygon ----------

  /** Pixel (u, row), relative to the polygon's origin, belongs to the filled polygon. */
  ghost predicate Inside(poly: seq<Vertex>, u: int, row: int)
    requires 0 < |poly|
  {
    EvenOdd(Nodes(poly, row, |poly|), u) || OnFoot(poly, u, row)
  }

  /** u is the lower end of an edge that ends on the row, or on a level edge of the row. */
  ghost predicate OnFoot(poly: seq<Vertex>, u: int, row: int)
    requires 0 < |poly|
  {
    exists k :: 0 <= k < |poly| && FootAt(Corner(poly, k), Corner(poly, k + 1), u, row)
  }

  predicate FootAt(p: Vertex, q: Vertex, u: int, row: int) {
    && row == Max(p.1, q.1)
    && (if p.1 < q.1 then u == q.0 else if q.1 < p.1 then u == p.0 else Min(p.0, q.0) <= u <= Max(p.0, q.0))
  }

  ghost function Interior(poly: seq<Vertex>, x: int, y: int): iset<(int, int)>
    requires 0 < |poly|
  {
    iset p: (int, int) | Inside(poly, p.0 - x, p.1 - y)
  }

  ghost function InteriorBefore(poly: seq<Vertex>, x: int, y: int, row: int): iset<(int, int)>
    requires 0 < |poly|
  {
    iset p: (int, int) | Inside(poly, p.0 - x, p.1 - y) && p.1 - y < row
  }

  /** A level line is every pixel between its ends. */
  lemma LevelLine(x1: int, x2: int, y: int, p: (int, int))
    ensures p in Line(x1, y, x2, y) <==> p.1 == y && Min(x1, x2) <= p.0 <= Max(x1, x2)
  {
    var n := Steps(x1, y, x2, y);
    forall i: nat | i <= n ensures Point(x1, y, x2, y, i) == (x1 + Sign(x2 - x1) * i, y) {
      if n > 0 { MinorUnique(n, 0, i, 0); }
    }
    if p.1 == y && Min(x1, x2) <= p.0 <= Max(x1, x2) {
      var i := Abs(p.0 - x1);
      assert i <= n && Point(x1, y, x2, y, i) == p;
    }
  }

  lemma FootMember(p: Vertex, q: Vertex, row: int, x: int, y: int, z: (int, int))
    ensures z in Foot(p, q, row, x, y) <==> z.1 == y + row && FootAt(p, q, z.0 - x, row)
  {
    hide Line;
    if p.1 == q.1 {
      LevelLine(x + p.0, x + q.0, y + p.1, z);
    }
  }

  lemma {:induction false} FeetMember(poly: seq<Vertex>, row: int, x: int, y: int, k: nat, z: (int, int))
    requires 0 < |poly| && k <= |poly|
    ensures z in Feet(poly, row, x, y, k) <==>
            z.1 == y + row && exists i :: 0 <= i < k && FootAt(Corner(poly, i), Corner(poly, i + 1), z.0 - x, row)
    decreases k
  {
    hide Foot, FootAt;
    if k == 0 {
    } else {
      FeetMember(poly, row, x, y, k - 1, z);
      FootMember(Corner(poly, k - 1), Corner(poly, k), row, x, y, z);
    }
  }

  /** What one scan line paints is exactly its row of the polygon. */
  lemma RowIsInside(poly: seq<Vertex>, row: int, x: int, y: int, sorted: seq<int>)
    requires 0 < |poly| && |sorted| % 2 == 0 && Sorted(sorted)
    requires Permuted(Nodes(poly, row, |poly|), sorted)
    ensures InteriorBefore(poly, x, y, row + 1) == InteriorBefore(poly, x, y, row) +
            (Feet(poly, row, x, y, |poly|) + Spans(sorted, x, y + row))
  {
    hide Nodes, Feet, FootAt, EvenOdd, InSpans, Corner, Permuted;
    forall z: (int, int)
      ensures z in Feet(poly, row, x, y, |poly|) + Spans(sorted, x, y + row) <==>
              z.1 == y + row && Inside(poly, z.0 - x, row)
    {
      FeetMember(poly, row, x, y, |poly|, z);
      SpansAreEvenOdd(sorted, z.0 - x);
      EvenOddPermuted(sorted, Nodes(poly, row, |poly|), z.0 - x);
    }
  }

  /** Vertices all within [lo, hi] vertically: no row outside has any pixel. */
  ghost predicate Within(poly: seq<Vertex>, lo: int, hi: int) {
    forall i :: 0 <= i < |poly| ==> lo <= poly[i].1 <= hi
  }

  lemma {:induction false} NoNodesOutside(poly: seq<Vertex>, lo: int, hi: int, row: int, k: nat)
    requires 0 < |poly| && k <= |poly| && Within(poly, lo, hi) && (row < lo || row >= hi)
    ensures Nodes(poly, row, k) == []
    decreases k
  {
    hide Node;
    if k == 0 {
    } else {
      NoNodesOutside(poly, lo, hi, row, k - 1);
      assert !Crosses(Corner(poly, k - 1), Corner(poly, k), row);
      assert Nodes(poly, row, k - 1) + [] == [];
    }
  }

  lemma OutsideRows(poly: seq<Vertex>, lo: int, hi: int, u: int, row: int)
    requires 0 < |poly| && Within(poly, lo, hi) && (row < lo || row > hi)
    ensures !Inside(poly, u, row)
  {
    NoNodesOutside(poly, lo, hi, row, |poly|);
  }

  /** One row of the fill: collect, sort, fill between pairs. */
  method FillRow(fb: FrameBuffer, poly: seq<Vertex>, row: int, x: int, y: int, c: Colour, ghost s: seq<Byte>)
    requires fb.Valid() && 0 < |poly|
    requires Painted(fb.g, s, fb.buf[..], InteriorBefore(poly, x, y, row), c)
    modifies fb.buf
    ensures Painted(fb.g, s, fb.buf[..], InteriorBefore(poly, x, y, row + 1), c)
  {
    hide Painted, Nodes, Feet, InteriorBefore, Permuted;
    var nodes := new int[|poly|];
    ghost var t := fb.buf[..];
    var n := CollectNodes(fb, poly, nodes, row, x, y, c);
    ghost var u := fb.buf[..];
    SortNodes(nodes, n);
    RowIsInside(poly, row, x, y, nodes[..n]);
    FillSpans(fb, nodes, n, x, y + row, c);
    ghost var feet, spans := Feet(poly, row, x, y, |poly|), Spans(nodes[..n], x, y + row);
    PaintedTwice(fb.g, t, u, fb.buf[..], feet, spans, c);
    PaintedTwice(fb.g, s, t, fb.buf[..], InteriorBefore(poly, x, y, row), feet + spans, c);
  }

  /** framebuf_poly with fill: paints exactly the pixels inside the polygon. */
  method FillPoly(fb: FrameBuffer, poly: seq<Vertex>, x: int, y: int, c: Colour)
    requires fb.Valid()
    modifies fb.buf
    ensures Painted(fb.g, old(fb.buf[..]), fb.buf[..], if poly == [] then iset{} else Interior(poly, x, y), c)
  {
    hide Painted, Inside;
    ghost var s := fb.buf[..];
    PaintedNothing(fb.g, s, c);
    if poly == [] { return; }
    var lo, hi := poly[0].1, poly[0].1;
    for i := 0 to |poly|
      invariant lo <= hi && forall j :: 0 <= j < i ==> lo <= poly[j].1 <= hi
    {
      lo, hi := Min(lo, poly[i].1), Max(hi, poly[i].1);
    }
    RowsBefore(poly, lo, hi, x, y);
    for row := lo to hi + 1
      invariant Painted(fb.g, s, fb.buf[..], InteriorBefore(poly, x, y, row), c)
    {
      FillRow(fb, poly, row, x, y, c, s);
    }
  }

  lemma RowsBefore(poly: seq<Vertex>, lo: int, hi: int, x: int, y: int)
    requires 0 < |poly| && Within(poly, lo, hi)
    ensures InteriorBefore(poly, x, y, lo) == iset{}
    ensures InteriorBefore(poly, x, y, hi + 1) == Interior(poly, x, y)
  {
    forall u, row | row < lo || row > hi ensures !Inside(poly, u, row) {
      OutsideRows(poly, lo, hi, u, row);
    }
  }

  /** The outline: every edge as a line. */
  ghost function Outline(poly: seq<Vertex>, x: int, y: int, k: nat): iset<(int, int)>
    requires 0 < |poly| && k <= |poly|
  {
    if k == 0 then iset{}
    else
      var p, q := Corner(poly, k - 1), Corner(poly, k);
      Outline(poly, x, y, k - 1) + Line(x + p.0, y + p.1, x + q.0, y + q.1)
  }

  /** framebuf_poly without fill. */
  method DrawPoly(fb: FrameBuffer, poly: seq<Vertex>, x: int, y: int, c: Colour)
    requires fb.Valid()
    modifies fb.buf
    ensures Painted(fb.g, old(fb.buf[..]), fb.buf[..], if poly == [] then iset{} else Outline(poly, x, y, |poly|), c)
  {
    hide Painted, Line;
    ghost var s := fb.buf[..];
    PaintedNothing(fb.g, s, c);
    if poly == [] { return; }
    var p := poly[0];
    for k := 0 to |poly|
      invariant p == Corner(poly, k)
      invariant Painted(fb.g, s, fb.buf[..], Outline(poly, x, y, k), c)
    {
      var q := poly[|poly| - 1 - k];
      ghost var t := fb.buf[..];
      DrawLine(fb, x + p.0, y + p.1, x + q.0, y + q.1, c);
      PaintedTwice(fb.g, s, t, fb.buf[..], Outline(poly, x, y, k), Line(x + p.0, y + p.1, x + q.0, y + q.1), c);
      p := q;
    }
  }

  // ---------- bounding box ----------

  ghost predicate InBounds(poly: seq<Vertex>, left: int, right: int) {
    forall i :: 0 <= i < |poly| ==> left <= poly[i].0 <= right
  }

  /** If edge k crosses the row, it does so at least half a pixel short of `right`. */
  predicate ShortOf(poly: seq<Vertex>, right: int, row: int, k: nat)
    requires k < |poly|
  {
    var p, q := Corner(poly, k), Corner(poly, k + 1);
    Crosses(p, q, row) ==> Crossing(p, q, row) + 16 <= 32 * right
  }

  /** Rounding keeps every node of the row at or left of `right`. */
  ghost predicate RowRounds(poly: seq<Vertex>, right: int, row: int) {
    0 <= right || forall k: nat :: k < |poly| ==> ShortOf(poly, right, row, k)
  }

  /** Where a rounded crossing lies with respect to any bound on its edge. */
  lemma NodeAtMost(p: Vertex, q: Vertex, row: int, right: int)
    requires Crosses(p, q, row) && Max(p.0, q.0) <= right
    ensures Node(p, q, row) <= right <==> 0 <= right || Crossing(p, q, row) + 16 <= 32 * right
  {
    hide Crossing;
    CrossingBetween(p, q, row);
  }

  lemma {:induction false} NodesInBox(poly: seq<Vertex>, left: int, right: int, row: int, k: nat, i: nat)
    requires 0 < |poly| && k <= |poly| && InBounds(poly, left, right) && RowRounds(poly, right, row)
    requires i < |Nodes(poly, row, k)|
    ensures left <= Nodes(poly, row, k)[i] <= right
    decreases k
  {
    var p, q := Corner(poly, k - 1), Corner(poly, k);
    if i < |Nodes(poly, row, k - 1)| {
      NodesInBox(poly, left, right, row, k - 1, i);
    } else {
      NodeBetween(p, q, row);
      NodeAtMost(p, q, row, right);
      assert 0 <= right || ShortOf(poly, right, row, k - 1);
    }
  }

  /** Every crossing of a row is a node of the row, and so is painted. */
  lemma {:induction false} NodeIsInside(poly: seq<Vertex>, row: int, k: nat, n: nat)
    requires k < n <= |poly| && Crosses(Corner(poly, k), Corner(poly, k + 1), row)
    ensures Node(Corner(poly, k), Corner(poly, k + 1), row) in Nodes(poly, row, n)
    ensures Inside(poly, Node(Corner(poly, k), Corner(poly, k + 1), row), row)
    decreases n
  {
    hide Node;
    var v := Node(Corner(poly, k), Corner(poly, k + 1), row);
    if k + 1 < n {
      NodeIsInside(poly, row, k, n - 1);
    } else {
      assert Nodes(poly, row, n)[|Nodes(poly, row, n)| - 1] == v;
      NodeStays(poly, row, v, n, |poly|);
    }
  }

  lemma {:induction false} NodeStays(poly: seq<Vertex>, row: int, v: int, n: nat, m: nat)
    requires 0 < |poly| && n <= m <= |poly| && v in Nodes(poly, row, n)
    ensures v in Nodes(poly, row, m)
    decreases m - n
  {
    if n < m { NodeStays(poly, row, v, n + 1, m); }
  }

  lemma {:induction false} LessBounds(s: seq<int>, left: int, right: int, u: int)
    requires forall i :: 0 <= i < |s| ==> left <= s[i] <= right
    ensures Less(s, u) > 0 ==> left < u
    ensures u > right ==> Less(s, u) == |s|
    decreases |s|
  {
    if s == [] {
    } else {
      assert forall i :: 0 <= i < |s[1..]| ==> s[1..][i] == s[i + 1];
      LessBounds(s[1..], left, right, u);
    }
  }

  lemma InsideIsInBox(poly: seq<Vertex>, left: int, right: int, lo: int, hi: int, u: int, row: int)
    requires 0 < |poly| && InBounds(poly, left, right) && Within(poly, lo, hi) && RowRounds(poly, right, row)
    requires Inside(poly, u, row)
    ensures left <= u <= right && lo <= row <= hi
  {
    hide Nodes, RowRounds;
    if row < lo || row > hi { OutsideRows(poly, lo, hi, u, row); }
    var nodes := Nodes(poly, row, |poly|);
    if OnFoot(poly, u, row) {
      var k :| 0 <= k < |poly| && FootAt(Corner(poly, k), Corner(poly, k + 1), u, row);
    } else {
      forall i | 0 <= i < |nodes| ensures left <= nodes[i] <= right { NodesInBox(poly, left, right, row, |poly|, i); }
      NodesEven(poly, row, |poly|);
      LessBounds(nodes, left, right, u);
    }
  }

  ghost predicate InsideOnlyIn(poly: seq<Vertex>, left: int, right: int, lo: int, hi: int)
    requires 0 < |poly|
  {
    forall u: int, row: int :: Inside(poly, u, row) ==> left <= u <= right && lo <= row <= hi
  }

  /** Nothing outside a box that holds the vertices is painted if and only if the box reaches to the
      origin or beyond, or every crossing is at least half a pixel short of its right side. */
  lemma PaintsOnlyItsBox(poly: seq<Vertex>, left: int, right: int, lo: int, hi: int)
    requires 0 < |poly| && InBounds(poly, left, right) && Within(poly, lo, hi)
    ensures InsideOnlyIn(poly, left, right, lo, hi) <==> forall row: int :: RowRounds(poly, right, row)
  {
    hide Inside;
    if forall row: int :: RowRounds(poly, right, row) {
      forall u: int, row: int | Inside(poly, u, row) ensures left <= u <= right && lo <= row <= hi {
        InsideIsInBox(poly, left, right, lo, hi, u, row);
      }
    } else {
      var row: int :| !RowRounds(poly, right, row);
      var k: nat :| k < |poly| && !ShortOf(poly, right, row, k);
      var p, q := Corner(poly, k), Corner(poly, k + 1);
      NodeIsInside(poly, row, k, |poly|);
      NodeAtMost(p, q, row, right);
      assert Inside(poly, Node(p, q, row), row);
    }
  }

  /** A triangle left of the origin that paints a pixel to the right of all its vertices. */
  lemma TriangleLeavesItsBox()
    ensures var poly := [(-5, 0), (-5, 10), (-10, 5)];
            InBounds(poly, -10, -5) && Inside(poly, -4, 3)
  {
    var poly: seq<Vertex> := [(-5, 0), (-5, 10), (-10, 5)];
    assert Corner(poly, 2) == (-5, 10) && Corner(poly, 3) == (-5, 0);
    assert Crossing((-5, 10), (-5, 0), 3) == -160;
    NodeIsInside(poly, 3, 2, 3);
  }

  // ---------- the polygon as geometry ----------

  /** Truncating division, by what it leaves over. */
  lemma TDivIs(a: int, b: int)
    requires b != 0
    ensures Abs(a - b * TDiv(a, b)) < Abs(b) && Abs(b * TDiv(a, b)) <= Abs(a)
  {
    var q := Abs(a) / Abs(b);
    Quotient(Abs(a), Abs(b), q);
    SignedProduct(a, b, q);
  }

  lemma Quotient(n: nat, e: nat, q: nat)
    requires e > 0 && q == n / e
    ensures 0 <= n - e * q < e
  {}

  lemma SignedProduct(a: int, b: int, q: nat)
    requires b != 0
    ensures var t := if (a >= 0) == (b > 0) then q else 0 - q;
            b * t == if a >= 0 then Abs(b) * q else -(Abs(b) * q)
  {
    assert b * (0 - q) == -(b * q) && (-b) * q == -(b * q);
  }

  /** A crossing is within a 32nd of a pixel of the straight line through the edge's ends. */
  lemma CrossingOnLine(p: Vertex, q: Vertex, row: int)
    requires Crosses(p, q, row)
    ensures Abs((Crossing(p, q, row) - 32 * p.0) * (q.1 - p.1) - 32 * (q.0 - p.0) * (row - p.1)) < Abs(q.1 - p.1)
  {
    hide TDiv;
    var x, d := 32 * (q.0 - p.0) * (row - p.1), q.1 - p.1;
    TDivIs(x, d);
    assert TDiv(x, d) * d == d * TDiv(x, d);
  }

  /** Twice the area of the triangle of the edge and the point (u, row), with its sign. */
  function Area(p: Vertex, q: Vertex, row: int, u: int): int { (u - p.0) * (q.1 - p.1) - (q.0 - p.0) * (row - p.1) }

  /** The point (u, row) is to the right of the edge's straight line. */
  predicate RightOf(p: Vertex, q: Vertex, row: int, u: int) {
    if q.1 > p.1 then Area(p, q, row, u) > 0 else Area(p, q, row, u) < 0
  }

  /** It is more than half a pixel (17/32) away from that line, along the row. */
  predicate ClearOf(p: Vertex, q: Vertex, row: int, u: int) {
    32 * Abs(Area(p, q, row, u)) >= 17 * Abs(q.1 - p.1)
  }

  lemma Ahead(m: int, d: int, k: int)
    requires d != 0 && Abs(m * d) > k * Abs(d)
    ensures Abs(m) > k
    ensures d > 0 ==> (m * d > 0 <==> m > 0)
    ensures d < 0 ==> (m * d < 0 <==> m > 0)
  {
    AbsMul(m, d);
    if Abs(m) <= k { MulMonotone(Abs(d), Abs(m), k); }
    if m > 0 && d > 0 { assert m * d > 0; }
    if m > 0 && d < 0 { assert m * d < 0; }
  }

  /** A pixel clear of the edge is right of its node exactly when it is right of the edge. */
  lemma NodeSide(p: Vertex, q: Vertex, row: int, u: int)
    requires Crosses(p, q, row) && 0 <= p.0 && 0 <= q.0 && ClearOf(p, q, row, u)
    ensures Node(p, q, row) != u && (Node(p, q, row) < u <==> RightOf(p, q, row, u))
  {
    hide Crossing, Node, Area;
    AreaByCrossing(p, q, row, u);
    Ahead(32 * u - Crossing(p, q, row), q.1 - p.1, 16);
    NodeNear(p, q, row);
  }

  /** How far the pixel is from the crossing tells how far it is from the line. */
  lemma AreaByCrossing(p: Vertex, q: Vertex, row: int, u: int)
    requires Crosses(p, q, row)
    ensures Abs((32 * u - Crossing(p, q, row)) * (q.1 - p.1) - 32 * Area(p, q, row, u)) < Abs(q.1 - p.1)
  {
    hide Crossing;
    CrossingOnLine(p, q, row);
    Spread(u - p.0, Crossing(p, q, row) - 32 * p.0, q.1 - p.1);
    assert 32 * (q.0 - p.0) * (row - p.1) == 32 * ((q.0 - p.0) * (row - p.1));
  }

  lemma NodeNear(p: Vertex, q: Vertex, row: int)
    requires Crosses(p, q, row) && 0 <= p.0 && 0 <= q.0
    ensures -16 <= Crossing(p, q, row) - 32 * Node(p, q, row) < 16
  {
    hide Crossing, Node;
    CrossingBetween(p, q, row);
    NodeBetween(p, q, row);
  }

  lemma Spread(u: int, c: int, d: int)
    ensures (32 * u - c) * d == 32 * (u * d) - c * d
  {}

  /** How many of the first k edges cross the row to the left of u. */
  function EdgesLeft(poly: seq<Vertex>, row: int, u: int, k: nat): nat
    requires 0 < |poly| && k <= |poly|
  {
    if k == 0 then 0
    else
      var p, q := Corner(poly, k - 1), Corner(poly, k);
      EdgesLeft(poly, row, u, k - 1) + if Crosses(p, q, row) && RightOf(p, q, row, u) then 1 else 0
  }

  ghost predicate ClearOfAll(poly: seq<Vertex>, row: int, u: int, n: nat)
    requires n <= |poly|
  {
    forall k: nat :: k < n && Crosses(Corner(poly, k), Corner(poly, k + 1), row) ==>
      ClearOf(Corner(poly, k), Corner(poly, k + 1), row, u)
  }

  lemma {:induction false} LessAppend(s: seq<int>, v: int, u: int)
    ensures Less(s + [v], u) == Less(s, u) + if v < u then 1 else 0
    decreases |s|
  {
    if s == [] {
      assert s + [v] == [v];
    } else {
      assert (s + [v])[1..] == s[1..] + [v];
      LessAppend(s[1..], v, u);
    }
  }

  lemma {:induction false} NodesLeft(poly: seq<Vertex>, row: int, u: int, k: nat)
    requires 0 < |poly| && k <= |poly| && (forall i :: 0 <= i < |poly| ==> 0 <= poly[i].0) && ClearOfAll(poly, row, u, k)
    ensures u !in Nodes(poly, row, k) && Less(Nodes(poly, row, k), u) == EdgesLeft(poly, row, u, k)
    decreases k
  {
    hide Node, RightOf, ClearOf;
    if k == 0 {
    } else {
      NodesLeft(poly, row, u, k - 1);
      var p, q := Corner(poly, k - 1), Corner(poly, k);
      if Crosses(p, q, row) {
        NodeSide(p, q, row, u);
        LessAppend(Nodes(poly, row, k - 1), Node(p, q, row), u);
      } else {
        assert Nodes(poly, row, k) == Nodes(poly, row, k - 1);
      }
    }
  }

  /** A pixel more than half a pixel from every edge that crosses its row is painted exactly when an
      odd number of those edges pass to its left, or a lower end of an edge paints it. */
  lemma PaintsTheInterior(poly: seq<Vertex>, u: int, row: int)
    requires 0 < |poly| && (forall i :: 0 <= i < |poly| ==> 0 <= poly[i].0) && ClearOfAll(poly, row, u, |poly|)
    ensures Inside(poly, u, row) <==> EdgesLeft(poly, row, u, |poly|) % 2 == 1 || OnFoot(poly, u, row)
  {
    hide Nodes, EdgesLeft;
    NodesLeft(poly, row, u, |poly|);
  }

  /** The edges walked are the polygon's: each joins a vertex to the one before it, the first to the
      last. */
  lemma EdgesOfPolygon(poly: seq<Vertex>, i: nat)
    requires i < |poly|
    ensures var k := if i == 0 then 0 else |poly| - i;
            && k < |poly| && Corner(poly, k) == poly[i]
            && Corner(poly, k + 1) == poly[if i == 0 then |poly| - 1 else i - 1]
  {
  }

  /** Every vertex is painted, but for one left of the origin with both its edges below it. */
  lemma VerticesArePainted(poly: seq<Vertex>, i: nat)
    requires i < |poly|
    requires var before := poly[if i == 0 then |poly| - 1 else i - 1];
             0 <= poly[i].0 || before.1 <= poly[i].1
    ensures Inside(poly, poly[i].0, poly[i].1)
  {
    hide Nodes;
    EdgesOfPolygon(poly, i);
    var k := if i == 0 then 0 else |poly| - i;
    var p, q := Corner(poly, k), Corner(poly, k + 1);
    if q.1 <= p.1 {
      assert FootAt(p, q, p.0, p.1);
    } else {
      assert Crossing(p, q, p.1) == 32 * p.0;
      NodeIsInside(poly, p.1, k, |poly|);
    }
  }

  /** The half-square below the diagonal: row 5 of it is x = 0..5. */
  lemma TriangleRow(u: int)
    ensures Inside([(0, 0), (10, 0), (0, 10)], u, 5) <==> 0 <= u <= 5
  {
    hide Nodes, Less;
    TriangleNodes();
    CountTwo(0, 5, u);
  }

  lemma TriangleNodes()
    ensures var poly: seq<Vertex> := [(0, 0), (10, 0), (0, 10)];
            Nodes(poly, 5, 3) == [0, 5] && !exists k :: 0 <= k < 3 && Corner(poly, k).1 == 5
  {
    var poly: seq<Vertex> := [(0, 0), (10, 0), (0, 10)];
    assert Corner(poly, 0) == (0, 0) && Corner(poly, 1) == (0, 10) && Corner(poly, 2) == (10, 0) && Corner(poly, 3) == (0, 0);
    assert Node((0, 0), (0, 10), 5) == 0;
    assert Crossing((0, 10), (10, 0), 5) == 160;
    assert Node((0, 10), (10, 0), 5) == 5;
    assert Nodes(poly, 5, 1) == [0];
    assert Nodes(poly, 5, 2) == [0, 5];
  }

  lemma CountTwo(a: int, b: int, u: int)
    ensures Less([a, b], u) == (if a < u then 1 else 0) + if b < u then 1 else 0
  {
    assert [a, b][1..] == [b] && [b][1..] == [];
    assert Less([b], u) == if b < u then 1 else 0;
  }
}
