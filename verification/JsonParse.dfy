/** A recursive reading of the texts that the loader of extmod/modjson.c takes, and the proof that
    the stack machine accepts exactly those and leaves in memory exactly what is read, although it
    stores every container in its parent while still empty. */
module JsonParse {
  import opened Common
  import opened Json

  // ---------- the recursive reader ----------

  function Hollow(dict: bool): Tree { if dict then Obj(map[]) else Arr([]) }

  /** A container with one more value, which goes under the pending key in a dictionary. */
  function Added(c: Tree, key: Option<Atom>, t: Tree): Tree {
    match c
    case Scalar(_) => c
    case Arr(items) => Arr(items + [t])
    case Obj(members) => if key.Some? then Obj(members[KeyOf(key.value) := t]) else c
  }

  /** A list leaves alone a key that an inner dictionary left behind. */
  function KeyAfter(c: Tree, key: Option<Atom>): Option<Atom> { if c.Obj? then None else key }

  /** What a container's text gives: its content, the key left pending, whether no key was pending
      at any bracket inside, and the stream after the closing bracket. */
  datatype Body = Body(content: Tree, key: Option<Atom>, tidy: bool, rest: seq<Byte>)

  /** The text of an open container, to any closing bracket. Commas and colons are blanks. The
      outermost container may also be ended by the end of the stream. */
  function ParseBody(c: Tree, s: seq<Byte>, key: Option<Atom>, tidy: bool, outer: bool): (r: Option<Body>)
    ensures r.Some? ==> |r.value.rest| <= |s|
    ensures r.Some? && !outer ==> |r.value.rest| < |s| && (r.value.tidy ==> r.value.key == None)
    decreases |s|
  {
    if Cur(s) == 0 then
      if outer then Some(Body(c, key, tidy, s)) else None
    else
      var (x, rest) := Lex(s);
      match x
      case Bad => None
      case Blank => ParseBody(c, rest, key, tidy, outer)
      case Close => Some(Body(c, key, tidy && key == None, rest))
      case Value(a) =>
        if c.Obj? && key == None then ParseBody(c, rest, Some(a), tidy, outer)
        else ParseBody(Added(c, key, Scalar(a)), rest, KeyAfter(c, key), tidy, outer)
      case Open(dict) =>
        if c.Obj? && key == None then None
        else
          var k := KeyAfter(c, key);
          match ParseBody(Hollow(dict), rest, k, tidy && k == None, false)
          case None => None
          case Some(b) => ParseBody(Added(c, key, b.content), b.rest, b.key, b.tidy, outer)
  }

  predicate Ends(s: seq<Byte>) { Cur(SkipSpace(s)) == 0 }

  datatype Loaded = Loaded(tree: Tree, key: Option<Atom>, tidy: bool)

  /** A whole text: blanks, one value, trailing space. */
  function Parse(s: seq<Byte>): Option<Loaded>
    decreases |s|
  {
    if Cur(s) == 0 then None
    else
      var (x, rest) := Lex(s);
      match x
      case Blank => Parse(rest)
      case Value(a) => if Ends(rest) then Some(Loaded(Scalar(a), None, true)) else None
      case Open(dict) =>
        (match ParseBody(Hollow(dict), rest, None, true, true)
         case None => None
         case Some(b) => if Ends(b.rest) then Some(Loaded(b.content, b.key, b.tidy)) else None)
      case _ => None
  }

  // ---------- objects in memory ----------

  /** Follows references upwards in the heap; `lo` is the lowest index allowed. */
  ghost function Read(h: seq<Container>, v: Val, lo: nat): Tree
    decreases |h| - lo
  {
    match v
    case Leaf(a) => Scalar(a)
    case Ref(n) =>
      if n < lo || n >= |h| then Scalar(Null)
      else
        match h[n]
        case ListObj(items) => Arr(seq(|items|, i requires 0 <= i < |items| => Read(h, items[i], n + 1)))
        case DictObj(entries) => Obj(map k | k in entries :: Read(h, entries[k], n + 1))
  }

  ghost predicate Points(v: Val, lo: int, hi: int) { v.Ref? ==> lo <= v.at < hi }

  /** References out of a container at n go to later containers. */
  ghost predicate Forward(c: Container, n: nat, hi: int) {
    match c
    case ListObj(items) => forall i :: 0 <= i < |items| ==> Points(items[i], n + 1, hi)
    case DictObj(entries) => forall k :: k in entries ==> Points(entries[k], n + 1, hi)
  }

  ghost predicate Closed(h: seq<Container>, lo: nat) {
    forall i :: lo <= i < |h| ==> Forward(h[i], i, |h|)
  }

  ghost predicate Agree(h: seq<Container>, g: seq<Container>, lo: nat) {
    |h| <= |g| && forall i :: lo <= i < |h| ==> g[i] == h[i]
  }

  /** What is read depends only on what lies above the reference. */
  lemma {:induction false} ReadFrame(h: seq<Container>, g: seq<Container>, v: Val, lo: nat)
    requires Closed(h, lo) && Agree(h, g, lo) && Points(v, lo, |h|)
    ensures Read(h, v, lo) == Read(g, v, lo)
    decreases |h| - lo
  {
    match v
    case Leaf(_) =>
    case Ref(n) =>
      assert Forward(h[n], n, |h|);
      match h[n]
      case ListObj(items) =>
        forall i | 0 <= i < |items| ensures Read(h, items[i], n + 1) == Read(g, items[i], n + 1) {
          ReadFrame(h, g, items[i], n + 1);
        }
      case DictObj(entries) =>
        forall k | k in entries ensures Read(h, entries[k], n + 1) == Read(g, entries[k], n + 1) {
          ReadFrame(h, g, entries[k], n + 1);
        }
  }

  /** A reference may be read from any lower bound. */
  lemma ReadFrom(h: seq<Container>, v: Val, a: nat, b: nat)
    requires a <= b && Points(v, b, |h|)
    ensures Read(h, v, a) == Read(h, v, b)
  {}

  /** The container at n holds exactly this content. */
  ghost predicate Holds(h: seq<Container>, n: nat, c: Tree) {
    && n < |h|
    && match c
       case Scalar(_) => false
       case Arr(trees) =>
         && h[n].ListObj? && |h[n].items| == |trees|
         && forall i :: 0 <= i < |trees| ==> Read(h, h[n].items[i], n + 1) == trees[i]
       case Obj(trees) =>
         && h[n].DictObj? && h[n].entries.Keys == trees.Keys
         && forall k :: k in trees ==> Read(h, h[n].entries[k], n + 1) == trees[k]
  }

  lemma HoldsReads(h: seq<Container>, n: nat, c: Tree)
    requires Holds(h, n, c)
    ensures Read(h, Ref(n), n) == c
  {
    match c
    case Arr(trees) => assert Read(h, Ref(n), n).items == trees;
    case Obj(trees) => assert Read(h, Ref(n), n).members == trees;
  }

  lemma HoldsHollow(h: seq<Container>, n: nat, dict: bool)
    requires n < |h| && h[n] == Fresh(dict)
    ensures Holds(h, n, Hollow(dict)) && Forward(h[n], n, |h|)
  {}

  // ---------- one value stored ----------

  /** Inside a container. */
  ghost predicate Ready(m: Machine) {
    Sane(m) && m.top.Some? && m.top.value.Ref?
  }

  function Extended(c: Container, key: Option<Atom>, v: Val): Container {
    match c
    case ListObj(items) => ListObj(items + [v])
    case DictObj(entries) => if key.Some? then DictObj(entries[KeyOf(key.value) := v]) else c
  }

  /** A store extends one container, touches nothing older, and builds forward only. */
  ghost predicate Stored(m: Machine, r: Machine, v: Val)
    requires Ready(m)
  {
    var t := m.top.value.at;
    && |m.heap| <= |r.heap|
    && (forall i :: 0 <= i < |m.heap| && i != t ==> r.heap[i] == m.heap[i])
    && r.heap[t] == Extended(m.heap[t], m.key, v)
    && Closed(r.heap, |m.heap|)
    && Points(v, |m.heap|, |r.heap|)
  }

  lemma StillClosed(m: Machine, r: Machine, v: Val)
    requires Ready(m) && Stored(m, r, v) && Closed(m.heap, m.top.value.at)
    ensures Closed(r.heap, m.top.value.at)
  {
    var t := m.top.value.at;
    assert Forward(m.heap[t], t, |m.heap|);
    forall i | t <= i < |r.heap| ensures Forward(r.heap[i], i, |r.heap|) {
      if t < i < |m.heap| { assert Forward(m.heap[i], i, |m.heap|); }
    }
  }

  /** Values already in the container keep their meaning, and the new one has its own. */
  lemma HoldsAdded(m: Machine, r: Machine, v: Val, c: Tree, t: Tree)
    requires Ready(m) && Stored(m, r, v) && Closed(m.heap, m.top.value.at)
    requires Holds(m.heap, m.top.value.at, c) && (c.Obj? ==> m.key.Some?)
    requires Read(r.heap, v, |m.heap|) == t
    ensures Holds(r.heap, m.top.value.at, Added(c, m.key, t))
  {
    var n := m.top.value.at;
    assert Forward(m.heap[n], n, |m.heap|);
    ReadFrom(r.heap, v, n + 1, |m.heap|);
    match c
    case Arr(trees) =>
      var items := m.heap[n].items;
      forall i | 0 <= i < |items| ensures Read(r.heap, items[i], n + 1) == trees[i] {
        ReadFrame(m.heap, r.heap, items[i], n + 1);
      }
    case Obj(trees) =>
      var entries := m.heap[n].entries;
      forall k | k in trees && k != KeyOf(m.key.value) ensures Read(r.heap, r.heap[n].entries[k], n + 1) == trees[k] {
        ReadFrame(m.heap, r.heap, entries[k], n + 1);
      }
  }

  lemma AttachStores(m: Machine, a: Atom, c: Tree)
    requires Ready(m) && Closed(m.heap, m.top.value.at) && Holds(m.heap, m.top.value.at, c) && (c.Obj? ==> m.key.Some?)
    ensures Attach(m, Leaf(a)).Some?
    ensures var r := Attach(m, Leaf(a)).value;
            && Ready(r) && r.stack == m.stack && r.top == m.top && r.tidy == m.tidy && r.key == KeyAfter(c, m.key)
            && |r.heap| == |m.heap| && (forall i :: 0 <= i < |m.heap| && i != m.top.value.at ==> r.heap[i] == m.heap[i])
            && Closed(r.heap, m.top.value.at) && Holds(r.heap, m.top.value.at, Added(c, m.key, Scalar(a)))
  {
    hide Read;
    var r := Attach(m, Leaf(a)).value;
    assert Stored(m, r, Leaf(a));
    StillClosed(m, r, Leaf(a));
    LeafReads(r.heap, a, |m.heap|);
    HoldsAdded(m, r, Leaf(a), c, Scalar(a));
  }

  lemma LeafReads(h: seq<Container>, a: Atom, lo: nat)
    ensures Read(h, Leaf(a), lo) == Scalar(a)
  {}

  /** A new container is on top, and its parent has it already. */
  ghost predicate Entered(m: Machine, dict: bool, c: Tree, e: Machine)
    requires Ready(m)
  {
    var t, n := m.top.value.at, |m.heap|;
    && Ready(e) && |e.heap| == n + 1 && e.heap[n] == Fresh(dict) && e.top == Some(Ref(n))
    && e.stack == m.stack + [t] && e.key == KeyAfter(c, m.key) && e.tidy == (m.tidy && e.key == None)
    && e.heap[t] == Extended(m.heap[t], m.key, Ref(n))
    && (forall i :: 0 <= i < n && i != t ==> e.heap[i] == m.heap[i])
  }

  lemma EnterEnters(m: Machine, dict: bool, c: Tree)
    requires Ready(m) && Holds(m.heap, m.top.value.at, c) && (c.Obj? ==> m.key.Some?)
    ensures Enter(m, dict).Some? && Entered(m, dict, c, Enter(m, dict).value)
  {
    hide Read;
  }

  /** The machine n is m with more in the container on top, and nothing else disturbed. */
  ghost predicate Grown(m: Machine, n: Machine, b: Body)
    requires Ready(m)
  {
    var t := m.top.value.at;
    && Ready(n) && n.stack == m.stack && n.top == m.top && n.key == b.key && n.tidy == b.tidy
    && |m.heap| <= |n.heap| && (forall i :: 0 <= i < |m.heap| && i != t ==> n.heap[i] == m.heap[i])
    && Closed(n.heap, t) && Holds(n.heap, t, b.content)
  }

  lemma GrownSelf(m: Machine, c: Tree, tidy: bool, rest: seq<Byte>)
    requires Ready(m) && Closed(m.heap, m.top.value.at) && Holds(m.heap, m.top.value.at, c)
    ensures Grown(m, m.(tidy := tidy), Body(c, m.key, tidy, rest))
  {
    hide Holds, Closed;
  }

  lemma GrownFrom(m: Machine, p: Machine, n: Machine, b: Body)
    requires Ready(m) && Ready(p) && p.stack == m.stack && p.top == m.top && |m.heap| <= |p.heap| && Grown(p, n, b)
    requires forall i :: 0 <= i < |m.heap| && i != m.top.value.at ==> p.heap[i] == m.heap[i]
    ensures Grown(m, n, b)
  {
    hide Holds, Closed;
  }

  /** Leaving a finished inner container completes one store into its parent. */
  lemma LeaveStores(m: Machine, dict: bool, c: Tree, e: Machine, n: Machine, b: Body)
    requires Ready(m) && Closed(m.heap, m.top.value.at) && Holds(m.heap, m.top.value.at, c) && (c.Obj? ==> m.key.Some?)
    requires Entered(m, dict, c, e) && Grown(e, n, b) && (b.tidy ==> b.key == None)
    ensures n.stack != []
    ensures Grown(m, Leave(n), Body(Added(c, m.key, b.content), b.key, b.tidy, b.rest))
  {
    hide Read;
    var l, v := Leave(n), Ref(|m.heap|);
    assert Stored(m, l, v);
    StillClosed(m, l, v);
    HoldsReads(l.heap, |m.heap|, b.content);
    HoldsAdded(m, l, v, c, b.content);
  }

  // ---------- the stack machine is the recursive reader ----------

  /** Inside a container the machine does what the reader says: it fails where the reader fails, and
      otherwise it arrives behind the closing bracket with the content in place. */
  lemma {:induction false} BodyRuns(m: Machine, s: seq<Byte>, c: Tree) returns (n: Machine)
    requires Ready(m) && Closed(m.heap, m.top.value.at) && Holds(m.heap, m.top.value.at, c)
    ensures var b := ParseBody(c, s, m.key, m.tidy, m.stack == []);
            match b
            case None => Loop(m, s) == None
            case Some(b) =>
              && Grown(m, n, b)
              && Loop(m, s) == if m.stack == [] then Finish(n, b.rest) else Loop(Leave(n), b.rest)
    decreases |s|, 0
  {
    hide Lex, Read, Attach, Enter, Holds, Closed, KeyOf, Grown;
    n := m;
    if Cur(s) == 0 {
      GrownSelf(m, c, m.tidy, s);
    } else {
      var (x, rest) := Lex(s);
      match x
      case Bad =>
      case Blank => n := BodyRuns(m, rest, c);
      case Close =>
        n := m.(tidy := m.tidy && m.key == None);
        GrownSelf(m, c, n.tidy, rest);
      case Value(a) => n := ValueRuns(m, rest, c, a);
      case Open(dict) =>
        if c.Obj? && m.key == None {
          RefusesContainer(m, dict, c);
        } else {
          n := OpenRuns(m, rest, c, dict);
        }
    }
  }

  /** The same from behind a scalar on: it is the next key of a dictionary, or a value. */
  lemma {:induction false} ValueRuns(m: Machine, s: seq<Byte>, c: Tree, a: Atom) returns (n: Machine)
    requires Ready(m) && Closed(m.heap, m.top.value.at) && Holds(m.heap, m.top.value.at, c)
    ensures Attach(m, Leaf(a)).Some? && Ready(Attach(m, Leaf(a)).value)
    ensures var p := Attach(m, Leaf(a)).value;
            var b := if c.Obj? && m.key == None then ParseBody(c, s, Some(a), m.tidy, m.stack == [])
                     else ParseBody(Added(c, m.key, Scalar(a)), s, KeyAfter(c, m.key), m.tidy, m.stack == []);
            match b
            case None => Loop(p, s) == None
            case Some(b) =>
              && Grown(m, n, b)
              && Loop(p, s) == if m.stack == [] then Finish(n, b.rest) else Loop(Leave(n), b.rest)
    decreases |s|, 1
  {
    hide Lex, Read, Attach, Enter, Holds, Closed, KeyOf, Grown, Loop, ParseBody;
    var key := c.Obj? && m.key == None;
    if key { SetsKey(m, a, c); } else { AttachStores(m, a, c); }
    var p := Attach(m, Leaf(a)).value;
    var d := if key then c else Added(c, m.key, Scalar(a));
    n := BodyRuns(p, s, d);
    var b := ParseBody(d, s, p.key, p.tidy, p.stack == []);
    if b.Some? { GrownFrom(m, p, n, b.value); }
  }

  lemma SetsKey(m: Machine, a: Atom, c: Tree)
    requires Ready(m) && Holds(m.heap, m.top.value.at, c) && c.Obj? && m.key == None
    ensures Attach(m, Leaf(a)) == Some(m.(key := Some(a)))
  {}

  lemma RefusesContainer(m: Machine, dict: bool, c: Tree)
    requires Ready(m) && Holds(m.heap, m.top.value.at, c) && c.Obj? && m.key == None
    ensures Enter(m, dict) == None
  {}

  /** The same from behind an opening bracket on. */
  lemma {:induction false} OpenRuns(m: Machine, s: seq<Byte>, c: Tree, dict: bool) returns (n: Machine)
    requires Ready(m) && Closed(m.heap, m.top.value.at) && Holds(m.heap, m.top.value.at, c) && (c.Obj? ==> m.key.Some?)
    ensures Enter(m, dict).Some?
    ensures var e := Enter(m, dict).value;
            && Ready(e)
            && match ParseBody(Hollow(dict), s, e.key, e.tidy, false)
               case None => Loop(e, s) == None
               case Some(inner) =>
                 match ParseBody(Added(c, m.key, inner.content), inner.rest, inner.key, inner.tidy, m.stack == [])
                 case None => Loop(e, s) == None
                 case Some(b) =>
                   && Grown(m, n, b)
                   && Loop(e, s) == if m.stack == [] then Finish(n, b.rest) else Loop(Leave(n), b.rest)
    ensures Enter(m, dict).value.key == KeyAfter(c, m.key)
    ensures Enter(m, dict).value.tidy == (m.tidy && KeyAfter(c, m.key) == None)
    decreases |s|, 1
  {
    hide Lex, Read, Attach, Enter, Loop, ParseBody, Holds, Closed;
    EnterEnters(m, dict, c);
    var e := Enter(m, dict).value;
    EnteredHollow(m, dict, c, e);
    n := BodyRuns(e, s, Hollow(dict));
    var inner := ParseBody(Hollow(dict), s, e.key, e.tidy, false);
    if inner.Some? {
      LeaveStores(m, dict, c, e, n, inner.value);
      var l := Leave(n);
      var d := Added(c, m.key, inner.value.content);
      n := BodyRuns(l, inner.value.rest, d);
      var b := ParseBody(d, inner.value.rest, l.key, l.tidy, l.stack == []);
      if b.Some? { GrownFrom(m, l, n, b.value); }
    }
  }

  lemma EnteredHollow(m: Machine, dict: bool, c: Tree, e: Machine)
    requires Ready(m) && Entered(m, dict, c, e)
    ensures Holds(e.heap, |m.heap|, Hollow(dict)) && Closed(e.heap, |m.heap|)
  {
    HoldsHollow(e.heap, |m.heap|, dict);
  }

  /** For every stream of bytes: the stack machine accepts it if and only if the recursive reader
      does, and the object graph it leaves reads as the tree that was read. */
  lemma {:induction false} MachineIsReader(s: seq<Byte>)
    ensures match Parse(s)
            case None => Loop(EMPTY, s) == None
            case Some(p) =>
              var r := Loop(EMPTY, s);
              && r.Some? && r.value.top.Some? && r.value.key == p.key && r.value.tidy == p.tidy
              && Read(r.value.heap, r.value.top.value, 0) == p.tree
    decreases |s|
  {
    hide Lex, Read, ParseBody, SkipSpace;
    if Cur(s) != 0 {
      var (x, rest) := Lex(s);
      match x
      case Blank => MachineIsReader(rest);
      case Value(a) => LeafReads(EMPTY.heap, a, 0);
      case Open(dict) =>
        var e := Enter(EMPTY, dict).value;
        assert e == EMPTY.(heap := [Fresh(dict)], top := Some(Ref(0)));
        HoldsHollow(e.heap, 0, dict);
        var n := BodyRuns(e, rest, Hollow(dict));
        var b := ParseBody(Hollow(dict), rest, None, true, true);
        if b.Some? { HoldsReads(n.heap, 0, b.value.content); }
      case _ =>
    }
  }
}
