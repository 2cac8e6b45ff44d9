/** The accept queue of extmod/modlwip.c: a ring of connections that arrive in the lwIP context,
    are taken by accept, or are dropped from anywhere in the ring before that. Each operation
    runs under the lwIP lock. */
module LwipAccept {
  import opened Common

  type Pcb = nat

  /** The queue as its users see it: what waits, what was handed out, what was turned away. */
  datatype Fifo = Fifo(capacity: nat, waiting: seq<Pcb>, accepted: seq<Pcb>, dropped: seq<Pcb>, refused: seq<Pcb>)

  datatype Event = Arrive(pcb: Pcb) | Accept | Drop(pcb: Pcb)

  function Position(q: seq<Pcb>, p: Pcb): nat
    requires p in q
  {
    if q[0] == p then 0 else 1 + Position(q[1..], p)
  }

  lemma {:induction false} PositionIs(q: seq<Pcb>, p: Pcb, k: nat)
    requires k < |q| && q[k] == p && forall i :: 0 <= i < k ==> q[i] != p
    ensures Position(q, p) == k
    decreases |q|
  {
    if k == 0 {
    } else {
      PositionIs(q[1..], p, k - 1);
    }
  }

  lemma {:induction false} PositionHolds(q: seq<Pcb>, p: Pcb)
    requires p in q
    ensures Position(q, p) < |q| && q[Position(q, p)] == p
    decreases |q|
  {
    if q[0] != p { PositionHolds(q[1..], p); }
  }

  /** The queue without p, the others in the same order. */
  function Remove(q: seq<Pcb>, p: Pcb): seq<Pcb> {
    if p !in q then q else PositionHolds(q, p); q[..Position(q, p)] + q[Position(q, p) + 1..]
  }

  function Step(f: Fifo, e: Event): Fifo {
    match e
    case Arrive(p) =>
      if |f.waiting| < f.capacity then f.(waiting := f.waiting + [p]) else f.(refused := f.refused + [p])
    case Accept =>
      if f.waiting == [] then f else f.(waiting := f.waiting[1..], accepted := f.accepted + [f.waiting[0]])
    case Drop(p) =>
      if p !in f.waiting then f else f.(waiting := Remove(f.waiting, p), dropped := f.dropped + [p])
  }

  ghost predicate Distinct(q: seq<Pcb>) { forall i, j :: 0 <= i < j < |q| ==> q[i] != q[j] }

  /** lwIP never announces a connection that is still waiting. */
  predicate Admissible(f: Fifo, e: Event) { e.Arrive? ==> e.pcb !in f.waiting }

  function Run(f: Fifo, events: seq<Event>): Fifo
    decreases |events|
  {
    if events == [] then f else Step(Run(f, events[..|events| - 1]), events[|events| - 1])
  }

  ghost predicate AdmissibleRun(f: Fifo, events: seq<Event>) {
    forall i :: 0 <= i < |events| ==> Admissible(Run(f, events[..i]), events[i])
  }

  function Arrivals(events: seq<Event>): seq<Pcb>
    decreases |events|
  {
    if events == [] then []
    else
      var last := events[|events| - 1];
      Arrivals(events[..|events| - 1]) + if last.Arrive? then [last.pcb] else []
  }

  lemma RemoveMultiset(q: seq<Pcb>, p: Pcb)
    requires p in q
    ensures multiset(Remove(q, p)) + multiset{p} == multiset(q)
  {
    PositionHolds(q, p);
    var k := Position(q, p);
    assert q == q[..k] + [q[k]] + q[k + 1..];
  }

  /** Every connection that arrived is, exactly once, waiting, accepted, dropped or refused. */
  lemma {:induction false} NothingLost(capacity: nat, events: seq<Event>)
    ensures var f := Run(Fifo(capacity, [], [], [], []), events);
            Everyone(f) == multiset(Arrivals(events)) && |f.waiting| <= capacity && f.capacity == capacity
    decreases |events|
  {
    hide Everyone;
    var start := Fifo(capacity, [], [], [], []);
    if events == [] {
      assert Everyone(start) == multiset{} by { EveryoneAtStart(capacity); }
    } else {
      NothingLost(capacity, events[..|events| - 1]);
      StepKeepsEveryone(Run(start, events[..|events| - 1]), events[|events| - 1]);
    }
  }

  /** First come, first served: an arrival goes behind all others, an accept takes the first, and
      only a drop changes the sequence, by leaving one connection out. */
  lemma StepKeepsOrder(f: Fifo, e: Event)
    ensures !e.Drop? ==>
      Step(f, e).accepted + Step(f, e).waiting ==
      f.accepted + f.waiting + if e.Arrive? && |f.waiting| < f.capacity then [e.pcb] else []
    ensures e == Accept && f.waiting != [] ==> Step(f, e).accepted == f.accepted + [f.waiting[0]]
    ensures e.Drop? ==> Step(f, e).accepted == f.accepted
    ensures e.Drop? && e.pcb in f.waiting ==>
      exists a, b :: f.waiting == a + [e.pcb] + b && Step(f, e).waiting == a + b && e.pcb !in a
    ensures e.Drop? && e.pcb !in f.waiting ==> Step(f, e) == f
  {
    if e.Drop? && e.pcb in f.waiting {
      PositionHolds(f.waiting, e.pcb);
      PositionFirst(f.waiting, e.pcb);
      var k := Position(f.waiting, e.pcb);
      var a, b := f.waiting[..k], f.waiting[k + 1..];
      assert f.waiting == a + [e.pcb] + b && Step(f, e).waiting == a + b && e.pcb !in a;
    }
  }

  lemma {:induction false} PositionFirst(q: seq<Pcb>, p: Pcb)
    requires p in q
    ensures Position(q, p) <= |q| && p !in q[..Position(q, p)]
    decreases |q|
  {
    PositionHolds(q, p);
    if q[0] == p {
    } else {
      PositionFirst(q[1..], p);
      var k := Position(q, p);
      assert q[..k] == [q[0]] + q[1..][..k - 1];
    }
  }

  ghost function Everyone(f: Fifo): multiset<Pcb> {
    multiset(f.waiting) + multiset(f.accepted) + multiset(f.dropped) + multiset(f.refused)
  }

  lemma EveryoneAtStart(capacity: nat)
    ensures Everyone(Fifo(capacity, [], [], [], [])) == multiset{}
  {}

  lemma StepKeepsEveryone(f: Fifo, e: Event)
    requires |f.waiting| <= f.capacity
    ensures Everyone(Step(f, e)) == Everyone(f) + (if e.Arrive? then multiset{e.pcb} else multiset{})
    ensures |Step(f, e).waiting| <= f.capacity == Step(f, e).capacity
  {
    hide Everyone, Remove, Position;
    match e
    case Arrive(p) => ArriveKeeps(f, p);
    case Accept => if f.waiting != [] { AcceptKeeps(f); }
    case Drop(p) =>
      if p in f.waiting {
        RemoveShape(f.waiting, p);
        DropKeeps(f, p);
      }
  }

  lemma ArriveKeeps(f: Fifo, p: Pcb)
    ensures Everyone(f.(waiting := f.waiting + [p])) == Everyone(f) + multiset{p}
    ensures Everyone(f.(refused := f.refused + [p])) == Everyone(f) + multiset{p}
  {}

  lemma AcceptKeeps(f: Fifo)
    requires f.waiting != []
    ensures Everyone(f.(waiting := f.waiting[1..], accepted := f.accepted + [f.waiting[0]])) == Everyone(f)
  {
    assert f.waiting == [f.waiting[0]] + f.waiting[1..];
  }

  lemma DropKeeps(f: Fifo, p: Pcb)
    requires p in f.waiting
    ensures Everyone(f.(waiting := Remove(f.waiting, p), dropped := f.dropped + [p])) == Everyone(f)
  {
    hide Remove, Position;
    RemoveMultiset(f.waiting, p);
  }

  /** The slot k places after iget in a ring of n. */
  function Place(iget: nat, k: nat, n: nat): nat
    requires iget < n && k <= n
  {
    if iget + k < n then iget + k else iget + k - n
  }

  /** The 8-bit field keeps enough of the backlog: it does not turn a large one into 0, which would
      stand for the embedded slot. */
  predicate Kept(backlog: int) { backlog <= 1 || backlog % 256 != 0 }

  function Capacity(backlog: int): nat { if backlog <= 1 || backlog % 256 == 0 then 1 else backlog % 256 }

  /** A backlog of up to 255 gives that many places, at least one; a larger one is cut to its low
      eight bits. */
  lemma CapacityIs(backlog: int)
    ensures backlog <= 1 ==> Capacity(backlog) == 1
    ensures 1 <= backlog <= 255 ==> Capacity(backlog) == backlog && Kept(backlog)
    ensures Kept(backlog) && backlog > 1 ==> 1 <= Capacity(backlog) <= 255 && exists k: nat :: backlog == 256 * k + Capacity(backlog)
  {
    if Kept(backlog) && backlog > 1 {
      var k: nat := backlog / 256;
      assert backlog == 256 * k + Capacity(backlog);
    }
  }

  class AcceptQueue {
    var alloc: nat                       // 0 means the single embedded slot
    var slots: array<Option<Pcb>>
    var iget: nat
    var iput: nat
    ghost var model: Fifo

    ghost predicate Valid()
      reads this, slots
    {
      && slots.Length == (if alloc == 0 then 1 else alloc) == model.capacity
      && iget < slots.Length && iput < slots.Length && |model.waiting| <= slots.Length
      && Holds(slots[..], iget, model.waiting) && iput == Place(iget, |model.waiting|, slots.Length)
      && Distinct(model.waiting)
    }

    /** lwip_socket_listen. The array's address shares its place with the embedded slot, so where the
        field wraps to 0 the slot is taken for a waiting connection at that address. */
    constructor (backlog: int, address: Pcb)
      ensures fresh(slots) && model == Fifo(Capacity(backlog), [], [], [], [])
      ensures Valid() <==> Kept(backlog)
      ensures !Kept(backlog) ==> iget < slots.Length && slots[iget] == Some(address)
    {
      var n := Capacity(backlog);
      alloc := if backlog <= 1 then 0 else backlog % 256;
      var embedded := if Kept(backlog) then None else Some(address);
      slots := new Option<Pcb>[n](_ => embedded);
      iget, iput := 0, 0;
      model := Fifo(n, [], [], [], []);
      new;
      assert slots[Place(0, 0, n)] == embedded;
    }

    /** Increment, reset at alloc. */
    function Next(i: nat): nat
      reads this
    {
      if i + 1 >= alloc then 0 else i + 1
    }

    /** _lwip_tcp_accept: refused exactly when the queue is full. */
    method OnArrive(pcb: Pcb) returns (ok: bool)
      requires Valid() && pcb !in model.waiting
      modifies this, slots
      ensures Valid() && slots == old(slots) && alloc == old(alloc)
      ensures model == Step(old(model), Arrive(pcb)) && ok == (|old(model.waiting)| < model.capacity)
    {
      hide Holds;
      SlotAt(slots[..], iget, model.waiting, |model.waiting|);
      if slots[iput] == None {
        ghost var was := slots[..];
        slots[iput] := Some(pcb);
        HoldsAppend(was, iget, model.waiting, pcb);
        assert slots[..] == was[iput := Some(pcb)];
        iput := Next(iput);
        model := Step(model, Arrive(pcb));
        return true;
      }
      model := Step(model, Arrive(pcb));
      return false;
    }

    /** The dequeue in lwip_socket_accept, whatever the slots hold. */
    method Dequeue() returns (r: Option<Pcb>)
      requires iget < slots.Length
      modifies this`iget, slots
      ensures r == old(slots[iget])
      ensures r == None ==> iget == old(iget) && slots[..] == old(slots[..])
      ensures r != None ==> iget == old(Next(iget)) && slots[..] == old(slots[..])[old(iget) := None]
    {
      r := slots[iget];
      if r != None {
        var at := iget;
        iget := Next(iget);
        slots[at] := None;
      }
    }

    /** accept, tried once: None when nothing waits. */
    method TryAccept() returns (r: Option<Pcb>)
      requires Valid()
      modifies this, slots
      ensures Valid() && slots == old(slots) && alloc == old(alloc)
      ensures model == Step(old(model), Accept)
      ensures r == if old(model.waiting) == [] then None else Some(old(model.waiting[0]))
    {
      hide Holds;
      SlotAt(slots[..], iget, model.waiting, 0);
      ghost var was, at := slots[..], iget;
      r := Dequeue();
      if r != None { HoldsTail(was, at, model.waiting); }
      model := Step(model, Accept);
    }

    /** The search of _lwip_tcp_err_unaccepted: once the connection is found, every later slot
        moves down by one. Returns the last slot moved, or None if it was not found. */
    method ShiftOut(pcb: Pcb) returns (shiftDown: Option<nat>)
      requires Valid()
      modifies slots
      ensures pcb !in model.waiting ==> shiftDown == None && slots[..] == old(slots[..])
      ensures pcb in model.waiting ==>
        shiftDown == Some(Place(iget, |model.waiting| - 1, slots.Length)) &&
        Shifting(slots[..], iget, model.waiting, pcb, |model.waiting|)
    {
      hide Holds, Shifting, Position, Remove, Distinct;
      ghost var q, n, s := model.waiting, slots.Length, slots[..];
      ghost var turns := if q == [] then n else |q|;
      shiftDown := None;
      var i := iget;
      ghost var j := 0;
      var more := true;
      while more
        invariant 0 <= j <= turns && i == Place(iget, j, n) && more == (j < turns)
        invariant shiftDown == None ==> slots[..] == s && forall k :: 0 <= k < j && k < |q| ==> q[k] != pcb
        invariant shiftDown.Some? ==>
          1 <= j <= |q| && pcb in q && shiftDown.value == Place(iget, j - 1, n) && Shifting(slots[..], iget, q, pcb, j)
        decreases turns - j
      {
        SlotFor(slots[..], iget, q, pcb, j, shiftDown);
        if shiftDown == None {
          if slots[i] == Some(pcb) {
            StartShift(slots[..], iget, q, pcb, j);
            shiftDown := Some(i);
          }
        } else {
          ghost var was := slots[..];
          slots[shiftDown.value] := slots[i];
          shiftDown := Some(i);
          ShiftOne(was, iget, q, pcb, j);
          assert slots[..] == was[Place(iget, j - 1, n) := was[Place(iget, j, n)]];
        }
        i := Next(i);
        j := j + 1;
        more := i != iput;
      }
    }

    /** _lwip_tcp_err_unaccepted: removes exactly that connection and closes the gap. */
    method OnDrop(pcb: Pcb)
      requires Valid()
      modifies this, slots
      ensures Valid() && slots == old(slots) && alloc == old(alloc)
      ensures model == Step(old(model), Drop(pcb))
    {
      hide Holds, Shifting, Position, Remove, Distinct;
      var shiftDown := ShiftOut(pcb);
      if shiftDown.Some? {
        ghost var was, q := slots[..], model.waiting;
        FinishShift(was, iget, q, pcb);
        slots[shiftDown.value] := None;
        assert slots[..] == was[Place(iget, |q| - 1, slots.Length) := None];
        iput := shiftDown.value;
      }
      model := Step(model, Drop(pcb));
    }
  }

  // ---------- the ring's contents ----------

  /** From iget on: the waiting connections in order, then empty slots. */
  ghost predicate Holds(s: seq<Option<Pcb>>, iget: nat, q: seq<Pcb>) {
    && iget < |s| && |q| <= |s|
    && forall k {:trigger Place(iget, k, |s|)} :: 0 <= k < |s| ==> s[Place(iget, k, |s|)] == if k < |q| then Some(q[k]) else None
  }

  lemma SlotAt(s: seq<Option<Pcb>>, iget: nat, q: seq<Pcb>, k: nat)
    requires Holds(s, iget, q) && k <= |q|
    ensures s[Place(iget, k, |s|)] == (if k < |q| then Some(q[k]) else if k < |s| then None else Some(q[0]))
  {
    if k == |s| { assert s[Place(iget, 0, |s|)] == Some(q[0]); }
  }

  lemma HoldsAppend(s: seq<Option<Pcb>>, iget: nat, q: seq<Pcb>, p: Pcb)
    requires Holds(s, iget, q) && |q| < |s|
    ensures Holds(s[Place(iget, |q|, |s|) := Some(p)], iget, q + [p])
  {}

  lemma HoldsTail(s: seq<Option<Pcb>>, iget: nat, q: seq<Pcb>)
    requires Holds(s, iget, q) && q != []
    ensures Holds(s[iget := None], Place(iget, 1, |s|), q[1..])
  {
    var t, g := s[iget := None], Place(iget, 1, |s|);
    forall k | 0 <= k < |s| ensures t[Place(g, k, |s|)] == if k < |q| - 1 then Some(q[1..][k]) else None {
      if k < |s| - 1 { assert s[Place(iget, k + 1, |s|)] == if k + 1 < |q| then Some(q[k + 1]) else None; }
    }
  }

  /** Half way through a removal: connection p is gone from the first j places, the ones after it
      moved down, and place j - 1 still holds a stale copy. */
  ghost predicate Shifting(s: seq<Option<Pcb>>, iget: nat, q: seq<Pcb>, p: Pcb, j: nat) {
    && iget < |s| && 1 <= j <= |q| <= |s| && p in q && Position(q, p) < j
    && forall k {:trigger Place(iget, k, |s|)} :: 0 <= k < |s| ==>
         s[Place(iget, k, |s|)] ==
         if k >= |q| then None
         else if Position(q, p) <= k < j - 1 then Some(q[k + 1]) else Some(q[k])
  }

  lemma SlotFor(s: seq<Option<Pcb>>, iget: nat, q: seq<Pcb>, p: Pcb, j: nat, shift: Option<nat>)
    requires iget < |s| && j < |s|
    requires shift == None ==> Holds(s, iget, q)
    requires shift.Some? ==> Shifting(s, iget, q, p, j)
    ensures s[Place(iget, j, |s|)] == if j < |q| then Some(q[j]) else None
  {
    if shift == None {
      assert Holds(s, iget, q);
    } else {
      assert Shifting(s, iget, q, p, j);
    }
  }

  lemma StartShift(s: seq<Option<Pcb>>, iget: nat, q: seq<Pcb>, p: Pcb, j: nat)
    requires Holds(s, iget, q) && j < |q| && q[j] == p && forall k :: 0 <= k < j ==> q[k] != p
    ensures Shifting(s, iget, q, p, j + 1)
  {
    PositionIs(q, p, j);
  }

  lemma ShiftOne(s: seq<Option<Pcb>>, iget: nat, q: seq<Pcb>, p: Pcb, j: nat)
    requires Shifting(s, iget, q, p, j) && j < |q|
    ensures Shifting(s[Place(iget, j - 1, |s|) := s[Place(iget, j, |s|)]], iget, q, p, j + 1)
  {
    hide Position;
    var t := s[Place(iget, j - 1, |s|) := s[Place(iget, j, |s|)]];
    assert s[Place(iget, j, |s|)] == Some(q[j]);
    forall k | 0 <= k < |t|
      ensures t[Place(iget, k, |t|)] ==
              if k >= |q| then None else if Position(q, p) <= k < j then Some(q[k + 1]) else Some(q[k])
    {
      assert k != j - 1 ==> Place(iget, k, |s|) != Place(iget, j - 1, |s|);
      assert s[Place(iget, k, |s|)] ==
             if k >= |q| then None else if Position(q, p) <= k < j - 1 then Some(q[k + 1]) else Some(q[k]);
    }
  }

  lemma RemoveShape(q: seq<Pcb>, p: Pcb)
    requires p in q
    ensures Position(q, p) < |q| && |Remove(q, p)| == |q| - 1
  {
    PositionHolds(q, p);
  }

  lemma RemoveAt(q: seq<Pcb>, p: Pcb, k: nat)
    requires p in q && k < |q| - 1
    ensures |Remove(q, p)| == |q| - 1 && Remove(q, p)[k] == if k < Position(q, p) then q[k] else q[k + 1]
  {
    PositionHolds(q, p);
  }

  lemma FinishShift(s: seq<Option<Pcb>>, iget: nat, q: seq<Pcb>, p: Pcb)
    requires Shifting(s, iget, q, p, |q|)
    ensures Holds(s[Place(iget, |q| - 1, |s|) := None], iget, Remove(q, p))
    ensures p in q && |Remove(q, p)| == |q| - 1 && (Distinct(q) ==> Distinct(Remove(q, p)))
  {
    hide Position, Remove;
    RemoveShape(q, p);
    var t, r := s[Place(iget, |q| - 1, |s|) := None], Remove(q, p);
    forall k | 0 <= k < |t| ensures t[Place(iget, k, |t|)] == if k < |r| then Some(r[k]) else None {
      assert k != |q| - 1 ==> Place(iget, k, |s|) != Place(iget, |q| - 1, |s|);
      assert s[Place(iget, k, |s|)] ==
             if k >= |q| then None else if Position(q, p) <= k < |q| - 1 then Some(q[k + 1]) else Some(q[k]);
      if k < |r| { RemoveAt(q, p, k); }
    }
    if Distinct(q) { RemoveDistinct(q, p); }
  }

  lemma RemoveDistinct(q: seq<Pcb>, p: Pcb)
    requires p in q && Distinct(q)
    ensures Distinct(Remove(q, p))
  {
    hide Remove, Position;
    var r := Remove(q, p);
    RemoveShape(q, p);
    forall i, j | 0 <= i < j < |r| ensures r[i] != r[j] {
      RemoveAt(q, p, i);
      RemoveAt(q, p, j);
    }
  }

  /** From any state of the queue, a run of arrivals, accepts and drops on the ring is the FIFO's. */
  method Execute(q: AcceptQueue, events: seq<Event>) returns (accepted: seq<Pcb>)
    requires q.Valid() && AdmissibleRun(q.model, events)
    modifies q, q.slots
    ensures q.Valid() && q.model == Run(old(q.model), events)
    ensures old(q.model.accepted) + accepted == q.model.accepted
  {
    accepted := [];
    ghost var start := q.model;
    for i := 0 to |events|
      invariant q.Valid() && q.slots == old(q.slots)
      invariant q.model == Run(start, events[..i]) && start.accepted + accepted == q.model.accepted
    {
      assert events[..i + 1][..i] == events[..i];
      assert Admissible(Run(start, events[..i]), events[i]);
      match events[i] {
        case Arrive(p) => var _ := q.OnArrive(p);
        case Accept =>
          var r := q.TryAccept();
          if r.Some? {
            assert start.accepted + accepted + [r.value] == start.accepted + (accepted + [r.value]);
            accepted := accepted + [r.value];
          }
        case Drop(p) => q.OnDrop(p);
      }
    }
    assert events[..|events|] == events;
  }

  /** A backlog that is a multiple of 256: the first accept returns a connection that never arrived. */
  method PhantomConnection(times: nat, address: Pcb) returns (r: Option<Pcb>)
    requires times > 0
    ensures r == Some(address)
  {
    var q := new AcceptQueue(256 * times, address);
    r := q.Dequeue();
  }
}
