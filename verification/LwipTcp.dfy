/** TCP receive of extmod/modlwip.c: data arrives as a chain of packet buffers and is handed out
    in pieces of any length. Callbacks run between calls, at the polls of a blocking receive, and
    between any two accesses that receive makes to the socket before it takes the lock. */
module LwipTcp {
  import opened Common

  datatype State = New | Connecting | Connected | PeerClosed | Failed(code: nat)

  datatype Outcome = Bytes(b: seq<Byte>) | Fails(e: Errno) | NullDereference

  datatype Errno = EAGAIN | ETIMEDOUT | ENOTCONN | Pending(code: nat)

  /** What the lwIP thread can deliver. A delivery is a chain of non-empty segments. */
  datatype Event = Data(segments: seq<seq<Byte>>) | Closed | Error(code: nat)

  function Flatten(chain: seq<seq<Byte>>): seq<Byte> {
    if chain == [] then [] else chain[0] + Flatten(chain[1..])
  }

  lemma {:induction false} FlattenAppend(a: seq<seq<Byte>>, b: seq<seq<Byte>>)
    ensures Flatten(a + b) == Flatten(a) + Flatten(b)
    decreases |a|
  {
    if a == [] {
      assert a + b == b;
    } else {
      assert (a + b)[1..] == a[1..] + b;
      FlattenAppend(a[1..], b);
    }
  }

  ghost predicate NonEmpty(chain: seq<seq<Byte>>) { forall i :: 0 <= i < |chain| ==> chain[i] != [] }

  predicate Deliverable(e: Event) { e.Data? ==> e.segments != [] && forall i :: 0 <= i < |e.segments| ==> e.segments[i] != [] }

  /** The bytes of a chain from an offset in its first buffer on. */
  function Rest(chain: seq<seq<Byte>>, offset: nat): seq<Byte>
    requires chain != [] ==> offset <= |chain[0]|
  {
    if chain == [] then [] else chain[0][offset..] + Flatten(chain[1..])
  }

  lemma RestAll(chain: seq<seq<Byte>>)
    ensures Rest(chain, 0) == Flatten(chain)
  {
    if chain != [] { assert chain[0][0..] == chain[0]; }
  }

  lemma RestAppend(chain: seq<seq<Byte>>, offset: nat, more: seq<seq<Byte>>)
    requires chain != [] && offset <= |chain[0]|
    ensures Rest(chain + more, offset) == Rest(chain, offset) + Flatten(more)
  {
    hide Flatten;
    FlattenAppend(chain[1..], more);
    assert (chain + more)[0] == chain[0] && (chain + more)[1..] == chain[1..] + more;
    var a, b, c := chain[0][offset..], Flatten(chain[1..]), Flatten(more);
    assert a + (b + c) == (a + b) + c;
  }

  lemma RestTake(chain: seq<seq<Byte>>, offset: nat, n: nat)
    requires chain != [] && offset + n <= |chain[0]|
    ensures Rest(chain, offset) == chain[0][offset..offset + n] + Rest(chain, offset + n)
    ensures offset + n == |chain[0]| ==> Rest(chain, offset + n) == Rest(chain[1..], 0)
  {
    hide Flatten;
    var a, b, c := chain[0][offset..offset + n], chain[0][offset + n..], Flatten(chain[1..]);
    assert chain[0][offset..] == a + b;
    assert a + (b + c) == (a + b) + c;
    RestAll(chain[1..]);
  }

  lemma EmptyRest(offset: nat)
    ensures Rest([], offset) == []
  {}

  predicate Deliverables(es: seq<Event>) { forall i :: 0 <= i < |es| ==> Deliverable(es[i]) }

  predicate HasError(es: seq<Event>) { exists i :: 0 <= i < |es| && es[i].Error? }

  predicate HasData(es: seq<Event>) { exists i :: 0 <= i < |es| && es[i].Data? }

  predicate HasClose(es: seq<Event>) { exists i :: 0 <= i < |es| && es[i].Closed? }

  /** One turn of the waiting loop: callbacks before the test of the state, and between it and the
      test for data. */
  datatype Poll = Poll(before: seq<Event>, between: seq<Event>)

  /** The callbacks that run inside one receive, by the place in its text where they run. */
  datatype Gaps = Gaps(
    entry: seq<Event>,     // after the test for a pending error
    tested: seq<Event>,    // after the first test for data found none
    polls: seq<Poll>,      // while waiting; the timeout expires after the last
    left: seq<Event>,      // after the waiting loop
    closing: seq<Event>,   // after the test whether the peer has closed
    naming: seq<Event>,    // after the test whether the socket is connected
    last: seq<Event>)      // before the lock is taken

  predicate Quiet(polls: seq<Poll>) { forall i :: 0 <= i < |polls| ==> polls[i].between == [] }

  lemma OneMoreEvent(es: seq<Event>, i: nat)
    requires i < |es|
    ensures HasError(es[..i + 1]) <==> HasError(es[..i]) || es[i].Error?
    ensures HasData(es[..i + 1]) <==> HasData(es[..i]) || es[i].Data?
    ensures HasClose(es[..i + 1]) <==> HasClose(es[..i]) || es[i].Closed?
  {
    assert es[..i + 1] == es[..i] + [es[i]];
    HasAppend(es[..i], es[i]);
  }

  lemma HasAppend(es: seq<Event>, e: Event)
    ensures HasError(es + [e]) <==> HasError(es) || e.Error?
    ensures HasData(es + [e]) <==> HasData(es) || e.Data?
    ensures HasClose(es + [e]) <==> HasClose(es) || e.Closed?
  {
    var t := es + [e];
    assert t[|es|] == e && forall i :: 0 <= i < |es| ==> t[i] == es[i];
  }

  predicate DeliverableGaps(g: Gaps) {
    && Deliverables(g.entry) && Deliverables(g.tested) && Deliverables(g.left) && Deliverables(g.closing)
    && Deliverables(g.naming) && Deliverables(g.last)
    && forall i :: 0 <= i < |g.polls| ==> Deliverables(g.polls[i].before) && Deliverables(g.polls[i].between)
  }

  // ---------- what a receive does, as a function of the socket and the callbacks ----------

  /** The fields that receive and the callbacks share. */
  datatype Snap = Snap(phase: State, chain: seq<seq<Byte>>, offset: nat)

  ghost predicate Sane(v: Snap) {
    && NonEmpty(v.chain) && (v.chain != [] ==> v.offset < |v.chain[0]|)
    && (v.chain == [] && !v.phase.Failed? ==> v.offset == 0)
    && (v.phase.Failed? ==> v.chain == [])
  }

  /** After an error the pcb is gone, so lwIP calls back no more. */
  function One(v: Snap, e: Event): Snap {
    if v.phase.Failed? then v
    else
      match e
      case Data(segments) => v.(chain := v.chain + segments)
      case Closed => v.(phase := PeerClosed)
      case Error(c) => v.(phase := Failed(c), chain := [])
  }

  function After(v: Snap, es: seq<Event>): Snap {
    if es == [] then v else One(After(v, es[..|es| - 1]), es[|es| - 1])
  }

  lemma AfterNext(v: Snap, es: seq<Event>, i: nat)
    requires i < |es|
    ensures After(v, es[..i + 1]) == One(After(v, es[..i]), es[i])
  {
    assert es[..i + 1][..i] == es[..i];
  }

  /** Which kinds of callback occur is all that matters for the state and for whether there is data. */
  lemma {:induction false} AfterIs(v: Snap, es: seq<Event>)
    requires Sane(v) && Deliverables(es)
    ensures var w := After(v, es);
            && Sane(w) && w.offset == v.offset
            && (v.phase.Failed? ==> w == v)
            && (w.phase.Failed? <==> v.phase.Failed? || HasError(es))
            && (!w.phase.Failed? ==> w.phase == if HasClose(es) then PeerClosed else v.phase)
            && (!w.phase.Failed? ==> (w.chain == [] <==> v.chain == [] && !HasData(es)))
    decreases |es|
  {
    if es == [] {
    } else {
      var n := |es| - 1;
      AfterIs(v, es[..n]);
      OneMoreEvent(es, n);
      assert es[..n + 1] == es;
      assert Deliverable(es[n]);
      OneIsSane(After(v, es[..n]), es[n]);
    }
  }

  lemma OneIsSane(v: Snap, e: Event)
    requires Sane(v) && Deliverable(e)
    ensures Sane(One(v, e)) && One(v, e).offset == v.offset
    ensures !v.phase.Failed? && e.Data? ==> One(v, e).chain != []
  {}

  datatype WaitEnd = WaitEnd(done: bool, v: Snap)

  /** The waiting loop: it ends where the state is no longer connected or there is data, or with the
      timeout after the last poll. */
  function Waited(v: Snap, polls: seq<Poll>): WaitEnd
    decreases |polls|
  {
    var p := if polls == [] then Poll([], []) else polls[0];
    var a := After(v, p.before);
    if a.phase != Connected then WaitEnd(true, a)
    else
      var b := After(a, p.between);
      if b.chain != [] then WaitEnd(true, b)
      else if polls == [] then WaitEnd(false, b)
      else Waited(b, polls[1..])
  }

  datatype Verdict = Takes | Missing | End | Errs(e: Errno)

  datatype Ending = Ending(verdict: Verdict, v: Snap)

  /** The lock is taken, and the first buffer used. */
  function AtLock(v: Snap, g: Gaps): Ending {
    var w := After(v, g.last);
    Ending(if w.chain != [] then Takes else Missing, w)
  }

  /** The tests after the wait. */
  function Settled(v: Snap, g: Gaps): Ending {
    var x := After(v, g.left);
    var y := After(x, g.closing);
    if x.phase == PeerClosed then
      if y.chain == [] then Ending(End, y) else AtLock(y, g)
    else if y.phase == Connected then AtLock(y, g)
    else
      var z := After(y, g.naming);
      Ending(Errs(if z.phase.Failed? then Pending(z.phase.code) else ENOTCONN), z)
  }

  /** How a receive ends, and what the socket is then, before any bytes are taken. */
  function Ended(v: Snap, blocking: bool, g: Gaps): Ending {
    if v.phase.Failed? then Ending(Errs(Pending(v.phase.code)), v)
    else
      var a := After(v, g.entry);
      if a.chain != [] then AtLock(a, g)
      else
        var b := After(a, g.tested);
        if !blocking then Ending(if b.phase == PeerClosed then End else Errs(EAGAIN), b)
        else
          var w := Waited(b, g.polls);
          if w.done then Settled(w.v, g) else Ending(Errs(ETIMEDOUT), w.v)
  }

  /** The bytes a receive of len hands out, and what is left. */
  function Handed(v: Snap, len: nat): seq<Byte> {
    if v.chain == [] || v.offset > |v.chain[0]| then [] else v.chain[0][v.offset..v.offset + Min(len, |v.chain[0]| - v.offset)]
  }

  function Took(v: Snap, len: nat): Snap {
    if v.chain == [] then v
    else if v.offset + |Handed(v, len)| == |v.chain[0]| then v.(chain := v.chain[1..], offset := 0)
    else v.(offset := v.offset + |Handed(v, len)|)
  }

  function AnswerOf(end: Ending, len: nat): Outcome {
    match end.verdict
    case Takes => Bytes(Handed(end.v, len))
    case Missing => NullDereference
    case End => Bytes([])
    case Errs(e) => Fails(e)
  }

  function Answer(v: Snap, len: nat, blocking: bool, g: Gaps): Outcome { AnswerOf(Ended(v, blocking, g), len) }

  function Left(v: Snap, len: nat, blocking: bool, g: Gaps): Snap {
    var end := Ended(v, blocking, g);
    if end.verdict == Takes then Took(end.v, len) else end.v
  }

  // ---------- when it ends how ----------

  lemma {:induction false} WaitedIs(v: Snap, polls: seq<Poll>)
    requires Sane(v) && forall i :: 0 <= i < |polls| ==> Deliverables(polls[i].before) && Deliverables(polls[i].between)
    ensures var w := Waited(v, polls);
            && Sane(w.v)
            && (w.done ==> w.v.phase != Connected || w.v.chain != [])
            && (v.phase.Failed? ==> w == WaitEnd(true, v))
            && (!w.done ==> w.v.chain == [] && (w.v.phase == Connected || !Quiet(polls)))
    decreases |polls|
  {
    hide HasError, HasData, HasClose, After;
    var p := if polls == [] then Poll([], []) else polls[0];
    AfterIs(v, p.before);
    AfterIs(After(v, p.before), p.between);
    NothingHappens(After(v, p.before));
    if polls == [] {
    } else {
      WaitedIs(After(After(v, p.before), p.between), polls[1..]);
    }
  }

  lemma NothingHappens(v: Snap)
    ensures After(v, []) == v
  {}

  /** Polls in which nothing happens do not end the wait of an idle socket. */
  lemma {:induction false} WaitSkips(v: Snap, polls: seq<Poll>, n: nat)
    requires v.phase == Connected && v.chain == []
    requires n <= |polls| && forall i :: 0 <= i < n ==> polls[i] == Poll([], [])
    ensures Waited(v, polls) == Waited(v, polls[n..])
    decreases n
  {
    if n == 0 {
      assert polls[0..] == polls;
    } else {
      assert polls[1..][n - 1..] == polls[n..];
      WaitSkips(v, polls[1..], n - 1);
    }
  }

  /** A close or error before the first test of a turn ends the wait there; data before the second
      test ends it there, unless an error comes between the tests. */
  lemma WaitEndsHere(v: Snap, p: Poll, rest: seq<Poll>)
    requires Sane(v) && v.phase == Connected && v.chain == [] && Deliverables(p.before) && Deliverables(p.between)
    ensures HasClose(p.before) || HasError(p.before) ==> Waited(v, [p] + rest) == WaitEnd(true, After(v, p.before))
    ensures !HasClose(p.before) && !HasError(p.before) && (HasData(p.before) || HasData(p.between)) && !HasError(p.between) ==>
      Waited(v, [p] + rest) == WaitEnd(true, After(After(v, p.before), p.between))
  {
    hide HasError, HasData, HasClose, After;
    AfterIs(v, p.before);
    AfterIs(After(v, p.before), p.between);
    assert ([p] + rest)[1..] == rest;
  }

  /** A close without data, or an error, between the two tests of a turn ends the wait at the next
      test of the state. */
  lemma WaitEndsNext(v: Snap, p: Poll, rest: seq<Poll>)
    requires Sane(v) && v.phase == Connected && v.chain == [] && Deliverables(p.before) && Deliverables(p.between)
    requires forall i :: 0 <= i < |rest| ==> Deliverables(rest[i].before)
    requires !HasClose(p.before) && !HasError(p.before)
    requires HasError(p.between) || (HasClose(p.between) && !HasData(p.before) && !HasData(p.between))
    ensures var b := After(After(v, p.before), p.between);
            Waited(v, [p] + rest) == WaitEnd(true, if rest == [] then b else After(b, rest[0].before))
  {
    hide HasError, HasData, HasClose, After;
    var a := After(v, p.before);
    var b := After(a, p.between);
    AfterIs(v, p.before);
    AfterIs(a, p.between);
    assert ([p] + rest)[1..] == rest;
    if rest == [] { NothingHappens(b); } else { AfterIs(b, rest[0].before); }
  }

  lemma AnyEvent(es: seq<Event>)
    ensures es != [] <==> HasError(es) || HasData(es) || HasClose(es)
  {
    if es != [] { assert es[0].Error? || es[0].Data? || es[0].Closed?; }
  }

  /** The wait of an idle connected socket times out if and only if no callback comes in any poll. */
  lemma {:induction false} TimesOutExactly(v: Snap, polls: seq<Poll>)
    requires Sane(v) && v.phase == Connected && v.chain == []
    requires forall i :: 0 <= i < |polls| ==> Deliverables(polls[i].before) && Deliverables(polls[i].between)
    ensures !Waited(v, polls).done <==> forall i :: 0 <= i < |polls| ==> polls[i] == Poll([], [])
    decreases |polls|
  {
    hide HasError, HasData, HasClose, After;
    NothingHappens(v);
    if polls == [] {
    } else {
      var p, rest := polls[0], polls[1..];
      assert polls == [p] + rest;
      AnyEvent(p.before);
      AnyEvent(p.between);
      if p == Poll([], []) {
        TimesOutExactly(v, rest);
      } else if HasClose(p.before) || HasError(p.before) {
        WaitEndsHere(v, p, rest);
      } else if (HasData(p.before) || HasData(p.between)) && !HasError(p.between) {
        WaitEndsHere(v, p, rest);
      } else {
        WaitEndsNext(v, p, rest);
      }
    }
  }

  /** A waiting receive on an idle connected socket gets the first data that comes, however many polls
      pass before it. */
  lemma WaitGetsData(len: nat, polls: seq<Poll>, n: nat, segments: seq<seq<Byte>>)
    requires n < |polls| && (forall i :: 0 <= i < n ==> polls[i] == Poll([], [])) && polls[n] == Poll([Data(segments)], [])
    requires Deliverable(Data(segments))
    ensures Answer(Snap(Connected, [], 0), len, true, Gaps([], [], polls, [], [], [], [])) ==
            Bytes(segments[0][..Min(len, |segments[0]|)])
  {
    var v := Snap(Connected, [], 0);
    var w := Snap(Connected, segments, 0);
    WaitSkips(v, polls, n);
    assert [Data(segments)][..0] == [];
    assert After(v, [Data(segments)]) == w by { assert [] + segments == segments; }
    assert polls[n..][0] == polls[n];
    assert Waited(v, polls) == WaitEnd(true, w);
  }

  /** With data in the chain, the buffer is missing under the lock exactly when an error comes first. */
  lemma AtLockIs(v: Snap, g: Gaps)
    requires Sane(v) && v.chain != [] && Deliverables(g.last)
    ensures var end := AtLock(v, g);
            && Sane(end.v) && (end.verdict == Takes || end.verdict == Missing)
            && (end.verdict == Missing <==> HasError(g.last)) && (end.verdict == Takes ==> end.v.chain != [])
  {
    hide HasError, HasData, HasClose, After;
    AfterIs(v, g.last);
  }

  predicate Locked(end: Ending) { end.verdict == Takes || end.verdict == Missing }

  lemma SettledIs(v: Snap, g: Gaps)
    requires Sane(v) && DeliverableGaps(g) && (v.phase != Connected || v.chain != [])
    ensures var end := Settled(v, g);
            && Sane(end.v) && (Locked(end) ==> (end.verdict == Missing <==> HasError(g.last)))
            && (end.verdict == Takes ==> end.v.chain != [])
            && Locked(end) == Locked(Settled(v, g.(last := [])))
            && (end.verdict == End ==> end.v.chain == [] && (end.v.phase == PeerClosed || (end.v.phase.Failed? && HasError(g.closing))))
            && (end.verdict.Errs? ==>
                 match end.verdict.e
                 case Pending(c) => end.v.phase == Failed(c)
                 case ENOTCONN => end.v.phase == New || end.v.phase == Connecting
                                  || (end.v.phase == PeerClosed && (HasClose(g.closing) || HasClose(g.naming)))
                 case _ => false)
  {
    hide HasError, HasData, HasClose, After;
    var x := After(v, g.left);
    var y := After(x, g.closing);
    AfterIs(v, g.left);
    AfterIs(x, g.closing);
    AfterIs(y, g.naming);
    NothingHappens(y);
    if y.chain != [] { AtLockIs(y, g); }
  }

  /** The causes of each ending. */
  lemma Causes(v: Snap, blocking: bool, g: Gaps)
    requires Sane(v) && DeliverableGaps(g)
    ensures var end := Ended(v, blocking, g);
            && Sane(end.v)
            && (end.verdict == Takes ==> end.v.chain != [])
            && (Locked(end) ==> (end.verdict == Missing <==> HasError(g.last)))
            && Locked(end) == Locked(Ended(v, blocking, g.(last := [])))
            && (v.chain != [] ==> (Locked(end) <==> !HasError(g.entry)))
            && (end.verdict == End ==> end.v.phase == PeerClosed || (blocking && end.v.phase.Failed? && HasError(g.closing)))
            && (end.verdict == End && end.v.phase == PeerClosed ==> (end.v.chain == [] <==> blocking || !HasData(g.tested)))
            && (end.verdict.Errs? ==>
                 match end.verdict.e
                 case Pending(c) => end.v.phase == Failed(c)
                 case EAGAIN => !blocking && end.v.phase != PeerClosed && (end.v.chain == [] || HasData(g.tested))
                 case ETIMEDOUT => blocking && end.v.chain == [] && (end.v.phase == Connected || !Quiet(g.polls))
                 case ENOTCONN => end.v.phase == New || end.v.phase == Connecting
                                  || (end.v.phase == PeerClosed && (HasClose(g.closing) || HasClose(g.naming))))
  {
    hide HasError, HasData, HasClose, After, Waited, Settled, Quiet, AtLock;
    if !v.phase.Failed? {
      var a := After(v, g.entry);
      AfterIs(v, g.entry);
      if a.chain != [] {
        AtLockIs(a, g);
        AtLockIs(a, g.(last := []));
      } else {
        var b := After(a, g.tested);
        AfterIs(a, g.tested);
        if blocking {
          WaitedIs(b, g.polls);
          var w := Waited(b, g.polls);
          if w.done {
            SettledIs(w.v, g);
            SettledFailed(w.v, g);
          }
        }
      }
    }
  }

  lemma SettledFailed(v: Snap, g: Gaps)
    requires Sane(v) && DeliverableGaps(g)
    ensures v.phase.Failed? ==> !Locked(Settled(v, g))
  {
    hide HasError, HasData, HasClose, After;
    AfterIs(v, g.left);
    AfterIs(After(v, g.left), g.closing);
  }

  /** The first buffer is missing under the lock if and only if the same receive with nothing in its
      last gap would hand out bytes, and an error is in that gap. */
  lemma MissingExactly(v: Snap, blocking: bool, g: Gaps)
    requires Sane(v) && DeliverableGaps(g)
    ensures Ended(v, blocking, g).verdict == Missing <==>
            Ended(v, blocking, g.(last := [])).verdict == Takes && HasError(g.last)
  {
    hide Ended;
    Causes(v, blocking, g);
    Causes(v, blocking, g.(last := []));
  }

  /** A receive that does not wait, on a socket without data. */
  lemma NotWaiting(v: Snap, g: Gaps)
    requires Sane(v) && DeliverableGaps(g) && !v.phase.Failed? && v.chain == [] && !HasData(g.entry) && !HasError(g.entry)
    ensures Ended(v, false, g).verdict ==
            if (v.phase == PeerClosed || HasClose(g.entry) || HasClose(g.tested)) && !HasError(g.tested) then End else Errs(EAGAIN)
  {
    hide HasError, HasData, HasClose, After;
    AfterIs(v, g.entry);
    AfterIs(After(v, g.entry), g.tested);
  }

  /** A waiting receive on a connected socket reports that there is no connection if and only if data
      ended its wait and the peer's close, but no error, came between the two tests of the state. The
      data is still there. */
  lemma NotConnectedExactly(v: Snap, g: Gaps)
    requires Sane(v) && DeliverableGaps(g) && v.phase == Connected
    ensures var a := After(v, g.entry);
            var w := Waited(After(a, g.tested), g.polls);
            Ended(v, true, g).verdict == Errs(ENOTCONN) <==>
              && a.chain == [] && w.done && w.v.phase == Connected
              && !HasClose(g.left) && !HasError(g.left)
              && HasClose(g.closing) && !HasError(g.closing) && !HasError(g.naming)
    ensures Ended(v, true, g).verdict == Errs(ENOTCONN) ==> Ended(v, true, g).v.chain != []
  {
    hide HasError, HasData, HasClose, After, Waited;
    var a := After(v, g.entry);
    var b := After(a, g.tested);
    AfterIs(v, g.entry);
    AfterIs(a, g.tested);
    WaitedIs(b, g.polls);
    WaitedFrom(b, g.polls);
    var w := Waited(b, g.polls);
    var x := After(w.v, g.left);
    AfterIs(w.v, g.left);
    AfterIs(x, g.closing);
    AfterIs(After(x, g.closing), g.naming);
  }

  /** A waiting receive on a connected socket reports the end of the stream if and only if the close
      has come by its test, and then either no data at all came or an error takes it. */
  lemma EndExactly(v: Snap, g: Gaps)
    requires Sane(v) && DeliverableGaps(g) && v.phase == Connected
    ensures var a := After(v, g.entry);
            var w := Waited(After(a, g.tested), g.polls);
            Ended(v, true, g).verdict == End <==>
              && a.chain == [] && w.done
              && (w.v.phase == PeerClosed || (w.v.phase == Connected && HasClose(g.left))) && !HasError(g.left)
              && (HasError(g.closing) || (w.v.chain == [] && !HasData(g.left) && !HasData(g.closing)))
  {
    hide HasError, HasData, HasClose, After, Waited;
    var a := After(v, g.entry);
    var b := After(a, g.tested);
    AfterIs(v, g.entry);
    AfterIs(a, g.tested);
    WaitedIs(b, g.polls);
    WaitedFrom(b, g.polls);
    var w := Waited(b, g.polls);
    var x := After(w.v, g.left);
    AfterIs(w.v, g.left);
    AfterIs(x, g.closing);
  }

  /** It reports the error of the connection if and only if that comes before the tests of the state
      are over. */
  lemma PendingExactly(v: Snap, g: Gaps)
    requires Sane(v) && DeliverableGaps(g) && v.phase == Connected
    ensures var a := After(v, g.entry);
            var w := Waited(After(a, g.tested), g.polls);
            var verdict := Ended(v, true, g).verdict;
            verdict.Errs? && verdict.e.Pending? <==>
              && a.chain == [] && w.done
              && (|| w.v.phase.Failed? || HasError(g.left)
                  || (&& w.v.phase == Connected && !HasClose(g.left)
                      && (HasError(g.closing) || (HasClose(g.closing) && HasError(g.naming)))))
  {
    hide HasError, HasData, HasClose, After, Waited;
    var a := After(v, g.entry);
    var b := After(a, g.tested);
    AfterIs(v, g.entry);
    AfterIs(a, g.tested);
    WaitedIs(b, g.polls);
    WaitedFrom(b, g.polls);
    var w := Waited(b, g.polls);
    var x := After(w.v, g.left);
    AfterIs(w.v, g.left);
    AfterIs(x, g.closing);
    AfterIs(After(x, g.closing), g.naming);
  }

  /** Callbacks take a connected socket nowhere but to closed or failed. */
  lemma {:induction false} WaitedFrom(v: Snap, polls: seq<Poll>)
    requires Sane(v) && forall i :: 0 <= i < |polls| ==> Deliverables(polls[i].before) && Deliverables(polls[i].between)
    requires v.phase == Connected || v.phase == PeerClosed || v.phase.Failed?
    ensures var p := Waited(v, polls).v.phase; p == Connected || p == PeerClosed || p.Failed?
    decreases |polls|
  {
    hide HasError, HasData, HasClose, After;
    var p := if polls == [] then Poll([], []) else polls[0];
    AfterIs(v, p.before);
    AfterIs(After(v, p.before), p.between);
    if polls == [] {
    } else {
      WaitedFrom(After(After(v, p.before), p.between), polls[1..]);
    }
  }

  class Socket {
    var chain: seq<seq<Byte>>       // incoming.pbuf and its successors
    var recvOffset: nat
    var state: State
    var acknowledged: nat           // total passed to tcp_recved
    ghost var received: seq<Byte>   // every payload byte delivered so far
    ghost var returned: seq<Byte>   // every byte handed to the caller so far

    function See(): Snap
      reads this
    {
      Snap(state, chain, recvOffset)
    }

    /** The unread bytes. */
    ghost function Unread(): seq<Byte>
      requires chain != [] ==> recvOffset <= |chain[0]|
      reads this
    {
      Rest(chain, recvOffset)
    }

    /** Bytes handed out, then the unread bytes, are everything received; the window has been
        reopened by exactly the bytes handed out. After an error the unread bytes are gone. */
    ghost predicate Valid()
      reads this
    {
      && Sane(See())
      && acknowledged == |returned|
      && returned <= received
      && (!state.Failed? ==> returned + Unread() == received)
    }

    constructor (s: State)
      requires !s.Failed?
      ensures Valid() && See() == Snap(s, [], 0) && received == [] && returned == []
    {
      chain, recvOffset, state, acknowledged, received, returned := [], 0, s, 0, [], [];
    }

    /** _lwip_tcp_recv and _lwip_tcp_error */
    method Deliver(e: Event)
      requires Valid() && Deliverable(e)
      modifies this
      ensures Valid() && returned == old(returned)
      ensures received == old(received) + if e.Data? && !state.Failed? then Flatten(e.segments) else []
      ensures See() == One(old(See()), e)
    {
      hide Rest, Flatten;
      if state.Failed? {
        return;   // the pcb is gone, so lwIP calls back no more
      }
      match e
      case Closed => state := PeerClosed;
      case Error(c) =>
        chain := [];
        state := Failed(c);
      case Data(segments) =>
        if chain != [] { RestAppend(chain, recvOffset, segments); } else { RestAll(segments); }
        assert chain == [] ==> Unread() == [] by { EmptyRest(recvOffset); }
        assert returned + (Unread() + Flatten(segments)) == received + Flatten(segments);
        if chain == [] {
          chain := segments;
          assert [] + Flatten(segments) == Flatten(segments) && [] + segments == segments;
        } else {
          chain := chain + segments;
        }
        received := received + Flatten(segments);
    }

    /** The copy under the lock: at most the rest of the first buffer. */
    method Take(len: nat) returns (bytes: seq<Byte>)
      requires Valid() && chain != [] && !state.Failed?
      modifies this
      ensures Valid() && received == old(received) && returned == old(returned) + bytes
      ensures bytes == Handed(old(See()), len) && See() == Took(old(See()), len)
      ensures bytes == old(Unread())[..|bytes|] && |bytes| == Min(len, old(|chain[0]| - recvOffset))
    {
      hide Rest, Flatten;
      ghost var unread := Unread();
      var p := chain[0];
      var remaining := |p| - recvOffset;
      var n := if len > remaining then remaining else len;
      bytes := p[recvOffset..recvOffset + n];
      RestTake(chain, recvOffset, n);
      if remaining - n == 0 {
        chain := chain[1..];
        recvOffset := 0;
      } else {
        recvOffset := recvOffset + n;
      }
      assert unread == bytes + Unread();
      assert returned + (bytes + Unread()) == (returned + bytes) + Unread();
      acknowledged := acknowledged + n;
      returned := returned + bytes;
    }

    /** Callbacks that run while receive does not hold the lock. */
    method DeliverAll(es: seq<Event>)
      requires Valid() && Deliverables(es)
      modifies this
      ensures Valid() && returned == old(returned) && old(received) <= received
      ensures See() == After(old(See()), es)
    {
      hide Rest, Flatten;
      assert es[..0] == [];
      for i := 0 to |es|
        invariant Valid() && returned == old(returned) && old(received) <= received
        invariant See() == After(old(See()), es[..i])
      {
        AfterNext(old(See()), es, i);
        Deliver(es[i]);
      }
      assert es[..|es|] == es;
    }

    lemma AllHandedOut()
      requires Valid() && !state.Failed?
      ensures returned == received <==> chain == []
    {
      if chain != [] { assert Unread()[0] == chain[0][recvOffset..][0]; }
    }

    /** The waiting loop: false when the timeout expired. */
    method Wait(polls: seq<Poll>) returns (done: bool)
      requires Valid()
      requires forall i :: 0 <= i < |polls| ==> Deliverables(polls[i].before) && Deliverables(polls[i].between)
      modifies this
      ensures Valid() && returned == old(returned)
      ensures WaitEnd(done, See()) == Waited(old(See()), polls)
    {
      hide Rest, Flatten, After;
      var i := 0;
      while true
        invariant Valid() && returned == old(returned) && 0 <= i <= |polls|
        invariant Waited(See(), polls[i..]) == Waited(old(See()), polls)
        decreases |polls| - i
      {
        var p := if i < |polls| then polls[i] else Poll([], []);
        DeliverAll(p.before);
        if state != Connected { return true; }
        DeliverAll(p.between);
        if chain != [] { return true; }
        if i == |polls| { return false; }
        assert polls[i..][1..] == polls[i + 1..];
        i := i + 1;
      }
    }

    /** From the last test to the end of the locked part. */
    method TakeLocked(len: nat, g: Gaps) returns (r: Outcome)
      requires Valid() && DeliverableGaps(g)
      modifies this
      ensures Valid()
      ensures r.Bytes? ==> returned == old(returned) + r.b && |r.b| <= len
      ensures !r.Bytes? ==> returned == old(returned)
      ensures var end := AtLock(old(See()), g);
              if end.verdict == Takes then r == Bytes(Handed(end.v, len)) && See() == Took(end.v, len)
              else r == NullDereference && See() == end.v
    {
      hide Rest, Flatten, After;
      DeliverAll(g.last);
      if chain == [] {
        return NullDereference;
      }
      var bytes := Take(len);
      r := Bytes(bytes);
    }

    /** The tests after the wait, and what follows them. */
    method Settle(len: nat, g: Gaps) returns (r: Outcome)
      requires Valid() && DeliverableGaps(g)
      modifies this
      ensures Valid()
      ensures r.Bytes? ==> returned == old(returned) + r.b && |r.b| <= len
      ensures !r.Bytes? ==> returned == old(returned)
      ensures var end := Settled(old(See()), g);
              && r == AnswerOf(end, len)
              && See() == if end.verdict == Takes then Took(end.v, len) else end.v
    {
      hide Rest, Flatten, After;
      DeliverAll(g.left);
      if state == PeerClosed {
        DeliverAll(g.closing);
        if chain == [] {
          return Bytes([]);
        }
      } else {
        DeliverAll(g.closing);
        if state != Connected {
          DeliverAll(g.naming);
          match state
          case Failed(c) => return Fails(Pending(c));
          case _ => return Fails(ENOTCONN);
        }
      }
      r := TakeLocked(len, g);
    }

    /** lwip_tcp_receive. `blocking` is a non-zero timeout. */
    method Receive(len: nat, blocking: bool, g: Gaps) returns (r: Outcome)
      requires Valid() && DeliverableGaps(g)
      modifies this
      ensures Valid()
      ensures r.Bytes? ==> returned == old(returned) + r.b && |r.b| <= len
      ensures !r.Bytes? ==> returned == old(returned)
      // the answer and the socket are what the callbacks make them, exactly
      ensures r == Answer(old(See()), len, blocking, g) && See() == Left(old(See()), len, blocking, g)
      // data that is there at the call is handed out, unless an error takes it
      ensures old(chain) != [] && !HasError(g.entry) && !HasError(g.last) && len > 0 ==> r.Bytes? && |r.b| > 0
      // an empty answer means that the peer closed; data is left behind it exactly when some came
      // between the two tests of a receive that does not wait
      ensures r == Bytes([]) && len > 0 ==> state == PeerClosed || (blocking && state.Failed? && HasError(g.closing))
      ensures r == Bytes([]) && len > 0 && state == PeerClosed ==> (returned == received <==> blocking || !HasData(g.tested))
    {
      hide Rest, Flatten, After, HasError, HasData, HasClose, Waited, Settled, Sane;
      ghost var v := See();
      Causes(v, blocking, g);
      HandedSome(Ended(v, blocking, g).v, len);
      if state.Failed? {
        return Fails(Pending(state.code));
      }
      DeliverAll(g.entry);
      if chain == [] {
        DeliverAll(g.tested);
        if !blocking {
          if state == PeerClosed {
            AllHandedOut();
            return Bytes([]);
          }
          return Fails(EAGAIN);
        }
        var done := Wait(g.polls);
        if !done {
          return Fails(ETIMEDOUT);
        }
        r := Settle(len, g);
        if r == Bytes([]) && !state.Failed? { AllHandedOut(); }
      } else {
        r := TakeLocked(len, g);
      }
    }
  }

  /** Where there is data and some is asked for, some is handed out. */
  lemma HandedSome(v: Snap, len: nat)
    requires Sane(v)
    ensures v.chain != [] && len > 0 ==> Handed(v, len) != []
    ensures Took(v, len).phase == v.phase
  {}

  datatype Call = Callback(e: Event) | Recv(len: nat, blocking: bool, gaps: Gaps)

  predicate Legal(c: Call) {
    match c
    case Callback(e) => Deliverable(e)
    case Recv(_, _, gaps) => DeliverableGaps(gaps)
  }

  /** The session comes to a receive that finds its first buffer missing. */
  predicate Crashes(v: Snap, calls: seq<Call>)
    decreases |calls|
  {
    && calls != []
    && match calls[0]
       case Callback(e) => Crashes(One(v, e), calls[1..])
       case Recv(len, blocking, g) =>
         Ended(v, blocking, g).verdict == Missing || Crashes(Left(v, len, blocking, g), calls[1..])
  }

  /** Only an error in the last gap of a receive can do that. */
  lemma {:induction false} CrashCause(v: Snap, calls: seq<Call>)
    requires Sane(v) && (forall i :: 0 <= i < |calls| ==> Legal(calls[i])) && Crashes(v, calls)
    ensures exists i :: 0 <= i < |calls| && calls[i].Recv? && HasError(calls[i].gaps.last)
    decreases |calls|
  {
    hide Ended, HasError, Sane, One;
    assert Legal(calls[0]);
    var next := match calls[0]
                case Callback(e) => One(v, e)
                case Recv(len, blocking, g) => Left(v, len, blocking, g);
    if calls[0].Recv? && Ended(v, calls[0].blocking, calls[0].gaps).verdict == Missing {
      Causes(v, calls[0].blocking, calls[0].gaps);
    } else {
      NextIsSane(v, calls[0]);
      CrashCause(next, calls[1..]);
      var i :| 0 <= i < |calls[1..]| && calls[1..][i].Recv? && HasError(calls[1..][i].gaps.last);
      assert calls[i + 1] == calls[1..][i];
    }
  }

  lemma NextIsSane(v: Snap, c: Call)
    requires Sane(v) && Legal(c)
    ensures match c
            case Callback(e) => Sane(One(v, e))
            case Recv(len, blocking, g) => Sane(Left(v, len, blocking, g))
  {
    hide Ended;
    match c
    case Callback(e) => OneIsSane(v, e);
    case Recv(len, blocking, g) =>
      Causes(v, blocking, g);
      var w := Ended(v, blocking, g).v;
      assert w.chain != [] ==> NonEmpty(w.chain[1..]);
  }

  /** Every interleaving of callbacks and receives, callbacks inside a receive included: what the
      caller collects is always a prefix of what was received, and together with the unread chain it
      is all of it unless lwIP reported an error. */
  method Session(calls: seq<Call>) returns (out: seq<Byte>, s: Socket, crashed: bool)
    requires forall i :: 0 <= i < |calls| ==> Legal(calls[i])
    ensures s.Valid() && out == s.returned && out <= s.received && s.acknowledged == |out|
    ensures !s.state.Failed? ==> out + s.Unread() == s.received
    ensures crashed <==> Crashes(Snap(Connected, [], 0), calls)
  {
    hide HasError, Flatten, Rest, Ended;
    s := new Socket(Connected);
    out, crashed := [], false;
    assert calls[0..] == calls;
    for i := 0 to |calls|
      invariant s.Valid() && fresh(s) && out == s.returned
      invariant Crashes(s.See(), calls[i..]) == Crashes(Snap(Connected, [], 0), calls)
    {
      assert calls[i..][1..] == calls[i + 1..];
      match calls[i] {
        case Callback(e) => s.Deliver(e);
        case Recv(len, blocking, gaps) =>
          var r := s.Receive(len, blocking, gaps);
          if r.NullDereference? { return out, s, true; }
          if r.Bytes? { out := out + r.b; }
      }
    }
  }

  // ---------- inputs ----------

  const NO_GAPS := Gaps([], [], [], [], [], [], [])

  const IDLE := Snap(Connected, [], 0)

  const BYTE := Data([[0]])

  lemma OneEvent(v: Snap, e: Event)
    ensures After(v, [e]) == One(v, e) && After(v, []) == v
  {
    assert [e][..0] == [];
  }

  /** A receive that no callback disturbs. */
  lemma Undisturbed(v: Snap, len: nat, blocking: bool)
    requires Sane(v)
    ensures Answer(v, len, blocking, NO_GAPS) ==
            if v.phase.Failed? then Fails(Pending(v.phase.code))
            else if v.chain != [] then Bytes(v.chain[0][v.offset..v.offset + Min(len, |v.chain[0]| - v.offset)])
            else if v.phase == PeerClosed then Bytes([])
            else if !blocking then Fails(EAGAIN)
            else if v.phase == Connected then Fails(ETIMEDOUT)
            else Fails(ENOTCONN)
  {
    NothingHappens(v);
  }

  /** A byte is waiting and the connection fails after the last test of a receive. */
  lemma ErrorBeforeTheLock()
    ensures Answer(Snap(Connected, [[0]], 0), 1, true, NO_GAPS.(last := [Error(1)])) == NullDereference
  {
    OneEvent(Snap(Connected, [[0]], 0), Error(1));
  }

  /** The wait of a receive ends with a byte, and the connection fails before the lock is taken. */
  lemma ErrorAfterTheWait()
    ensures Answer(IDLE, 1, true, NO_GAPS.(polls := [Poll([BYTE], [])], last := [Error(1)])) == NullDereference
  {
    var v := Snap(Connected, [[0]], 0);
    OneEvent(IDLE, BYTE);
    OneEvent(v, Error(1));
    assert [] + [[0 as Byte]] == [[0]];
  }

  /** A byte and the close both arrive between the two tests of a receive that does not wait: the
      end of the stream is reported before the byte. */
  lemma EndBeforeData()
    ensures var g := NO_GAPS.(tested := [BYTE, Closed]);
            Answer(IDLE, 1, false, g) == Bytes([]) && Left(IDLE, 1, false, g) == Snap(PeerClosed, [[0]], 0)
  {
    AfterNext(IDLE, [BYTE, Closed], 1);
    OneEvent(IDLE, BYTE);
    assert [BYTE, Closed][..1] == [BYTE] && [BYTE, Closed][..2] == [BYTE, Closed];
    assert [] + [[0 as Byte]] == [[0]];
  }

  /** The wait of a receive ends with a byte, and the peer closes before the state is tested for the
      second time: the byte stays and the caller is told that there is no connection. */
  lemma NotConnectedBeforeData()
    ensures var g := NO_GAPS.(polls := [Poll([BYTE], [])], closing := [Closed]);
            Answer(IDLE, 1, true, g) == Fails(ENOTCONN) && Left(IDLE, 1, true, g) == Snap(PeerClosed, [[0]], 0)
  {
    OneEvent(IDLE, BYTE);
    OneEvent(Snap(Connected, [[0]], 0), Closed);
    OneEvent(Snap(PeerClosed, [[0]], 0), Closed);
    assert [] + [[0 as Byte]] == [[0]];
  }
}
