/** The I2S byte queue of extmod/machine_i2s.c under true concurrency: one producer and one
    consumer run `ringbuf_push`, `ringbuf_pop` and the two availability tests, and every load
    and store of a shared variable is a step of its own. */
module I2sRing {
  import opened Common

  /** Where the producer is inside push or the space test. `credit` counts the pushes that
      the last successful space test still allows to go unchecked. */
  datatype Producer =
    | PIdle(credit: nat)
    | PSpace(want: nat, tail: Option<nat>, head: Option<nat>)
    | PNext(data: Byte, next: nat, credit: nat)
    | PRoom(data: Byte, next: nat, credit: nat)
    | PSlot(data: Byte, next: nat, slot: nat, credit: nat)
    | PStored(next: nat, data: Byte, credit: nat)

  /** Where the consumer is inside pop or the data test. */
  datatype Consumer =
    | CIdle(credit: nat)
    | CData(want: nat, tail: Option<nat>, head: Option<nat>)
    | CCompare(tail: Option<nat>, head: Option<nat>, credit: nat)
    | CSlot(credit: nat)
    | CRead(slot: nat, credit: nat)
    | CGot(data: Byte, credit: nat)
    | CNext(data: Byte, next: nat, credit: nat)

  /** The shared ring, both threads, and the history: every byte whose push completed, every
      byte whose pop completed, how far each thread had seen the other, and whether a push or
      pop covered by an availability test was ever refused. */
  datatype State = State(
    size: nat, head: nat, tail: nat, buffer: seq<Byte>,
    p: Producer, c: Consumer,
    pushed: seq<Byte>, popped: seq<Byte>,
    seenPopped: nat, seenPushed: nat,
    broken: bool)

  datatype Event =
    | AskSpace(n: nat)      // the producer enters ringbuf_available_space for n bytes
    | SpaceLoadTail
    | SpaceLoadHead
    | SpaceDecide
    | PushLoadTail(data: Byte)   // the producer enters ringbuf_push
    | PushLoadHead
    | PushReloadTail
    | PushStoreByte
    | PushStoreTail
    | AskData(n: nat)       // the consumer enters ringbuf_available_data for n bytes
    | DataLoadTail
    | DataLoadHead
    | DataDecide
    | PopEnter
    | PopLoadTail
    | PopLoadHead
    | PopDecide
    | PopReloadHead
    | PopLoadByte
    | PopAdvance
    | PopStoreHead

  function Spend(credit: nat): nat { if credit == 0 then 0 else credit - 1 }

  function AvailableData(size: nat, tail: int, head: int): int
    requires 0 < size
  {
    (tail - head + size) % size
  }

  function AvailableSpace(size: nat, tail: int, head: int): int
    requires 0 < size
  {
    size - AvailableData(size, tail, head) - 1
  }

  /** One producer step; a step that the producer is not at leaves the state alone. */
  function ProducerStep(s: State, e: Event): State
    requires 0 < s.size && s.tail < s.size == |s.buffer|
    requires s.p.PSlot? ==> s.p.slot < s.size
  {
    match (e, s.p)
    case (AskSpace(n), PIdle(_)) => s.(p := PSpace(n, None, None))
    case (SpaceLoadTail, PSpace(n, _, h)) => s.(p := PSpace(n, Some(s.tail), h))
    case (SpaceLoadHead, PSpace(n, t, _)) =>
      s.(p := PSpace(n, t, Some(s.head)), seenPopped := |s.popped|)
    case (SpaceDecide, PSpace(n, Some(t), Some(h))) =>
      s.(p := PIdle(if AvailableSpace(s.size, t, h) >= n then n else 0))
    case (PushLoadTail(d), PIdle(credit)) => s.(p := PNext(d, (s.tail + 1) % s.size, credit))
    case (PushLoadHead, PNext(d, next, credit)) =>
      if next != s.head then s.(p := PRoom(d, next, credit))
      else s.(p := PIdle(Spend(credit)), broken := s.broken || credit > 0)
    case (PushReloadTail, PRoom(d, next, credit)) => s.(p := PSlot(d, next, s.tail, credit))
    case (PushStoreByte, PSlot(d, next, slot, credit)) =>
      s.(buffer := s.buffer[slot := d], p := PStored(next, d, credit))
    case (PushStoreTail, PStored(next, d, credit)) =>
      s.(tail := next, p := PIdle(Spend(credit)), pushed := s.pushed + [d])
    case _ => s
  }

  /** One consumer step; a step that the consumer is not at leaves the state alone. */
  function ConsumerStep(s: State, e: Event): State
    requires 0 < s.size && s.head < s.size == |s.buffer|
    requires s.c.CRead? ==> s.c.slot < s.size
  {
    match (e, s.c)
    case (AskData(n), CIdle(_)) => s.(c := CData(n, None, None))
    case (DataLoadTail, CData(n, _, h)) =>
      s.(c := CData(n, Some(s.tail), h), seenPushed := |s.pushed|)
    case (DataLoadHead, CData(n, t, _)) => s.(c := CData(n, t, Some(s.head)))
    case (DataDecide, CData(n, Some(t), Some(h))) =>
      s.(c := CIdle(if AvailableData(s.size, t, h) >= n then n else 0))
    case (PopEnter, CIdle(credit)) => s.(c := CCompare(None, None, credit))
    case (PopLoadTail, CCompare(_, h, credit)) =>
      s.(c := CCompare(Some(s.tail), h, credit), seenPushed := |s.pushed|)
    case (PopLoadHead, CCompare(t, _, credit)) => s.(c := CCompare(t, Some(s.head), credit))
    case (PopDecide, CCompare(Some(t), Some(h), credit)) =>
      if h == t then s.(c := CIdle(Spend(credit)), broken := s.broken || credit > 0)
      else s.(c := CSlot(credit))
    case (PopReloadHead, CSlot(credit)) => s.(c := CRead(s.head, credit))
    case (PopLoadByte, CRead(slot, credit)) => s.(c := CGot(s.buffer[slot], credit))
    case (PopAdvance, CGot(d, credit)) => s.(c := CNext(d, (s.head + 1) % s.size, credit))
    case (PopStoreHead, CNext(d, next, credit)) =>
      s.(head := next, c := CIdle(Spend(credit)), popped := s.popped + [d])
    case _ => s
  }

  predicate ProducerEvent(e: Event) {
    e.AskSpace? || e.SpaceLoadTail? || e.SpaceLoadHead? || e.SpaceDecide? || e.PushLoadTail? ||
    e.PushLoadHead? || e.PushReloadTail? || e.PushStoreByte? || e.PushStoreTail?
  }

  /** ringbuf_init over a buffer with arbitrary contents. */
  function Init(buffer: seq<Byte>): State
    requires |buffer| > 0
  {
    State(|buffer|, 0, 0, buffer, PIdle(0), CIdle(0), [], [], 0, 0, false)
  }

  function Credit(p: Producer): nat { if p.PSpace? then 0 else p.credit }

  function Owed(c: Consumer): nat { if c.CData? then 0 else c.credit }

  ghost predicate Shape(s: State) {
    && 0 < s.size == |s.buffer|
    && s.head < s.size && s.tail < s.size
    && s.tail == |s.pushed| % s.size
    && s.head == |s.popped| % s.size
  }

  /** What the queue promises: completed pops are a prefix of completed pushes, at most
      size - 1 bytes are unread, every unread byte is still in its slot, and no push or pop
      covered by an availability test has been refused. */
  ghost predicate Safe(s: State) {
    && s.popped <= s.pushed
    && |s.pushed| - |s.popped| <= s.size - 1
    && s.size == |s.buffer| > 0
    && (forall k :: |s.popped| <= k < |s.pushed| ==> s.buffer[k % s.size] == s.pushed[k])
    && !s.broken
  }

  ghost predicate ProducerInv(s: State)
    requires Shape(s)
  {
    && s.seenPopped <= |s.popped|
    && |s.pushed| + Credit(s.p) - |s.popped| <= s.size - 1
    && match s.p
       case PIdle(_) => true
       case PSpace(_, t, h) =>
         && (t.Some? ==> t.value == s.tail)
         && (h.Some? ==> h.value == s.seenPopped % s.size && |s.pushed| - s.seenPopped <= s.size - 1)
       case PNext(_, next, _) => next == (|s.pushed| + 1) % s.size
       case PRoom(_, next, _) => next == (|s.pushed| + 1) % s.size && Room(s)
       case PSlot(_, next, slot, _) =>
         next == (|s.pushed| + 1) % s.size && Room(s) && slot == s.tail
       case PStored(next, d, _) =>
         next == (|s.pushed| + 1) % s.size && Room(s) && s.buffer[s.tail] == d
  }

  /** There is a free slot besides the one that tells full from empty. */
  ghost predicate Room(s: State) { |s.pushed| + 1 - |s.popped| <= s.size - 1 }

  ghost predicate ConsumerInv(s: State)
    requires Shape(s)
  {
    && s.seenPushed <= |s.pushed|
    && |s.popped| + Owed(s.c) <= |s.pushed|
    && match s.c
       case CIdle(_) => true
       case CData(_, t, h) =>
         && (h.Some? ==> h.value == s.head)
         && (t.Some? ==> t.value == s.seenPushed % s.size && |s.popped| <= s.seenPushed)
       case CCompare(t, h, credit) =>
         && (h.Some? ==> h.value == s.head)
         && (t.Some? ==> t.value == s.seenPushed % s.size && |s.popped| + credit <= s.seenPushed)
       case CSlot(_) => |s.popped| < |s.pushed|
       case CRead(slot, _) => |s.popped| < |s.pushed| && slot == s.head
       case CGot(d, _) => |s.popped| < |s.pushed| && d == s.pushed[|s.popped|]
       case CNext(d, next, _) =>
         |s.popped| < |s.pushed| && d == s.pushed[|s.popped|] && next == (|s.popped| + 1) % s.size
  }

  ghost predicate Inv(s: State) {
    Shape(s) && Safe(s) && ProducerInv(s) && ConsumerInv(s)
  }

  function Step(s: State, e: Event): State
    requires 0 < s.size == |s.buffer| && s.tail < s.size && s.head < s.size
    requires s.p.PSlot? ==> s.p.slot < s.size
    requires s.c.CRead? ==> s.c.slot < s.size
  {
    if ProducerEvent(e) then ProducerStep(s, e) else ConsumerStep(s, e)
  }

  /** The producer's byte store lands outside every unread slot. */
  lemma StoreMissesUnread(s: State, k: nat)
    requires Inv(s) && s.p.PSlot?
    requires |s.popped| <= k < |s.pushed|
    ensures k % s.size != s.p.slot
  {
    ModDistance(k, |s.pushed|, s.size);
  }

  /** At the load of head, the wrapped comparison tells exactly whether there is room. */
  lemma HeadLoadTellsRoom(s: State)
    requires Inv(s) && s.p.PNext?
    ensures s.p.next != s.head <==> Room(s)
  {
    if Room(s) {
      ModDistance(|s.popped|, |s.pushed| + 1, s.size);
    } else {
      assert |s.pushed| + 1 == s.size * (|s.popped| / s.size + 1) + |s.popped| % s.size;
      DivModUnique(|s.pushed| + 1, s.size, |s.popped| / s.size + 1, |s.popped| % s.size);
    }
  }

  lemma PushStoreKeepsInv(s: State)
    requires Inv(s) && s.p.PSlot?
    ensures Inv(ProducerStep(s, PushStoreByte))
  {
    var t := ProducerStep(s, PushStoreByte);
    forall k | |s.popped| <= k < |s.pushed| ensures t.buffer[k % s.size] == s.pushed[k] {
      StoreMissesUnread(s, k);
    }
  }

  lemma PublishKeepsInv(s: State)
    requires Inv(s) && s.p.PStored?
    ensures Inv(ProducerStep(s, PushStoreTail))
  {
    ModStep(|s.pushed|, s.size);
    var t := ProducerStep(s, PushStoreTail);
    forall k | |s.popped| <= k < |t.pushed| ensures t.buffer[k % s.size] == t.pushed[k] {}
  }

  lemma SpaceTestsKeepInv(s: State, e: Event)
    requires Inv(s)
    requires e.AskSpace? || e.SpaceLoadTail? || e.SpaceLoadHead? || e.SpaceDecide?
    ensures Inv(ProducerStep(s, e))
  {
    if e.SpaceDecide? && s.p.PSpace? && s.p.tail.Some? && s.p.head.Some? {
      ModDistance(s.seenPopped, |s.pushed|, s.size);
    }
  }

  lemma PushLoadsKeepInv(s: State, e: Event)
    requires Inv(s)
    requires e.PushLoadTail? || e.PushLoadHead? || e.PushReloadTail?
    ensures Inv(ProducerStep(s, e))
  {
    if e.PushLoadTail? { ModStep(|s.pushed|, s.size); }
    if e.PushLoadHead? && s.p.PNext? { HeadLoadTellsRoom(s); }
  }

  lemma ProducerKeepsInv(s: State, e: Event)
    requires Inv(s)
    ensures Inv(ProducerStep(s, e))
  {
    if e.AskSpace? || e.SpaceLoadTail? || e.SpaceLoadHead? || e.SpaceDecide? {
      SpaceTestsKeepInv(s, e);
    } else if e.PushLoadTail? || e.PushLoadHead? || e.PushReloadTail? {
      PushLoadsKeepInv(s, e);
    } else if e.PushStoreByte? && s.p.PSlot? {
      PushStoreKeepsInv(s);
    } else if e.PushStoreTail? && s.p.PStored? {
      PublishKeepsInv(s);
    }
  }

  lemma TestsKeepInv(s: State, e: Event)
    requires Inv(s)
    requires e.AskData? || e.DataLoadTail? || e.DataLoadHead? || e.DataDecide?
    ensures Inv(ConsumerStep(s, e))
  {
    if e.DataDecide? && s.c.CData? && s.c.tail.Some? && s.c.head.Some? {
      ModDistance(|s.popped|, s.seenPushed, s.size);
    }
  }

  lemma PopCompareKeepsInv(s: State, e: Event)
    requires Inv(s)
    requires e.PopEnter? || e.PopLoadTail? || e.PopLoadHead? || e.PopDecide?
    ensures Inv(ConsumerStep(s, e))
  {
    if e.PopDecide? && s.c.CCompare? && s.c.tail.Some? && s.c.head.Some? {
      ModDistance(|s.popped|, s.seenPushed, s.size);
    }
  }

  lemma PopReadKeepsInv(s: State, e: Event)
    requires Inv(s)
    requires e.PopReloadHead? || e.PopLoadByte? || e.PopAdvance?
    ensures Inv(ConsumerStep(s, e))
  {
    ModStep(|s.popped|, s.size);
  }

  lemma PopStoreKeepsInv(s: State)
    requires Inv(s)
    ensures Inv(ConsumerStep(s, PopStoreHead))
  {
    ModStep(|s.popped|, s.size);
  }

  lemma StepKeepsInv(s: State, e: Event)
    requires Inv(s)
    ensures Inv(Step(s, e))
  {
    if ProducerEvent(e) {
      ProducerKeepsInv(s, e);
    } else {
      match e
      case AskData(_) => TestsKeepInv(s, e);
      case DataLoadTail => TestsKeepInv(s, e);
      case DataLoadHead => TestsKeepInv(s, e);
      case DataDecide => TestsKeepInv(s, e);
      case PopEnter => PopCompareKeepsInv(s, e);
      case PopLoadTail => PopCompareKeepsInv(s, e);
      case PopLoadHead => PopCompareKeepsInv(s, e);
      case PopDecide => PopCompareKeepsInv(s, e);
      case PopReloadHead => PopReadKeepsInv(s, e);
      case PopLoadByte => PopReadKeepsInv(s, e);
      case PopAdvance => PopReadKeepsInv(s, e);
      case PopStoreHead => PopStoreKeepsInv(s);
    }
  }

  /** The state after every event of an interleaving, in order. */
  ghost function Run(s: State, events: seq<Event>): (r: State)
    requires Inv(s)
    ensures Inv(r) && r.size == s.size
    decreases |events|
  {
    if events == [] then s
    else
      StepKeepsInv(s, events[0]);
      Run(Step(s, events[0]), events[1..])
  }

  /** Safety over every interleaving of loads and stores from ringbuf_init. */
  lemma EveryInterleavingIsSafe(buffer: seq<Byte>, events: seq<Event>)
    requires |buffer| > 0
    ensures Inv(Init(buffer)) && Safe(Run(Init(buffer), events))
  {
    assert 0 % |buffer| == 0;
  }

  /** A push is refused exactly when size - 1 bytes are unread at its load of head. */
  lemma PushRefusedExactlyWhenFull(s: State)
    requires Inv(s) && s.p.PNext?
    ensures ProducerStep(s, PushLoadHead).p.PIdle? <==> |s.pushed| - |s.popped| == s.size - 1
  {
    HeadLoadTellsRoom(s);
  }

  /** A pop is refused exactly when nothing was unread at its load of tail. */
  lemma PopRefusedExactlyWhenEmpty(s: State)
    requires Inv(s) && s.c.CCompare? && s.c.tail.Some? && s.c.head.Some?
    ensures ConsumerStep(s, PopDecide).c.CIdle? <==> s.seenPushed == |s.popped|
  {
    ModDistance(|s.popped|, s.seenPushed, s.size);
  }

  /** A space test grants its bytes exactly when they fit beside what it saw unread, and then
      they still fit whatever the consumer does next. */
  lemma SpaceTestIsExact(s: State)
    requires Inv(s) && s.p.PSpace? && s.p.tail.Some? && s.p.head.Some?
    ensures var r := ProducerStep(s, SpaceDecide);
            r.p == PIdle(if |s.pushed| - s.seenPopped + s.p.want <= s.size - 1 then s.p.want else 0)
  {
    ModDistance(s.seenPopped, |s.pushed|, s.size);
  }

  /** A data test grants its bytes exactly when it saw that many unread. */
  lemma DataTestIsExact(s: State)
    requires Inv(s) && s.c.CData? && s.c.tail.Some? && s.c.head.Some?
    ensures ConsumerStep(s, DataDecide).c == CIdle(if s.seenPushed - |s.popped| >= s.c.want then s.c.want else 0)
  {
    ModDistance(|s.popped|, s.seenPushed, s.size);
  }

  /** While a grant lasts no push is refused, and each push uses up one byte of it. */
  lemma GrantedPush(s: State)
    requires Inv(s) && Credit(s.p) > 0
    ensures s.p.PNext? ==> ProducerStep(s, PushLoadHead).p == PRoom(s.p.data, s.p.next, s.p.credit)
    ensures s.p.PStored? ==> ProducerStep(s, PushStoreTail).p == PIdle(s.p.credit - 1)
  {
    if s.p.PNext? { HeadLoadTellsRoom(s); }
  }

  /** While a grant lasts no pop is refused, and each pop uses up one byte of it. */
  lemma GrantedPop(s: State)
    requires Inv(s) && Owed(s.c) > 0
    ensures s.c.CCompare? && s.c.tail.Some? && s.c.head.Some? ==> ConsumerStep(s, PopDecide).c == CSlot(s.c.credit)
    ensures s.c.CNext? ==> ConsumerStep(s, PopStoreHead).c == CIdle(s.c.credit - 1)
  {
    if s.c.CCompare? && s.c.tail.Some? && s.c.head.Some? { ModDistance(|s.popped|, s.seenPushed, s.size); }
  }

  /** Neither side touches what the other one owns. */
  lemma Independent(s: State, e: Event)
    requires Inv(s)
    ensures ProducerEvent(e) ==>
      var r := Step(s, e);
      r.c == s.c && r.head == s.head && r.popped == s.popped && r.seenPushed == s.seenPushed && r.size == s.size
    ensures !ProducerEvent(e) ==>
      var r := Step(s, e);
      && r.p == s.p && r.tail == s.tail && r.pushed == s.pushed && r.seenPopped == s.seenPopped
      && r.buffer == s.buffer && r.size == s.size
  {
  }

  /** A step from a state that satisfies the invariant. */
  ghost function Next(s: State, e: Event): (r: State)
    requires Inv(s)
    ensures Inv(r)
  {
    StepKeepsInv(s, e);
    Step(s, e)
  }

  lemma RunOne(s: State, e: Event, rest: seq<Event>)
    requires Inv(s)
    ensures Run(s, [e] + rest) == Run(Next(s, e), rest)
  {
    assert ([e] + rest)[1..] == rest;
  }

  ghost predicate SameBytes(s: State, r: State) { r.pushed == s.pushed && r.popped == s.popped && r.size == s.size }

  /** What each step of a push does to the producer. */
  lemma PushEffect(s: State, e: Event)
    requires Inv(s)
    ensures var r := Next(s, e);
            && (e.PushLoadTail? && s.p.PIdle? ==> SameBytes(s, r) && r.p.PNext? && r.p.data == e.data)
            && (e.PushLoadHead? && s.p.PNext? ==>
                  SameBytes(s, r) && if |s.pushed| - |s.popped| < s.size - 1 then r.p.PRoom? && r.p.data == s.p.data else r.p.PIdle?)
            && (e.PushReloadTail? && s.p.PRoom? ==> SameBytes(s, r) && r.p.PSlot? && r.p.data == s.p.data)
            && (e.PushStoreByte? && s.p.PSlot? ==> SameBytes(s, r) && r.p.PStored? && r.p.data == s.p.data)
            && (e.PushStoreTail? && s.p.PStored? ==> r.p.PIdle? && r.pushed == s.pushed + [s.p.data] && r.popped == s.popped)
            && (s.p.PIdle? && (e.PushLoadHead? || e.PushReloadTail? || e.PushStoreByte? || e.PushStoreTail?) ==> r == s)
  {
    if e.PushLoadHead? && s.p.PNext? { PushRefusedExactlyWhenFull(s); }
  }

  /** A whole push, undisturbed: the byte is appended if there is room, else nothing changes. */
  lemma WholePush(s: State, d: Byte)
    requires Inv(s) && s.p.PIdle?
    ensures var r := Run(s, [PushLoadTail(d)] + ([PushLoadHead] + ([PushReloadTail] + ([PushStoreByte] + ([PushStoreTail] + [])))));
            && r.p.PIdle? && r.popped == s.popped
            && r.pushed == s.pushed + if |s.pushed| - |s.popped| < s.size - 1 then [d] else []
  {
    hide Run, Inv, Next;
    var s1 := Next(s, PushLoadTail(d));
    var s2 := Next(s1, PushLoadHead);
    var s3 := Next(s2, PushReloadTail);
    var s4 := Next(s3, PushStoreByte);
    var s5 := Next(s4, PushStoreTail);
    PushEffect(s, PushLoadTail(d));
    PushEffect(s1, PushLoadHead);
    PushEffect(s2, PushReloadTail);
    PushEffect(s3, PushStoreByte);
    PushEffect(s4, PushStoreTail);
    RunOne(s, PushLoadTail(d), [PushLoadHead] + ([PushReloadTail] + ([PushStoreByte] + ([PushStoreTail] + []))));
    RunOne(s1, PushLoadHead, [PushReloadTail] + ([PushStoreByte] + ([PushStoreTail] + [])));
    RunOne(s2, PushReloadTail, [PushStoreByte] + ([PushStoreTail] + []));
    RunOne(s3, PushStoreByte, [PushStoreTail] + []);
    RunOne(s4, PushStoreTail, []);
    RunNone(s5);
  }

  lemma RunNone(s: State)
    requires Inv(s)
    ensures Run(s, []) == s
  {}

  /** What each step of a pop does to the consumer, up to its decision. */
  lemma PopTestEffect(s: State, e: Event)
    requires Inv(s)
    ensures |s.popped| <= |s.pushed|
    ensures var r := Next(s, e);
            && (e.PopEnter? && s.c.CIdle? ==> SameBytes(s, r) && r.c.CCompare?)
            && (e.PopLoadTail? && s.c.CCompare? ==>
                  SameBytes(s, r) && r.c.CCompare? && r.c.tail.Some? && r.c.head == s.c.head && r.seenPushed == |s.pushed|)
            && (e.PopLoadHead? && s.c.CCompare? ==>
                  SameBytes(s, r) && r.c.CCompare? && r.c.head.Some? && r.c.tail == s.c.tail && r.seenPushed == s.seenPushed)
  {
  }

  lemma PopDecided(s: State)
    requires Inv(s) && s.c.CCompare? && s.c.tail.Some? && s.c.head.Some?
    ensures var r := Next(s, PopDecide);
            SameBytes(s, r) && if s.seenPushed == |s.popped| then r.c.CIdle? else r.c.CSlot?
  {
    PopRefusedExactlyWhenEmpty(s);
  }

  /** What each step does after that. */
  lemma PopTakeEffect(s: State, e: Event)
    requires Inv(s)
    ensures var r := Next(s, e);
            && (e.PopReloadHead? && s.c.CSlot? ==> SameBytes(s, r) && r.c.CRead?)
            && (e.PopLoadByte? && s.c.CRead? ==>
                  SameBytes(s, r) && r.c.CGot? && |s.popped| < |s.pushed| && r.c.data == s.pushed[|s.popped|])
            && (e.PopAdvance? && s.c.CGot? ==> SameBytes(s, r) && r.c.CNext? && r.c.data == s.c.data)
            && (e.PopStoreHead? && s.c.CNext? ==> r.c.CIdle? && r.popped == s.popped + [s.c.data] && r.pushed == s.pushed)
            && (s.c.CIdle? && (e.PopReloadHead? || e.PopLoadByte? || e.PopAdvance? || e.PopStoreHead?) ==> r == s)
  {
  }

  /** A whole pop, undisturbed: the oldest unread byte is returned if there is one, else nothing
      changes. */
  lemma WholePop(s: State)
    requires Inv(s) && s.c.CIdle?
    ensures var r := Run(s, [PopEnter] + ([PopLoadTail] + ([PopLoadHead] + ([PopDecide] +
                       ([PopReloadHead] + ([PopLoadByte] + ([PopAdvance] + ([PopStoreHead] + []))))))));
            && r.c.CIdle? && r.pushed == s.pushed && |s.popped| <= |s.pushed|
            && r.popped == s.popped + if |s.popped| < |s.pushed| then [s.pushed[|s.popped|]] else []
  {
    hide Run, Inv, Next;
    var s1 := Next(s, PopEnter);
    var s2 := Next(s1, PopLoadTail);
    var s3 := Next(s2, PopLoadHead);
    var s4 := Next(s3, PopDecide);
    PopTestEffect(s, PopEnter);
    PopTestEffect(s1, PopLoadTail);
    PopTestEffect(s2, PopLoadHead);
    PopDecided(s3);
    var rest := [PopReloadHead] + ([PopLoadByte] + ([PopAdvance] + ([PopStoreHead] + [])));
    RunOne(s, PopEnter, [PopLoadTail] + ([PopLoadHead] + ([PopDecide] + rest)));
    RunOne(s1, PopLoadTail, [PopLoadHead] + ([PopDecide] + rest));
    RunOne(s2, PopLoadHead, [PopDecide] + rest);
    RunOne(s3, PopDecide, rest);
    PopTail(s4);
  }

  lemma PopTail(s: State)
    requires Inv(s) && (s.c.CIdle? || s.c.CSlot?)
    ensures var r := Run(s, [PopReloadHead] + ([PopLoadByte] + ([PopAdvance] + ([PopStoreHead] + []))));
            && r.c.CIdle? && r.pushed == s.pushed && (s.c.CSlot? ==> |s.popped| < |s.pushed|)
            && r.popped == s.popped + if s.c.CSlot? then [s.pushed[|s.popped|]] else []
  {
    hide Run, Inv, Next;
    var s1 := Next(s, PopReloadHead);
    var s2 := Next(s1, PopLoadByte);
    var s3 := Next(s2, PopAdvance);
    var s4 := Next(s3, PopStoreHead);
    PopTakeEffect(s, PopReloadHead);
    PopTakeEffect(s1, PopLoadByte);
    PopTakeEffect(s2, PopAdvance);
    PopTakeEffect(s3, PopStoreHead);
    RunOne(s, PopReloadHead, [PopLoadByte] + ([PopAdvance] + ([PopStoreHead] + [])));
    RunOne(s1, PopLoadByte, [PopAdvance] + ([PopStoreHead] + []));
    RunOne(s2, PopAdvance, [PopStoreHead] + []);
    RunOne(s3, PopStoreHead, []);
    RunNone(s4);
  }

  /** What the loads of the two tests see. */
  lemma TestEffect(s: State, e: Event)
    requires Inv(s)
    ensures var r := Next(s, e);
            && (e.AskSpace? && s.p.PIdle? ==> SameBytes(s, r) && r.p == PSpace(e.n, None, None))
            && (e.SpaceLoadTail? && s.p.PSpace? ==> SameBytes(s, r) && r.p.PSpace? && r.p.want == s.p.want && r.p.tail.Some?)
            && (e.SpaceLoadHead? && s.p.PSpace? ==>
                  SameBytes(s, r) && r.p.PSpace? && r.p.want == s.p.want && r.p.head.Some? && r.p.tail == s.p.tail && r.seenPopped == |s.popped|)
            && (e.AskData? && s.c.CIdle? ==> SameBytes(s, r) && r.c == CData(e.n, None, None))
            && (e.DataLoadTail? && s.c.CData? ==> SameBytes(s, r) && r.c.CData? && r.c.want == s.c.want && r.c.tail.Some? && r.seenPushed == |s.pushed|)
            && (e.DataLoadHead? && s.c.CData? ==>
                  SameBytes(s, r) && r.c.CData? && r.c.want == s.c.want && r.c.head.Some? && r.c.tail == s.c.tail && r.seenPushed == s.seenPushed)
  {
  }

  /** The space test, undisturbed, tells exactly the room there is. */
  lemma WholeSpaceTest(s: State, n: nat)
    requires Inv(s) && s.p.PIdle?
    ensures Run(s, [AskSpace(n)] + ([SpaceLoadTail] + ([SpaceLoadHead] + ([SpaceDecide] + [])))).p
         == PIdle(if |s.pushed| - |s.popped| + n <= s.size - 1 then n else 0)
  {
    hide Run, Inv, Next;
    var s1 := Next(s, AskSpace(n));
    var s2 := Next(s1, SpaceLoadTail);
    var s3 := Next(s2, SpaceLoadHead);
    TestEffect(s, AskSpace(n));
    TestEffect(s1, SpaceLoadTail);
    TestEffect(s2, SpaceLoadHead);
    RunOne(s, AskSpace(n), [SpaceLoadTail] + ([SpaceLoadHead] + ([SpaceDecide] + [])));
    RunOne(s1, SpaceLoadTail, [SpaceLoadHead] + ([SpaceDecide] + []));
    RunOne(s2, SpaceLoadHead, [SpaceDecide] + []);
    RunOne(s3, SpaceDecide, []);
    RunNone(Next(s3, SpaceDecide));
    SpaceDecided(s3);
  }

  lemma SpaceDecided(s: State)
    requires Inv(s) && s.p.PSpace? && s.p.tail.Some? && s.p.head.Some?
    ensures Next(s, SpaceDecide).p == PIdle(if |s.pushed| - s.seenPopped + s.p.want <= s.size - 1 then s.p.want else 0)
  {
    SpaceTestIsExact(s);
  }

  /** The data test, undisturbed, tells exactly the bytes there are. */
  lemma WholeDataTest(s: State, n: nat)
    requires Inv(s) && s.c.CIdle?
    ensures Run(s, [AskData(n)] + ([DataLoadTail] + ([DataLoadHead] + ([DataDecide] + [])))).c
         == CIdle(if |s.pushed| - |s.popped| >= n then n else 0)
  {
    hide Run, Inv, Next;
    var s1 := Next(s, AskData(n));
    var s2 := Next(s1, DataLoadTail);
    var s3 := Next(s2, DataLoadHead);
    TestEffect(s, AskData(n));
    TestEffect(s1, DataLoadTail);
    TestEffect(s2, DataLoadHead);
    RunOne(s, AskData(n), [DataLoadTail] + ([DataLoadHead] + ([DataDecide] + [])));
    RunOne(s1, DataLoadTail, [DataLoadHead] + ([DataDecide] + []));
    RunOne(s2, DataLoadHead, [DataDecide] + []);
    RunOne(s3, DataDecide, []);
    RunNone(Next(s3, DataDecide));
    DataDecided(s3);
  }

  lemma DataDecided(s: State)
    requires Inv(s) && s.c.CData? && s.c.tail.Some? && s.c.head.Some?
    ensures Next(s, DataDecide).c == CIdle(if s.seenPushed - |s.popped| >= s.c.want then s.c.want else 0)
  {
    DataTestIsExact(s);
  }
}
