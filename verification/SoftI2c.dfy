/** The bit-banged I2C master of extmod/machine_i2c.c as a trace of the levels it drives, read
    back by an independent observer of START, STOP and data bits (sections 3.1.3 to 3.1.6 of NXP
    UM10204). Delays have no effect on the order of edges and are left out. */
module SoftI2c {
  import opened Common
  import opened Octets

  /** What the bus answers at one release of SCL: whether the stretch timeout expires, and the
      level the slave leaves on SDA. */
  datatype Sample = Sample(timeout: bool, sda: bool)

  /** The levels the master drives; true is released, so pulled up. */
  datatype Level = Level(scl: bool, sda: bool)

  // ---------- the observer ----------

  datatype Seen = Start | Stop | Bit(b: bool)

  /** Current levels, whether SDA has been stable for the present high period of SCL, and what
      has been recognised so far. */
  datatype Observer = Observer(level: Level, stable: bool, seen: seq<Seen>)

  /** SDA falling or rising while SCL is high is START or STOP; a whole high period of SCL with
      SDA stable is one bit, complete when SCL falls. */
  function Watch(o: Observer, l: Level): Observer {
    var p := o.level;
    if p.scl && l.scl && p.sda && !l.sda then Observer(l, false, o.seen + [Start])
    else if p.scl && l.scl && !p.sda && l.sda then Observer(l, false, o.seen + [Stop])
    else if !p.scl && l.scl then Observer(l, true, o.seen)
    else if p.scl && !l.scl then Observer(l, false, if o.stable then o.seen + [Bit(p.sda)] else o.seen)
    else Observer(l, o.stable, o.seen)
  }

  /** The observer after a whole trace, starting on a free bus. */
  function Observe(trace: seq<Level>): Observer {
    if trace == [] then Observer(Level(true, true), false, [])
    else Watch(Observe(trace[..|trace| - 1]), trace[|trace| - 1])
  }

  lemma ObserveNext(trace: seq<Level>, l: Level)
    ensures Observe(trace + [l]) == Watch(Observe(trace), l)
  {
    assert (trace + [l])[..|trace|] == trace;
  }

  // ---------- bytes ----------

  /** (v >> i) & 1 */
  function BitAt(v: Octet, i: nat): bool { v / Pow2(i) % 2 == 1 }

  /** The first n bits of a byte, most significant first. */
  function TopBits(v: Octet, n: nat): seq<Seen>
    requires n <= 8
  {
    if n == 0 then [] else TopBits(v, n - 1) + [Bit(BitAt(v, 8 - n))]
  }

  /** The number that a slave assembles from bits as they come. */
  function Assemble(bits: seq<Seen>): nat {
    if bits == [] then 0
    else 2 * Assemble(bits[..|bits| - 1]) + if bits[|bits| - 1] == Bit(true) then 1 else 0
  }

  lemma {:induction false} AssembleTop(v: Octet, n: nat)
    requires n <= 8
    ensures Assemble(TopBits(v, n)) == v / Pow2(8 - n)
    decreases n
  {
    hide Pow2;
    ByteWidth();
    if n == 0 {
    } else {
      PowNext(8 - n);
      AssembleTop(v, n - 1);
      assert TopBits(v, n)[..n - 1] == TopBits(v, n - 1) by { TopLength(v, n - 1); }
      TopLength(v, n);
      HalfStep(v, Pow2(8 - n));
    }
  }

  lemma PowNext(n: nat)
    ensures Pow2(n + 1) == 2 * Pow2(n)
  {}

  lemma {:induction false} TopLength(v: Octet, n: nat)
    requires n <= 8
    ensures |TopBits(v, n)| == n
    decreases n
  {
    if n == 0 {
    } else {
      TopLength(v, n - 1);
    }
  }

  lemma HalfStep(v: nat, p: nat)
    requires p > 0
    ensures v / p == 2 * (v / (2 * p)) + v / p % 2
  {
    var q, r := v / (2 * p), v % (2 * p);
    assert v == 2 * p * q + r;
    if r < p {
      DivModUnique(v, p, 2 * q, r);
    } else {
      assert v == p * (2 * q + 1) + (r - p);
      DivModUnique(v, p, 2 * q + 1, r - p);
    }
  }

  /** A slave that samples SDA while SCL is high reads the byte that was sent. */
  lemma SlaveReadsByte(v: Octet)
    ensures Assemble(TopBits(v, 8)) == v
  {
    AssembleTop(v, 8);
  }

  /** A byte on the bus: eight bits and the acknowledge slot. */
  function OnBus(v: Octet, ack: bool): seq<Seen> { TopBits(v, 8) + [Bit(ack)] }

  function OnBusAll(bytes: seq<Octet>): seq<Seen> {
    if bytes == [] then [] else OnBusAll(bytes[..|bytes| - 1]) + OnBus(bytes[|bytes| - 1], true)
  }

  /** The byte that the master reads in the eight releases from t on. */
  function ReadBits(env: nat -> Sample, t: nat, n: nat): nat {
    if n == 0 then 0 else 2 * ReadBits(env, t, n - 1) + if env(t + n - 1).sda then 1 else 0
  }

  /** The levels the slave leaves on SDA at n releases from t on, as an observer would record them. */
  function SlaveBits(env: nat -> Sample, t: nat, n: nat): seq<Seen> { seq(n, i requires 0 <= i < n => Bit(env(t + i).sda)) }

  /** The master assembles what the slave sends exactly as an observer assembles what it sends. */
  lemma {:induction false} MasterReadsByte(env: nat -> Sample, t: nat, n: nat)
    ensures ReadBits(env, t, n) == Assemble(SlaveBits(env, t, n))
    decreases n
  {
    if n == 0 {
    } else {
      MasterReadsByte(env, t, n - 1);
      assert SlaveBits(env, t, n)[..n - 1] == SlaveBits(env, t, n - 1);
    }
  }

  /** The first bit on the bus is the most significant one. */
  lemma {:induction false} FirstBitIsHighest(b: bool, bits: seq<Seen>)
    ensures Assemble([Bit(b)] + bits) == (if b then Pow2(|bits|) else 0) + Assemble(bits)
    decreases |bits|
  {
    if bits == [] {
      assert [Bit(b)] + bits == [Bit(b)] && [Bit(b)][..0] == [];
    } else {
      var front := bits[..|bits| - 1];
      FirstBitIsHighest(b, front);
      assert ([Bit(b)] + bits)[..|bits|] == [Bit(b)] + front;
    }
  }

  lemma {:induction false} ReadBitsSmall(env: nat -> Sample, t: nat, n: nat)
    ensures ReadBits(env, t, n) < Pow2(n)
    decreases n
  {
    if n == 0 {
    } else {
      ReadBitsSmall(env, t, n - 1);
    }
  }

  // ---------- whole transfers ----------

  function Concat(bufs: seq<seq<Octet>>): seq<Octet> {
    if bufs == [] then [] else Concat(bufs[..|bufs| - 1]) + bufs[|bufs| - 1]
  }

  function Lengths(bufs: seq<seq<Octet>>): seq<nat> { seq(|bufs|, i requires 0 <= i < |bufs| => |bufs[i]|) }

  /** The acknowledge levels of one read buffer: all low, but high for the last byte of the last. */
  function Flags(len: nat, last: bool): (f: seq<bool>)
    ensures |f| == len && forall j :: 0 <= j < len ==> f[j] == (last && j == len - 1)
  {
    seq(len, j requires 0 <= j < len => last && j == len - 1)
  }

  function Nacks(lens: seq<nat>): seq<bool> {
    if lens == [] then [] else Flags(lens[0], |lens| == 1) + Nacks(lens[1..])
  }

  /** Read bytes as driven by the master: SDA released for eight bits, then its acknowledge. */
  function OnBusReads(nacks: seq<bool>): seq<Seen> {
    if nacks == [] then [] else OnBusReads(nacks[..|nacks| - 1]) + OnBus(255, nacks[|nacks| - 1])
  }

  /** SDA was low at the ninth clock of each of the first n bytes. */
  ghost predicate Acked(env: nat -> Sample, t: nat, n: nat) {
    forall j: nat :: j < n ==> !env(t + 9 * j + 8).sda
  }

  lemma AckedOneMore(env: nat -> Sample, t: nat, n: nat)
    requires Acked(env, t, n) && !env(t + 9 * n + 8).sda
    ensures Acked(env, t, n + 1)
  {
  }

  /** Everything up to the first byte that was not acknowledged went out, nothing after it did,
      and the acknowledged ones were counted. */
  ghost predicate WriteAnswer(env: nat -> Sample, t: nat, bufs: seq<seq<Octet>>, sent: seq<Octet>, acks: nat) {
    && sent <= Concat(bufs) && (acks == |sent| || acks + 1 == |sent|)
    && Acked(env, t, acks)
    && (acks == |sent| ==> sent == Concat(bufs))
    && (acks < |sent| ==> env(t + 9 * acks + 8).sda)
  }

  function Sum(lens: seq<nat>): nat { if lens == [] then 0 else lens[0] + Sum(lens[1..]) }

  /** A byte on the bus is its eight bits, most significant first, and the acknowledge bit. */
  lemma OnBusIs(v: Octet, ack: bool)
    ensures |OnBus(v, ack)| == 9 && Assemble(OnBus(v, ack)[..8]) == v && OnBus(v, ack)[8] == Bit(ack)
  {
    hide TopBits;
    TopLength(v, 8);
    SlaveReadsByte(v);
    assert OnBus(v, ack)[..8] == TopBits(v, 8);
  }

  /** Bytes written follow each other, with SDA released for the slave's answer. */
  lemma {:induction false} WritesInOrder(bytes: seq<Octet>, j: nat)
    ensures |OnBusAll(bytes)| == 9 * |bytes|
    ensures j < |bytes| ==> OnBusAll(bytes)[9 * j..9 * j + 9] == OnBus(bytes[j], true)
    decreases |bytes|
  {
    hide OnBus;
    if bytes == [] {
    } else {
      var n := |bytes| - 1;
      WritesInOrder(bytes[..n], j);
      OnBusIs(bytes[n], true);
      NinthBit(OnBusAll(bytes[..n]), OnBus(bytes[n], true), n, j);
    }
  }

  /** Bytes read follow each other, with SDA released for the slave's bits and the master's answer. */
  lemma {:induction false} ReadsInOrder(nacks: seq<bool>, j: nat)
    ensures |OnBusReads(nacks)| == 9 * |nacks|
    ensures j < |nacks| ==> OnBusReads(nacks)[9 * j..9 * j + 9] == OnBus(255, nacks[j])
    decreases |nacks|
  {
    hide OnBus;
    if nacks == [] {
    } else {
      var n := |nacks| - 1;
      ReadsInOrder(nacks[..n], j);
      OnBusIs(255, nacks[n]);
      NinthBit(OnBusReads(nacks[..n]), OnBus(255, nacks[n]), n, j);
    }
  }

  lemma NinthBit(a: seq<Seen>, b: seq<Seen>, n: nat, j: nat)
    requires |a| == 9 * n && |b| == 9
    ensures j < n ==> (a + b)[9 * j..9 * j + 9] == a[9 * j..9 * j + 9]
    ensures j == n ==> (a + b)[9 * j..9 * j + 9] == b
  {}

  /** The buffers of a write follow each other, and a read fills as many bytes as they hold. */
  lemma {:induction false} BuffersInOrder(first: seq<Octet>, bufs: seq<seq<Octet>>)
    ensures Concat([first] + bufs) == first + Concat(bufs)
    ensures |Concat(bufs)| == Sum(Lengths(bufs))
    decreases |bufs|
  {
    if bufs == [] {
      assert [first] + bufs == [first] && [first][..0] == [];
    } else {
      var n := |bufs| - 1;
      BuffersInOrder(first, bufs[..n]);
      assert ([first] + bufs)[..n + 1] == [first] + bufs[..n];
      assert Lengths(bufs) == Lengths(bufs[..n]) + [|bufs[n]|];
      SumAppend(Lengths(bufs[..n]), |bufs[n]|);
    }
  }

  lemma {:induction false} SumAppend(lens: seq<nat>, n: nat)
    ensures Sum(lens + [n]) == Sum(lens) + n
    decreases |lens|
  {
    if lens == [] {
      assert lens + [n] == [n] && [n][1..] == [];
    } else {
      assert (lens + [n])[1..] == lens[1..] + [n];
      SumAppend(lens[1..], n);
    }
  }

  /** A read NACKs no byte but its final one, and that one exactly when the last buffer is not
      empty. */
  lemma {:induction false} NacksOnlyTheFinalByte(lens: seq<nat>)
    ensures |Nacks(lens)| == Sum(lens)
    ensures forall j :: 0 <= j < Sum(lens) ==> (Nacks(lens)[j] <==> j == Sum(lens) - 1 && lens[|lens| - 1] > 0)
    decreases |lens|
  {
    if lens == [] {
    } else {
      NacksOnlyTheFinalByte(lens[1..]);
      var f, rest := Flags(lens[0], |lens| == 1), Nacks(lens[1..]);
      if |lens| > 1 {
        SumPositive(lens[1..]);
        assert lens[1..][|lens| - 2] == lens[|lens| - 1];
      }
      forall j | 0 <= j < Sum(lens) ensures Nacks(lens)[j] <==> j == Sum(lens) - 1 && lens[|lens| - 1] > 0 {
        if j < lens[0] { assert (f + rest)[j] == f[j]; } else { assert (f + rest)[j] == rest[j - lens[0]]; }
      }
    }
  }

  lemma {:induction false} SumPositive(lens: seq<nat>)
    requires lens != []
    ensures lens[|lens| - 1] <= Sum(lens)
    decreases |lens|
  {
    if |lens| > 1 { SumPositive(lens[1..]); }
  }

  lemma ConcatNext(bufs: seq<seq<Octet>>, i: nat)
    requires i < |bufs|
    ensures Concat(bufs[..i + 1]) == Concat(bufs[..i]) + bufs[i]
  {
    assert bufs[..i + 1][..i] == bufs[..i];
  }

  lemma {:induction false} PrefixOfAll(bufs: seq<seq<Octet>>, i: nat, p: nat)
    requires i < |bufs| && p <= |bufs[i]|
    ensures Concat(bufs[..i]) + bufs[i][..p] <= Concat(bufs)
    decreases |bufs| - i
  {
    ConcatNext(bufs, i);
    if i + 1 < |bufs| {
      PrefixOfAll(bufs, i + 1, 0);
      assert Concat(bufs[..i + 1]) + bufs[i + 1][..0] == Concat(bufs[..i + 1]);
    } else {
      assert bufs[..i + 1] == bufs;
    }
  }

  lemma OneMoreSent(seen: seq<Seen>, sent: seq<Octet>, v: Octet)
    ensures (seen + OnBusAll(sent)) + OnBus(v, true) == seen + OnBusAll(sent + [v])
  {
    assert (sent + [v])[..|sent|] == sent;
  }

  lemma OnBusNone()
    ensures OnBusAll([]) == []
  {}

  lemma OneMoreRead(seen: seq<Seen>, nacks: seq<bool>, nack: bool)
    ensures (seen + OnBusReads(nacks)) + OnBus(255, nack) == seen + OnBusReads(nacks + [nack])
  {
    assert (nacks + [nack])[..|nacks|] == nacks;
  }

  lemma NoReads()
    ensures OnBusReads([]) == []
  {}

  lemma NacksNext(lens: seq<nat>, i: nat, start: seq<bool>)
    requires i < |lens|
    ensures start + Nacks(lens[i..]) == (start + Flags(lens[i], i + 1 == |lens|)) + Nacks(lens[i + 1..])
  {
    assert lens[i..][1..] == lens[i + 1..];
  }

  datatype Reply = Count(n: nat) | ENODEV | ETIMEDOUT

  // ---------- the pins ----------

  datatype Outcome = Done | Nack | TimedOut

  class Master {
    const env: nat -> Sample
    var level: Level
    var releases: nat                // how often SCL has been released so far
    var trace: seq<Level>

    ghost predicate Valid()
      reads this
    {
      Observe(trace).level == level
    }

    ghost function Bus(): Observer
      reads this
    {
      Observe(trace)
    }

    constructor (e: nat -> Sample)
      ensures Valid() && env == e && releases == 0 && trace == [] && level == Level(true, true)
    {
      env, level, releases, trace := e, Level(true, true), 0, [];
    }

    method Drive(l: Level)
      requires Valid()
      modifies this`level, this`trace
      ensures Valid() && level == l && Bus() == Watch(old(Bus()), l)
    {
      ObserveNext(trace, l);
      trace := trace + [l];
      level := l;
    }

    method SclLow()
      requires Valid()
      modifies this`level, this`trace
      ensures Valid() && level == old(level).(scl := false) && Bus() == Watch(old(Bus()), level)
    {
      Drive(level.(scl := false));
    }

    method SdaSet(high: bool)
      requires Valid()
      modifies this`level, this`trace
      ensures Valid() && level == old(level).(sda := high) && Bus() == Watch(old(Bus()), level)
    {
      Drive(level.(sda := high));
    }

    /** mp_hal_i2c_scl_release: false when the slave stretches the clock for too long. */
    method SclRelease() returns (ok: bool)
      requires Valid()
      modifies this
      ensures Valid() && level == old(level).(scl := true) && Bus() == Watch(old(Bus()), level)
      ensures releases == old(releases) + 1 && ok == !env(old(releases)).timeout
    {
      Drive(level.(scl := true));
      ok := !env(releases).timeout;
      releases := releases + 1;
    }

    /** SDA as read: low if either side pulls it low. */
    function SdaRead(): bool
      requires releases > 0
      reads this
    {
      level.sda && env(releases - 1).sda
    }

    /** Some release in this range timed out. */
    ghost predicate Stretched(from: nat, to: nat) { exists t: nat :: from <= t < to && env(t).timeout }

    method SendStart() returns (ok: bool)
      requires Valid() && (level.scl ==> level.sda)
      modifies this
      ensures Valid() && releases == old(releases) + 1
      ensures ok == !env(old(releases)).timeout
      ensures ok ==> Bus() == Observer(Level(true, false), false, old(Bus()).seen + [Start])
      ensures !ok ==> level.sda
    {
      SdaSet(true);
      ok := SclRelease();
      if ok {
        SdaSet(false);
      }
    }

    method SendStop() returns (ok: bool)
      requires Valid() && !level.scl
      modifies this
      ensures Valid() && releases == old(releases) + 1
      ensures ok == !env(old(releases)).timeout
      ensures Bus() == Observer(Level(true, true), false, old(Bus()).seen + [Stop])
    {
      SdaSet(false);
      ok := SclRelease();
      SdaSet(true);
    }

    /** Ready to clock out bits: after START, or after the previous byte. */
    ghost predicate MidTransfer()
      reads this
    {
      Valid() && !Bus().stable
    }

    /** One clock pulse with SDA as it stands: the observer sees one bit. */
    method Pulse() returns (ok: bool, sampled: bool)
      requires Valid() && !level.scl
      modifies this
      ensures Valid() && releases == old(releases) + 1 && ok == !env(old(releases)).timeout
      ensures ok ==> sampled == (old(level).sda && env(old(releases)).sda)
      ensures ok ==> Bus() == Observer(old(level), false, old(Bus()).seen + [Bit(old(level).sda)])
      ensures level.sda == old(level).sda
    {
      ok := SclRelease();
      sampled := SdaRead();
      if ok {
        SclLow();
      }
    }

    /** Eight bits, most significant first, SDA changing only while SCL is low. */
    method WriteBits(v: Octet) returns (ok: bool)
      requires Valid() && !level.scl && !Bus().stable
      modifies this
      ensures Valid() && old(releases) < releases <= old(releases) + 8
      ensures !ok <==> Stretched(old(releases), releases)
      ensures ok ==> releases == old(releases) + 8 && !level.scl && !Bus().stable
      ensures ok ==> Bus().seen == old(Bus()).seen + TopBits(v, 8)
    {
      hide Observe, BitAt;
      ghost var seen, t := Bus().seen, releases;
      ok := true;
      for j := 0 to 8
        invariant Valid() && releases == t + j && !level.scl
        invariant Bus().seen == seen + TopBits(v, j) && !Bus().stable
        invariant ok && forall i: nat :: t <= i < releases ==> !env(i).timeout
      {
        SdaSet(BitAt(v, 7 - j));
        var bit;
        ok, bit := Pulse();
        if !ok {
          assert env(releases - 1).timeout;
          return;
        }
        assert seen + (TopBits(v, j) + [Bit(BitAt(v, 7 - j))]) == (seen + TopBits(v, j)) + [Bit(BitAt(v, 7 - j))];
      }
    }

    method WriteByte(v: Octet) returns (r: Outcome)
      requires MidTransfer()
      modifies this
      ensures Valid() && old(releases) < releases <= old(releases) + 9
      ensures r == TimedOut <==> Stretched(old(releases), releases)
      ensures level.sda
      ensures r != TimedOut ==>
        && releases == old(releases) + 9
        && Bus() == Observer(Level(false, true), false, old(Bus()).seen + OnBus(v, true))
        && (r == Nack <==> env(old(releases) + 8).sda)
    {
      hide Observe, TopBits;
      ghost var seen, t := Bus().seen, releases;
      SclLow();
      var ok := WriteBits(v);
      SdaSet(true);
      if !ok {
        return TimedOut;
      }
      var ack;
      ok, ack := Pulse();
      if !ok {
        assert env(releases - 1).timeout;
        return TimedOut;
      }
      assert seen + OnBus(v, true) == (seen + TopBits(v, 8)) + [Bit(true)];
      return if ack then Nack else Done;
    }

    /** Eight bits from the slave while the master leaves SDA released. */
    method ReadBitsIn() returns (ok: bool, data: Octet)
      requires Valid() && level == Level(false, true) && !Bus().stable
      modifies this
      ensures Valid() && old(releases) < releases <= old(releases) + 8
      ensures !ok <==> Stretched(old(releases), releases)
      ensures level.sda
      ensures ok ==> releases == old(releases) + 8 && level == Level(false, true) && !Bus().stable
      ensures ok ==> Bus().seen == old(Bus()).seen + TopBits(255, 8) && data == ReadBits(env, old(releases), 8)
    {
      hide Observe, BitAt, Pow2, TopBits;
      ghost var seen, t := Bus().seen, releases;
      ok, data := true, 0;
      OneMoreBit(0);
      for j := 0 to 8
        invariant Valid() && releases == t + j && level == Level(false, true)
        invariant Bus().seen == seen + TopBits(255, j) && !Bus().stable
        invariant data == ReadBits(env, t, j)
        invariant ok && forall i: nat :: t <= i < releases ==> !env(i).timeout
      {
        var bit;
        ok, bit := Pulse();
        if !ok {
          assert env(releases - 1).timeout;
          return;
        }
        OneMoreBit(j);
        Ones(j);
        ReadBitsSmall(env, t, j + 1);
        data := 2 * data + if bit then 1 else 0;
        assert seen + (TopBits(255, j) + [Bit(true)]) == (seen + TopBits(255, j)) + [Bit(true)];
      }
    }

    method ReadByte(nack: bool) returns (r: Outcome, data: Octet)
      requires MidTransfer() && level.sda
      modifies this
      ensures Valid() && old(releases) < releases <= old(releases) + 9 && r != Nack
      ensures r == TimedOut <==> Stretched(old(releases), releases)
      ensures level.sda
      ensures r == Done ==>
        && releases == old(releases) + 9
        && Bus() == Observer(Level(false, true), false, old(Bus()).seen + OnBus(255, nack))
        && data == ReadBits(env, old(releases), 8)
    {
      hide Observe, TopBits, ReadBits;
      ghost var seen := Bus().seen;
      SclLow();
      var ok;
      ok, data := ReadBitsIn();
      if !ok {
        return TimedOut, 0;
      }
      if !nack {
        SdaSet(false);
      }
      var bit;
      ok, bit := Pulse();
      SdaSet(true);
      if !ok {
        assert env(releases - 1).timeout;
        return TimedOut, 0;
      }
      assert seen + OnBus(255, nack) == (seen + TopBits(255, 8)) + [Bit(nack)];
      r := Done;
    }

    /** Sends the buffers until one byte is not acknowledged. `sent` is what went out. */
    method WriteBuffers(bufs: seq<seq<Octet>>) returns (timeout: bool, acks: nat, ghost sent: seq<Octet>)
      requires MidTransfer() && level == Level(false, true)
      modifies this
      ensures Valid() && level.sda && sent <= Concat(bufs)
      ensures timeout <==> Stretched(old(releases), releases)
      ensures !timeout ==> AfterBytes(old(releases), old(Bus()).seen + OnBusAll(sent), |sent|)
      ensures !timeout ==> WriteAnswer(env, old(releases), bufs, sent, acks)
    {
      hide Observe, TopBits, OnBus, OnBusAll;
      ghost var seen, t := Bus().seen, releases;
      assert Acked(env, t, 0);
      hide Acked;
      timeout, acks, sent := false, 0, [];
      OnBusNone();
      assert seen + [] == seen;
      var n := |bufs|;
      var i := 0;
      while n > 0
        invariant 0 <= n && 0 <= i <= |bufs| && (acks == |sent| || acks + 1 == |sent|)
        invariant AfterBytes(t, seen + OnBusAll(sent), |sent|) && NoTimeout(t, releases)
        invariant acks == |sent| ==> i + n == |bufs| && sent == Concat(bufs[..i])
        invariant acks < |sent| ==> n == 0 && sent <= Concat(bufs) && env(t + 9 * acks + 8).sda
        invariant Acked(env, t, acks)
        decreases n
      {
        n := n - 1;
        var p := 0;
        ConcatNext(bufs, i);
        while p < |bufs[i]|
          invariant 0 <= p <= |bufs[i]| && acks == |sent| && sent == Concat(bufs[..i]) + bufs[i][..p]
          invariant AfterBytes(t, seen + OnBusAll(sent), |sent|) && NoTimeout(t, releases)
          invariant Acked(env, t, acks)
        {
          ghost var before := sent;
          var r := WriteByte(bufs[i][p]);
          sent := sent + [bufs[i][p]];
          assert sent == Concat(bufs[..i]) + bufs[i][..p + 1];
          OneMoreSent(seen, before, bufs[i][p]);
          PrefixOfAll(bufs, i, p + 1);
          if r == TimedOut {
            SomeTimeout(t, t + 9 * |before|, releases);
            return true, acks, sent;
          }
          if r == Nack {
            n := 0;
            break;
          }
          AckedOneMore(env, t, acks);
          acks := acks + 1;
          p := p + 1;
        }
        i := i + 1;
      }
      assert bufs[..|bufs|] == bufs;
      NoneStretched(t, releases);
    }

    ghost predicate NoTimeout(from: nat, to: nat) { forall i: nat :: from <= i < to ==> !env(i).timeout }

    /** Between bytes, n bytes after release t, with this much seen on the bus. */
    ghost predicate AfterBytes(t: nat, seen: seq<Seen>, n: nat)
      reads this
    {
      Valid() && releases == t + 9 * n && Bus() == Observer(Level(false, true), false, seen)
    }

    lemma SomeTimeout(from: nat, mid: nat, to: nat)
      requires from <= mid && Stretched(mid, to)
      ensures Stretched(from, to)
    {}

    lemma NoneStretched(from: nat, to: nat)
      requires NoTimeout(from, to)
      ensures !Stretched(from, to)
    {}

    /** Fills buffers of these lengths, acknowledging every byte but the last of the last one. */
    method ReadBuffers(lens: seq<nat>) returns (timeout: bool, out: seq<Octet>)
      requires MidTransfer() && level == Level(false, true)
      modifies this
      ensures Valid() && level.sda
      ensures timeout <==> Stretched(old(releases), releases)
      ensures !timeout ==>
        && AfterBytes(old(releases), old(Bus()).seen + OnBusReads(Nacks(lens)), |Nacks(lens)|)
        && |out| == |Nacks(lens)|
        && forall j :: 0 <= j < |out| ==> out[j] == ReadBits(env, old(releases) + 9 * j, 8)
    {
      hide Observe, TopBits, OnBus, OnBusReads, ReadBits;
      ghost var seen, t := Bus().seen, releases;
      ghost var nacks := [];
      timeout, out := false, [];
      NoReads();
      assert seen + [] == seen;
      var n := |lens|;
      var i := 0;
      while n > 0
        invariant 0 <= n && i + n == |lens| && |nacks| == |out| && nacks + Nacks(lens[i..]) == Nacks(lens)
        invariant AfterBytes(t, seen + OnBusReads(nacks), |nacks|) && NoTimeout(t, releases)
        invariant forall j :: 0 <= j < |out| ==> out[j] == ReadBits(env, t + 9 * j, 8)
        decreases n
      {
        n := n - 1;
        var len := lens[i];
        ghost var start := nacks;
        while len > 0
          invariant 0 <= len <= lens[i] && |nacks| == |out|
          invariant nacks == start + Flags(lens[i], n == 0)[..lens[i] - len]
          invariant AfterBytes(t, seen + OnBusReads(nacks), |nacks|) && NoTimeout(t, releases)
          invariant forall j :: 0 <= j < |out| ==> out[j] == ReadBits(env, t + 9 * j, 8)
          decreases len
        {
          len := len - 1;
          var nack := n == 0 && len == 0;
          var r, v := ReadByte(nack);
          if r == TimedOut {
            SomeTimeout(t, t + 9 * |nacks|, releases);
            return true, out;
          }
          OneMoreRead(seen, nacks, nack);
          nacks := nacks + [nack];
          out := out + [v];
        }
        NacksNext(lens, i, start);
        assert nacks == start + Flags(lens[i], n == 0);
        i := i + 1;
      }
      assert Nacks(lens[i..]) == [] && nacks + [] == nacks;
      NoneStretched(t, releases);
    }

    /** mp_machine_soft_i2c_transfer */
    method Transfer(addr: nat, bufs: seq<seq<Octet>>, read: bool, stop: bool)
      returns (r: Reply, out: seq<Octet>, ghost sent: seq<Octet>)
      requires Valid() && (level.scl ==> level.sda)
      modifies this
      // SDA is released on every path, so a further transfer may follow
      ensures Valid() && level.sda
      ensures r == ETIMEDOUT ==> Stretched(old(releases), releases)
      ensures Stretched(old(releases), releases) ==> r == ETIMEDOUT || r == ENODEV
      ensures var first := (2 * addr + (if read then 1 else 0)) % 256;
              var head := old(Bus()).seen + [Start] + OnBus(first, true);
              var t := old(releases) + 1;
              && (r == ENODEV ==> env(t + 8).sda && Bus().seen == head + [Stop])
              && (r.Count? ==>
                  && !env(t + 8).sda
                  && (read ==> r.n == 0 && Bus().seen == head + OnBusReads(Nacks(Lengths(bufs))) + (if stop then [Stop] else [])
                               && |out| == |Nacks(Lengths(bufs))|
                               && forall j :: 0 <= j < |out| ==> out[j] == ReadBits(env, t + 9 + 9 * j, 8))
                  && (!read ==> Bus().seen == head + OnBusAll(sent) + (if stop then [Stop] else [])
                                && WriteAnswer(env, t + 9, bufs, sent, r.n)))
    {
      hide Observe, TopBits, OnBus, OnBusAll, OnBusReads, ReadBits, WriteAnswer, Nacks, Concat;
      out, sent := [], [];
      ghost var t0 := releases;
      var ok := SendStart();
      if !ok {
        assert env(t0).timeout;
        return ETIMEDOUT, out, sent;
      }
      ghost var head0 := Bus().seen;
      var a := WriteByte((2 * addr + (if read then 1 else 0)) % 256);
      if a == TimedOut {
        SomeTimeout(t0, t0 + 1, releases);
        return ETIMEDOUT, out, sent;
      }
      if a == Nack {
        var _ := SendStop();
        return ENODEV, out, sent;
      }
      ghost var head := Bus().seen;
      ghost var t := releases;
      var timeout, acks := false, 0;
      if read {
        timeout, out := ReadBuffers(Lengths(bufs));
      } else {
        timeout, acks, sent := WriteBuffers(bufs);
      }
      if timeout {
        SomeTimeout(t0, t, releases);
        return ETIMEDOUT, out, sent;
      }
      ghost var body := Bus().seen;
      assert body + [] == body;
      if stop {
        ok := SendStop();
        if !ok {
          assert env(releases - 1).timeout;
          return ETIMEDOUT, out, sent;
        }
      }
      r := Count(acks);
    }
  }

  /** A released line shows ones. */
  lemma Ones(j: nat)
    requires j < 8
    ensures BitAt(255, 7 - j) && TopBits(255, j + 1) == TopBits(255, j) + [Bit(true)]
  {
    assert Pow2(3) == 8 && Pow2(4) == 16 && Pow2(5) == 32 && Pow2(6) == 64 && Pow2(7) == 128;
    assert Pow2(0) == 1 && Pow2(1) == 2 && Pow2(2) == 4;
  }

  lemma OneMoreBit(j: nat)
    requires j < 8
    ensures Pow2(0) == 1 && TopBits(255, 0) == [] && Pow2(j + 1) == 2 * Pow2(j) && Pow2(j + 1) <= 256
  {
    assert Pow2(3) == 8 && Pow2(4) == 16 && Pow2(5) == 32 && Pow2(6) == 64 && Pow2(7) == 128 && Pow2(8) == 256;
  }
}
