/** The ring of extmod/machine_i2s.c as an object, and the two non-blocking copies that the
    I2S interrupt runs between it and the application's buffer. */
module I2sCopy {
  import opened Common

  const FRAME_SIZE := 8

  /** Position k of a lap of n, for a position at most one lap ahead. */
  function Wrap(k: nat, n: nat): nat { if k < n then k else k - n }

  lemma ModIsWrap(k: nat, n: nat)
    requires 0 < n && k < 2 * n
    ensures k % n == Wrap(k, n)
  {
    DivModUnique(k, n, if k < n then 0 else 1, Wrap(k, n));
  }

  /** The unread bytes: `count` of them from `head`, wrapping at the end of the buffer. */
  function Unread(b: seq<Byte>, head: nat, count: nat): (r: seq<Byte>)
    requires head < |b| && count <= |b|
    ensures |r| == count
    ensures forall i :: 0 <= i < count ==> r[i] == b[Wrap(head + i, |b|)]
  {
    seq(count, i requires 0 <= i < count => b[Wrap(head + i, |b|)])
  }

  /** A frame map sends each byte of an 8-byte frame to a place in the application sample or
      drops it (-1), and fills every place of the sample exactly once. `source` is its inverse. */
  ghost predicate FrameMap(map8: seq<int>, source: seq<nat>, sample: nat) {
    && |map8| == FRAME_SIZE && 0 < sample <= FRAME_SIZE && |source| == sample
    && FRAME_SIZE % sample == 0
    && (forall i :: 0 <= i < FRAME_SIZE && map8[i] != -1 ==>
          0 <= map8[i] < sample && source[map8[i]] == i)
    && (forall p :: 0 <= p < sample ==> source[p] < FRAME_SIZE && map8[source[p]] == p)
    && Kept(map8, FRAME_SIZE) == sample
  }

  lemma MapSource(map8: seq<int>, source: seq<nat>, sample: nat)
    requires FrameMap(map8, source, sample)
    ensures |source| == sample && forall p :: 0 <= p < |source| ==> source[p] < FRAME_SIZE
  {}

  /** How many of the first n frame bytes are kept. */
  function Kept(map8: seq<int>, n: nat): nat
    requires n <= |map8|
  {
    if n == 0 then 0 else Kept(map8, n - 1) + if map8[n - 1] != -1 then 1 else 0
  }

  /** The sample that a frame yields. */
  function Sample(frame: seq<Byte>, source: seq<nat>): seq<Byte>
    requires forall p :: 0 <= p < |source| ==> source[p] < |frame|
  {
    seq(|source|, p requires 0 <= p < |source| => frame[source[p]])
  }

  /** Each byte of a frame that the map keeps goes to the place of the sample that the map gives. */
  lemma SampleIs(map8: seq<int>, source: seq<nat>, sample: nat, frame: seq<Byte>, i: nat)
    requires FrameMap(map8, source, sample) && |frame| == FRAME_SIZE && i < FRAME_SIZE && map8[i] != -1
    ensures |Sample(frame, source)| == sample && 0 <= map8[i] < sample && Sample(frame, source)[map8[i]] == frame[i]
    ensures Samples(frame, source) == Sample(frame, source)
  {
    assert frame[..FRAME_SIZE] == frame && frame[FRAME_SIZE..] == [];
    assert Sample(frame, source) + [] == Sample(frame, source);
  }

  lemma SampleSize(frame: seq<Byte>, source: seq<nat>)
    requires forall p :: 0 <= p < |source| ==> source[p] < |frame|
    ensures |Sample(frame, source)| == |source|
  {}

  /** The samples of consecutive frames, one after another. */
  function Samples(bytes: seq<Byte>, source: seq<nat>): seq<Byte>
    requires forall p :: 0 <= p < |source| ==> source[p] < FRAME_SIZE
  {
    if |bytes| < FRAME_SIZE then []
    else Sample(bytes[..FRAME_SIZE], source) + Samples(bytes[FRAME_SIZE..], source)
  }

  lemma {:induction false} SamplesAppend(bytes: seq<Byte>, frame: seq<Byte>, source: seq<nat>)
    requires forall p :: 0 <= p < |source| ==> source[p] < FRAME_SIZE
    requires |bytes| % FRAME_SIZE == 0 && |frame| == FRAME_SIZE
    ensures Samples(bytes + frame, source) == Samples(bytes, source) + Sample(frame, source)
    decreases |bytes|
  {
    if bytes == [] {
      assert bytes + frame == frame;
      assert frame[..FRAME_SIZE] == frame && frame[FRAME_SIZE..] == [];
    } else {
      assert (bytes + frame)[..FRAME_SIZE] == bytes[..FRAME_SIZE];
      assert (bytes + frame)[FRAME_SIZE..] == bytes[FRAME_SIZE..] + frame;
      SamplesAppend(bytes[FRAME_SIZE..], frame, source);
    }
  }

  lemma {:induction false} SamplesLength(bytes: seq<Byte>, source: seq<nat>)
    requires forall p :: 0 <= p < |source| ==> source[p] < FRAME_SIZE
    ensures |Samples(bytes, source)| == |bytes| / FRAME_SIZE * |source|
    decreases |bytes|
  {
    if |bytes| >= FRAME_SIZE {
      SamplesLength(bytes[FRAME_SIZE..], source);
      var q := |bytes| / FRAME_SIZE;
      assert |bytes[FRAME_SIZE..]| / FRAME_SIZE == q - 1;
      assert q * |source| == (q - 1) * |source| + |source|;
    }
  }

  class RingBuf {
    const buffer: array<Byte>
    var head: nat
    var tail: nat

    ghost predicate Valid()
      reads this
    {
      head < buffer.Length && tail < buffer.Length
    }

    function AvailableData(): (r: nat)
      requires Valid()
      reads this
      ensures r < buffer.Length && Wrap(head + r, buffer.Length) == tail
    {
      ModIsWrap(tail - head + buffer.Length, buffer.Length);
      (tail - head + buffer.Length) % buffer.Length
    }

    function AvailableSpace(): (r: nat)
      requires Valid()
      reads this
      ensures AvailableData() + r + 1 == buffer.Length
    {
      buffer.Length - AvailableData() - 1
    }

    ghost function Contents(): (r: seq<Byte>)
      requires Valid()
      reads this, buffer
      ensures |r| == AvailableData()
    {
      Unread(buffer[..], head, AvailableData())
    }

    constructor (b: array<Byte>)
      requires b.Length > 0
      ensures Valid() && buffer == b && Contents() == []
    {
      buffer := b;
      head, tail := 0, 0;
    }

    method Push(data: Byte) returns (ok: bool)
      requires Valid()
      modifies this`tail, buffer
      ensures Valid() && ok == (|old(Contents())| < buffer.Length - 1)
      ensures Contents() == old(Contents()) + if ok then [data] else []
    {
      ModIsWrap(tail + 1, buffer.Length);
      var nextTail := (tail + 1) % buffer.Length;
      if nextTail != head {
        ghost var was := Contents();
        buffer[tail] := data;
        tail := nextTail;
        assert AvailableData() == |was| + 1;
        assert forall i :: 0 <= i < |was| ==> Contents()[i] == was[i];
        assert Contents() == was + [data];
        return true;
      }
      return false;
    }

    method Pop() returns (r: Option<Byte>)
      requires Valid()
      modifies this`head
      ensures Valid()
      ensures old(Contents()) == [] <==> r == None
      ensures old(Contents()) == (if r.Some? then [r.value] else []) + Contents()
    {
      if head == tail {
        return None;
      }
      ghost var was := Contents();
      r := Some(buffer[head]);
      ModIsWrap(head + 1, buffer.Length);
      head := (head + 1) % buffer.Length;
      assert AvailableData() + 1 == |was|;
      assert forall i :: 0 <= i < AvailableData() ==> Contents()[i] == was[i + 1];
      assert was == [r.value] + Contents();
    }
  }

  class Port {
    const ring: RingBuf
    const appbuf: array<Byte>
    const chunk: nat               // bytes moved by one interrupt, a port constant
    var index: nat
    var copyInProgress: bool

    ghost predicate Valid()
      reads this, ring
    {
      ring.Valid() && appbuf != ring.buffer && index <= appbuf.Length
    }

    constructor (r: RingBuf, a: array<Byte>, c: nat)
      requires r.Valid() && a != r.buffer
      ensures Valid() && ring == r && appbuf == a && chunk == c && index == 0 && copyInProgress
    {
      ring, appbuf, chunk, index, copyInProgress := r, a, c, 0, true;
    }

    /** Moves one chunk, or the rest of the buffer, all or nothing: the ring gains exactly
        those bytes in order, and none of the unchecked pushes fails. */
    method CopyAppbufToRingbuf()
      requires Valid()
      modifies this`index, this`copyInProgress, ring`tail, ring.buffer
      ensures Valid()
      ensures var n := Min(chunk, appbuf.Length - old(index));
              var fits := old(|ring.Contents()|) + n <= ring.buffer.Length - 1;
              && index == old(index) + (if fits then n else 0)
              && ring.Contents() == old(ring.Contents()) + appbuf[old(index)..index]
              && copyInProgress == (old(copyInProgress) && !(fits && index == appbuf.Length))
    {
      hide RingBuf.Contents;
      var n: nat := Min(chunk, appbuf.Length - index);
      if ring.AvailableSpace() >= n {
        for i := 0 to n
          invariant Valid() && index == old(index) && copyInProgress == old(copyInProgress)
          invariant ring.Contents() == old(ring.Contents()) + appbuf[index..index + i]
        {
          var ok := ring.Push(appbuf[index + i]);
          assert ok;
          assert appbuf[index..index + i + 1] == appbuf[index..index + i] + [appbuf[index + i]];
        }
        index := index + n;
        if index >= appbuf.Length {
          copyInProgress := false;
        }
      }
    }

    /** Pops one frame and stores its sample at `at`; none of the eight unchecked pops fails. */
    method TakeFrame(map8: seq<int>, ghost source: seq<nat>, sample: nat, at: nat)
      returns (copied: nat)
      requires Valid() && FrameMap(map8, source, sample)
      requires at + sample <= appbuf.Length && |ring.Contents()| >= FRAME_SIZE
      modifies ring`head, appbuf
      ensures Valid() && copied == sample
      ensures ring.Contents() == old(ring.Contents())[FRAME_SIZE..]
      ensures appbuf[..] == old(appbuf[..at]) +
        Sample(old(ring.Contents())[..FRAME_SIZE], source) + old(appbuf[at + sample..])
    {
      hide RingBuf.Contents, RingBuf.AvailableData;
      ghost var was := ring.Contents();
      copied := 0;
      for i := 0 to FRAME_SIZE
        invariant Valid() && ring.Contents() == was[i..]
        invariant copied == Kept(map8, i)
        invariant forall k :: 0 <= k < at || at + sample <= k < appbuf.Length ==> appbuf[k] == old(appbuf[k])
        invariant forall p :: 0 <= p < sample && source[p] < i ==> appbuf[at + p] == was[source[p]]
      {
        var r := ring.Pop();
        assert r.value == was[i] && ring.Contents() == was[i + 1..];
        if map8[i] != -1 {
          appbuf[at + map8[i]] := r.value;
          copied := copied + 1;
        }
      }
    }

    /** Pops n bytes frame by frame and stores their samples from `index` on. */
    method MoveFrames(map8: seq<int>, ghost source: seq<nat>, sample: nat, n: nat)
      returns (copied: nat)
      requires Valid() && FrameMap(map8, source, sample)
      requires n % FRAME_SIZE == 0 && n <= |ring.Contents()|
      requires |Samples(ring.Contents()[..n], source)| <= appbuf.Length - index
      modifies ring`head, appbuf
      ensures Valid() && copied == |Samples(old(ring.Contents())[..n], source)|
      ensures ring.Contents() == old(ring.Contents())[n..]
      ensures appbuf[..] == old(appbuf[..index]) + Samples(old(ring.Contents())[..n], source)
                          + old(appbuf[..])[index + copied..]
    {
      hide Samples, Sample, RingBuf.Contents, RingBuf.AvailableData, FrameMap;
      MapSource(map8, source, sample);
      NoSamples(source);
      ghost var was, app := ring.Contents(), appbuf[..];
      var need, p := n, index;
      copied := 0;
      while need > 0
        invariant Valid() && 0 <= need <= n && need % FRAME_SIZE == 0
        invariant ring.Contents() == was[n - need..]
        invariant p == index + copied && copied == |Samples(was[..n - need], source)| <= |app| - index
        invariant appbuf[..] == app[..index] + Samples(was[..n - need], source) + app[p..]
      {
        ghost var done, before := n - need, appbuf[..];
        FrameCount(was, done, n, source);
        var k := TakeFrame(map8, source, sample, p);
        FrameStep(was, done, source, app, index, before, appbuf[..]);
        copied := copied + k;
        need := need - FRAME_SIZE;
        p := p + sample;
      }
    }

    /** Moves a whole number of frames, all or nothing: the ring loses exactly those bytes, the
        buffer gains exactly their samples at `index`, and no other application byte changes. */
    method FillAppbufFromRingbuf(map8: seq<int>, ghost source: seq<nat>, sample: nat)
      requires Valid() && FrameMap(map8, source, sample)
      requires chunk % FRAME_SIZE == 0 && (appbuf.Length - index) % sample == 0
      modifies this`index, this`copyInProgress, ring`head, appbuf
      ensures Valid()
      ensures var n := Min(chunk, (appbuf.Length - old(index)) * (FRAME_SIZE / sample));
              if old(|ring.Contents()|) < n then
                index == old(index) && appbuf[..] == old(appbuf[..]) &&
                ring.Contents() == old(ring.Contents()) && copyInProgress == old(copyInProgress)
              else
                var got := Samples(old(ring.Contents())[..n], source);
                && n % FRAME_SIZE == 0 && |got| == n / FRAME_SIZE * sample
                && index == old(index) + |got| <= appbuf.Length
                && appbuf[..] == old(appbuf[..index]) + got + old(appbuf[..])[index..]
                && ring.Contents() == old(ring.Contents())[n..]
                && copyInProgress == (old(copyInProgress) && index < appbuf.Length)
    {
      hide RingBuf.Contents, Samples;
      var need: nat := Min(chunk, (appbuf.Length - index) * (FRAME_SIZE / sample));
      FramesFit(appbuf.Length - index, sample, chunk);
      if ring.AvailableData() >= need {
        SamplesLength(ring.Contents()[..need], source);
        var copied := MoveFrames(map8, source, sample, need);
        index := index + copied;
        if index >= appbuf.Length {
          copyInProgress := false;
        }
      }
    }
  }

  /** Overwriting just after a splice lengthens the splice. */
  lemma Splice<T>(app: seq<T>, i: nat, a: seq<T>, before: seq<T>, b: seq<T>, after: seq<T>)
    requires i + |a| + |b| <= |app|
    requires before == app[..i] + a + app[i + |a|..]
    requires after == before[..i + |a|] + b + before[i + |a| + |b|..]
    ensures after == app[..i] + (a + b) + app[i + |a| + |b|..]
  {}

  lemma OneMoreFrame(was: seq<Byte>, done: nat, source: seq<nat>)
    requires forall p :: 0 <= p < |source| ==> source[p] < FRAME_SIZE
    requires done % FRAME_SIZE == 0 && done + FRAME_SIZE <= |was|
    ensures Samples(was[..done + FRAME_SIZE], source)
         == Samples(was[..done], source) + Sample(was[done..][..FRAME_SIZE], source)
  {
    hide Samples, Sample;
    TakeMore(was, done, FRAME_SIZE);
    SamplesAppend(was[..done], was[done..][..FRAME_SIZE], source);
  }

  lemma TakeMore<T>(s: seq<T>, a: nat, b: nat)
    requires a + b <= |s|
    ensures s[..a + b] == s[..a] + s[a..][..b]
  {}

  lemma NoSamples(source: seq<nat>)
    requires forall p :: 0 <= p < |source| ==> source[p] < FRAME_SIZE
    ensures Samples([], source) == []
  {}

  lemma FrameStep(was: seq<Byte>, done: nat, source: seq<nat>, app: seq<Byte>, i: nat,
                  before: seq<Byte>, after: seq<Byte>)
    requires forall p :: 0 <= p < |source| ==> source[p] < FRAME_SIZE
    requires done % FRAME_SIZE == 0 && done + FRAME_SIZE <= |was|
    requires i + |Samples(was[..done], source)| + |source| <= |app|
    requires before == app[..i] + Samples(was[..done], source) + app[i + |Samples(was[..done], source)|..]
    requires var p := i + |Samples(was[..done], source)|;
             after == before[..p] + Sample(was[done..][..FRAME_SIZE], source) + before[p + |source|..]
    ensures was[done..][FRAME_SIZE..] == was[done + FRAME_SIZE..]
    ensures var next := Samples(was[..done + FRAME_SIZE], source);
            && |next| == |Samples(was[..done], source)| + |source|
            && after == app[..i] + next + app[i + |next|..]
  {
    hide Samples, Sample;
    OneMoreFrame(was, done, source);
    SampleSize(was[done..][..FRAME_SIZE], source);
    Splice(app, i, Samples(was[..done], source), before, Sample(was[done..][..FRAME_SIZE], source), after);
  }

  lemma FrameCount(was: seq<Byte>, done: nat, n: nat, source: seq<nat>)
    requires forall p :: 0 <= p < |source| ==> source[p] < FRAME_SIZE
    requires done % FRAME_SIZE == 0 && n % FRAME_SIZE == 0 && done < n <= |was|
    ensures |Samples(was[..done], source)| + |source| <= |Samples(was[..n], source)|
  {
    hide Samples;
    SamplesLength(was[..done], source);
    SamplesLength(was[..n], source);
    OneMore(done / FRAME_SIZE, n / FRAME_SIZE, |source|);
  }

  lemma OneMore(a: nat, b: nat, k: nat)
    requires a < b
    ensures a * k + k <= b * k
  {
    MulMonotone(k, a + 1, b);
  }

  lemma FramesFit(room: nat, sample: nat, chunk: nat)
    requires 0 < sample <= FRAME_SIZE && FRAME_SIZE % sample == 0
    requires room % sample == 0 && chunk % FRAME_SIZE == 0
    ensures var n := Min(chunk, room * (FRAME_SIZE / sample));
            0 <= n && n % FRAME_SIZE == 0 && n / FRAME_SIZE * sample <= room
  {
    assert sample == 1 || sample == 2 || sample == 4 || sample == 8;
  }
}
