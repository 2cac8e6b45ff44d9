/** WebSocket framing of extmod/modwebsocket.c (sections 5.2 and 5.3 of RFC 6455): a frame parser
    that can be interrupted at any byte of the underlying stream and resumed by the next read. */
module Websocket {
  import opened Common
  import opened Octets

  const FRAME_CONT := 0
  const FRAME_TXT: Octet := 1
  const FRAME_CLOSE := 8

  /** flags & 0x0f */
  function Opcode(flags: Octet): nat { flags % 16 }

  // ---------- frames ----------

  /** A frame: first byte, masking key if any, whether the 16-bit length form is used, payload. */
  datatype Frame = Frame(flags: Octet, mask: Option<seq<Octet>>, ext: bool, payload: seq<Octet>)

  predicate IsControl(flags: Octet) { Opcode(flags) >= FRAME_CLOSE }

  /** FIN frames shorter than 65536 bytes, in either length form that the payload fits. */
  predicate Permitted(f: Frame) {
    && f.flags >= 128
    && (f.mask.Some? ==> |f.mask.value| == 4)
    && |f.payload| < 0x1_0000
    && (!f.ext ==> |f.payload| < 126)
  }

  function KeyOf(f: Frame): seq<Octet> { if f.mask.Some? then f.mask.value else [0, 0, 0, 0] }

  function Masked(key: seq<Octet>, payload: seq<Octet>): (r: seq<Octet>)
    requires |key| == 4
    ensures |r| == |payload|
    ensures forall i :: 0 <= i < |payload| ==> r[i] == Xor(payload[i], key[i % 4])
  {
    seq(|payload|, i requires 0 <= i < |payload| => Xor(payload[i], key[i % 4]))
  }

  function Word(high: int, low: int): int { high * 256 + low }

  function Length7(f: Frame): nat { if f.ext then 126 else |f.payload| }

  function Header(f: Frame): seq<Octet>
    requires Permitted(f)
  {
    [f.flags, Length7(f) + (if f.mask.Some? then 128 else 0)]
  }

  /** The extended length and the masking key. */
  function Options(f: Frame): seq<Octet>
    requires Permitted(f)
  {
    (if f.ext then [|f.payload| / 256, |f.payload| % 256] else []) +
    (if f.mask.Some? then f.mask.value else [])
  }

  function Body(f: Frame): seq<Octet>
    requires Permitted(f)
  {
    Masked(KeyOf(f), f.payload)
  }

  ghost predicate AllPermitted(frames: seq<Frame>) { forall i :: 0 <= i < |frames| ==> Permitted(frames[i]) }

  /** The bytes on the wire. */
  ghost function Encode(frames: seq<Frame>): seq<Octet>
    requires AllPermitted(frames)
  {
    if frames == [] then [] else Header(frames[0]) + (Options(frames[0]) + (Body(frames[0]) + Encode(frames[1..])))
  }

  /** The application's bytes: the payloads of the data frames. */
  function Payloads(frames: seq<Frame>): seq<Octet> {
    if frames == [] then []
    else (if IsControl(frames[0].flags) then [] else frames[0].payload) + Payloads(frames[1..])
  }

  /** What is left of them from byte k of the first frame on. */
  function Remaining(frames: seq<Frame>, k: nat): seq<Octet>
    requires frames != [] ==> k <= |frames[0].payload|
  {
    if frames == [] then []
    else (if IsControl(frames[0].flags) then [] else frames[0].payload[k..]) + Payloads(frames[1..])
  }

  /** What a finished frame makes the reader send: a close frame is answered by an empty one. */
  function Reply(f: Frame): seq<Octet> { if Opcode(f.flags) == FRAME_CLOSE then [0x88, 0x00] else [] }

  function Replies(frames: seq<Frame>): seq<Octet> {
    if frames == [] then [] else Replies(frames[..|frames| - 1]) + Reply(frames[|frames| - 1])
  }

  lemma RepliesNext(frames: seq<Frame>, n: nat)
    requires n < |frames|
    ensures Replies(frames[..n + 1]) == Replies(frames[..n]) + Reply(frames[n])
  {
    assert frames[..n + 1][..n] == frames[..n];
  }

  lemma {:induction false} RepliesAppend(a: seq<Frame>, b: seq<Frame>)
    ensures Replies(a + b) == Replies(a) + Replies(b)
    decreases |b|
  {
    if b == [] {
      assert a + b == a;
    } else {
      var front := b[..|b| - 1];
      assert (a + b)[..|a + b| - 1] == a + front;
      RepliesAppend(a, front);
    }
  }

  /** The opcode on record once the headers of these frames have been taken: that of the last one
      that is not a continuation. */
  function Recorded(opcode: nat, frames: seq<Frame>): nat {
    if frames == [] then opcode
    else
      var last := Opcode(frames[|frames| - 1].flags);
      if last != FRAME_CONT then last else Recorded(opcode, frames[..|frames| - 1])
  }

  lemma RecordedStart(opcode: nat, frames: seq<Frame>)
    requires frames == []
    ensures Recorded(opcode, frames) == opcode
  {}

  /** Taking one more header, or the same one again, extends the record by that frame. */
  lemma RecordedOnce(opcode: nat, frames: seq<Frame>, n: nat, before: nat, first: bool)
    requires n < |frames| && before == Recorded(opcode, frames[..if first then n else n + 1])
    ensures Recorded(before, [frames[n]]) == Recorded(opcode, frames[..n + 1])
  {
    RecordedNext(opcode, frames, n);
    assert [frames[n]][..0] == [];
  }

  lemma RecordedNext(opcode: nat, frames: seq<Frame>, n: nat)
    requires n < |frames|
    ensures Recorded(opcode, frames[..n + 1]) ==
            if Opcode(frames[n].flags) != FRAME_CONT then Opcode(frames[n].flags) else Recorded(opcode, frames[..n])
  {
    assert frames[..n + 1][..n] == frames[..n];
  }

  /** After a message's first frame and any continuations, the opcode on record is the message's
      if and only if no control frame came in between. */
  lemma {:induction false} MessageOpcode(opcode: nat, first: Frame, later: seq<Frame>)
    requires Opcode(first.flags) != FRAME_CONT && !IsControl(first.flags)
    requires forall i :: 0 <= i < |later| ==> Opcode(later[i].flags) == FRAME_CONT || IsControl(later[i].flags)
    ensures Recorded(opcode, [first] + later) == Opcode(first.flags) <==>
            forall i :: 0 <= i < |later| ==> !IsControl(later[i].flags)
    decreases |later|
  {
    if later == [] {
      assert [first] + later == [first];
    } else {
      var n := |later| - 1;
      assert ([first] + later)[..n + 1] == [first] + later[..n];
      MessageOpcode(opcode, first, later[..n]);
    }
  }

  // ---------- the underlying stream ----------

  datatype Chunk = Give(n: nat) | Again

  datatype Got = Bytes(b: seq<Octet>) | Failure

  /** How much the stream hands out to a read of n bytes while it has that many. */
  function Offer(plan: seq<Chunk>, n: nat): nat {
    if plan == [] || plan[0] == Again then 0 else Min(plan[0].n, n)
  }

  /** What is left of a plan after one read. */
  function Later(plan: seq<Chunk>): seq<Chunk> { if plan == [] then [] else plan[1..] }

  /** A stream that hands out its bytes in whatever pieces `plan` says, with retries between. */
  class Stream {
    var data: seq<Octet>
    var plan: seq<Chunk>
    var sent: seq<Octet>

    constructor (d: seq<Octet>, p: seq<Chunk>)
      ensures data == d && plan == p && sent == []
    {
      data, plan, sent := d, p, [];
    }

    method Read(n: nat) returns (r: Got)
      modifies this
      ensures sent == old(sent) && plan == Later(old(plan))
      ensures (if r.Bytes? then |r.b| else 0) == Min(Offer(old(plan), n), |old(data)|)
      ensures r.Failure? ==> data == old(data)
      ensures r.Bytes? ==> |r.b| <= n && r.b + data == old(data)
    {
      if plan == [] { return Bytes([]); }
      var c := plan[0];
      plan := plan[1..];
      if c == Again { return Failure; }
      var m := Min(c.n, Min(n, |data|));
      r := Bytes(data[..m]);
      data := data[m..];
    }
  }

  lemma HeaderFields(f: Frame)
    requires Permitted(f)
    ensures Header(f)[0] == f.flags && Header(f)[1] % 128 == Length7(f)
    ensures Header(f)[1] >= 128 <==> f.mask.Some?
  {}

  // ---------- when a control payload comes back as data ----------

  /** Whether a read of `size` bytes that starts `pos` bytes into the encoding of the first frame,
      over a stream with this plan, hands part of a control frame's payload to the caller: it does if
      and only if the first payload that the stream does not give in one piece is a control frame's,
      and only control frames and empty frames come before it. */
  ghost predicate LeakAhead(frames: seq<Frame>, pos: nat, plan: seq<Chunk>, size: nat)
    requires AllPermitted(frames)
    decreases |frames|, if pos < 2 then 2 else if frames != [] && pos < 2 + |Options(frames[0])| then 1 else 0
  {
    if frames == [] then false
    else
      var f := frames[0];
      var body := 2 + |Options(f)|;
      if pos < 2 then Offer(plan, 2 - pos) == 2 - pos && LeakAhead(frames, 2, Later(plan), size)
      else if pos < body then Offer(plan, body - pos) == body - pos && LeakAhead(frames, body, Later(plan), size)
      else if pos >= body + |f.payload| then Opcode(f.flags) != FRAME_CLOSE && LeakAhead(frames[1..], 0, plan, size)
      else
        var left := body + |f.payload| - pos;
        var given := Offer(plan, Min(size, left));
        if given < left then 0 < given && IsControl(f.flags)
        else IsControl(f.flags) && Opcode(f.flags) != FRAME_CLOSE && LeakAhead(frames[1..], 0, Later(plan), size)
  }

  lemma LeakNext(frames: seq<Frame>, pos: nat, plan: seq<Chunk>, size: nat)
    requires AllPermitted(frames)
    ensures frames == [] ==> !LeakAhead(frames, pos, plan, size)
    ensures frames != [] && pos < 2 ==>
      (LeakAhead(frames, pos, plan, size) <==> Offer(plan, 2 - pos) == 2 - pos && LeakAhead(frames, 2, Later(plan), size))
    ensures frames != [] && 2 <= pos < 2 + |Options(frames[0])| ==>
      var body := 2 + |Options(frames[0])|;
      (LeakAhead(frames, pos, plan, size) <==> Offer(plan, body - pos) == body - pos && LeakAhead(frames, body, Later(plan), size))
  {}

  /** The stream gives whatever is asked for, for at least n reads. */
  ghost predicate Generous(plan: seq<Chunk>, n: nat) {
    |plan| >= n && forall i :: 0 <= i < n ==> plan[i].Give? && plan[i].n >= 0x1_0000
  }

  /** A control frame's payload longer than the read comes before any byte of a data frame and
      before the end of a close frame. */
  predicate LongControl(frames: seq<Frame>, size: nat) {
    && frames != []
    && (frames[0].payload == [] || IsControl(frames[0].flags))
    && (|frames[0].payload| > size || (Opcode(frames[0].flags) != FRAME_CLOSE && LongControl(frames[1..], size)))
  }

  lemma GenerousLater(plan: seq<Chunk>, n: nat)
    requires n > 0 && Generous(plan, n)
    ensures Generous(Later(plan), n - 1) && Generous(plan, n - 1)
    ensures forall m: nat :: m < 0x1_0000 ==> Offer(plan, m) == m
  {}

  /** Where the stream withholds nothing, the leak is the caller's choice of size alone. */
  lemma {:induction false} GenerousLeak(frames: seq<Frame>, plan: seq<Chunk>, size: nat)
    requires AllPermitted(frames) && 0 < size && Generous(plan, 3 * |frames|)
    ensures LeakAhead(frames, 0, plan, size) <==> LongControl(frames, size)
    decreases |frames|
  {
    hide Permitted, Options, Generous;
    if frames == [] {
    } else {
      var f, n := frames[0], 3 * |frames|;
      var p1 := Later(plan);
      GenerousLater(plan, n);
      GenerousLater(p1, n - 1);
      OptionsLength(f);
      LengthAtMost(f);
      LeakNext(frames, 0, plan, size);
      LeakNext(frames, 2, p1, size);
      var p2 := if |Options(f)| > 0 then Later(p1) else p1;
      GenerousLater(p2, n - 2);
      assert LeakAhead(frames, 0, plan, size) <==> LeakAhead(frames, 2 + |Options(f)|, p2, size);
      var rest := if f.payload == [] then p2 else Later(p2);
      GenerousLeak(frames[1..], rest, size);
    }
  }

  // ---------- the parser ----------

  datatype Phase = FRAME_HEADER | FRAME_OPT | PAYLOAD | CONTROL

  /** How many frames beyond the finished ones have had their header taken. */
  function Taken(state: Phase): nat { if state == FRAME_HEADER then 0 else 1 }

  datatype ReadResult = Data(bytes: seq<Octet>) | Nothing | Error

  class WebSocket {
    const sock: Stream
    var msgSz: nat
    var mask: seq<Octet>
    var state: Phase
    var toRecv: nat
    var maskPos: nat        // one byte, wraps at 256
    var bufPos: nat
    var buf: seq<Octet>
    var opts: Octet
    var wsFlags: Octet
    var lastFlags: Octet
    ghost var frames: seq<Frame>   // the current frame and those after it
    ghost var k: nat               // payload bytes of the current frame already taken

    /** The parser's variables describe exactly where in the frames the stream stands. */
    ghost predicate Valid()
      reads this, sock
    {
      && AllPermitted(frames) && |mask| == 4 && |buf| == 6 && maskPos < 256
      && bufPos + toRecv <= 6
      && (match state
          case FRAME_HEADER =>
            k == 0 && maskPos == 0 && bufPos + toRecv == 2 && 0 < toRecv && buf[..bufPos] + sock.data == Encode(frames)
          case FRAME_OPT =>
            && frames != [] && k == 0 && maskPos == 0 && 0 < toRecv
            && bufPos + toRecv == |Options(frames[0])| && InFrame(frames[0]) && mask == [0, 0, 0, 0]
            && msgSz == Length7(frames[0])
            && buf[..bufPos] + sock.data == Options(frames[0]) + (Body(frames[0]) + Encode(frames[1..]))
          case _ => InPayload())
    }

    /** The flags of the current frame have been taken over. */
    ghost predicate InFrame(f: Frame)
      reads this
    {
      lastFlags == f.flags && (Opcode(f.flags) != FRAME_CONT ==> wsFlags == f.flags)
    }

    ghost predicate InPayload()
      requires AllPermitted(frames)
      reads this, sock
    {
      && frames != [] && toRecv == 0 && bufPos == 0 && k <= |frames[0].payload| && InFrame(frames[0])
      && (state == CONTROL <==> IsControl(frames[0].flags)) && (state == CONTROL || state == PAYLOAD)
      && msgSz == |frames[0].payload| - k && mask == KeyOf(frames[0]) && maskPos % 4 == k % 4 && maskPos < 256
      && sock.data == Body(frames[0])[k..] + Encode(frames[1..])
    }

    /** How far into the encoding of the current frame the parser is. */
    ghost function Position(): nat
      requires AllPermitted(frames) && (state == PAYLOAD || state == CONTROL ==> frames != [])
      reads this
    {
      match state
      case FRAME_HEADER => bufPos
      case FRAME_OPT => 2 + bufPos
      case _ => 2 + |Options(frames[0])| + k
    }

    /** What a call of Read(size) will do with control payloads. */
    ghost predicate WillLeak(size: nat)
      requires Valid()
      reads this, sock
    {
      LeakAhead(frames, Position(), sock.plan, size)
    }

    /** The application's bytes still to come. */
    ghost function Rest(): seq<Octet>
      requires frames != [] ==> k <= |frames[0].payload|
      reads this
    {
      Remaining(frames, k)
    }

    /** websocket_make_new on a stream that carries these frames. */
    constructor (s: Stream, ghost fs: seq<Frame>)
      requires AllPermitted(fs) && s.data == Encode(fs)
      ensures Valid() && sock == s && frames == fs && k == 0 && opts == FRAME_TXT && Position() == 0
      ensures state == FRAME_HEADER && Opcode(wsFlags) == 0
    {
      sock := s;
      state, toRecv, maskPos, bufPos := FRAME_HEADER, 2, 0, 0;
      msgSz, mask, buf := 0, [0, 0, 0, 0], [0, 0, 0, 0, 0, 0];
      opts, wsFlags, lastFlags := FRAME_TXT, 0, 0;
      frames, k := fs, 0;
    }

    /** A continuation keeps the opcode of the message it continues. */
    method TakeFlags(flags: Octet)
      modifies this`lastFlags, this`wsFlags
      ensures lastFlags == flags && (Opcode(flags) != FRAME_CONT ==> wsFlags == flags)
      ensures Opcode(flags) == FRAME_CONT ==> Opcode(wsFlags) == Opcode(old(wsFlags)) && wsFlags / 16 == flags / 16
    {
      lastFlags := flags;
      if Opcode(flags) == FRAME_CONT {
        wsFlags := Opcode(wsFlags) + flags / 16 * 16;
      } else {
        wsFlags := flags;
      }
    }

    /** Completes the two header bytes. */
    method OnHeader()
      requires AllPermitted(frames) && |mask| == 4 && |buf| == 6
      requires state == FRAME_HEADER && toRecv == 0 && bufPos == 2 && k == 0 && maskPos == 0
      requires buf[..2] + sock.data == Encode(frames)
      modifies this
      ensures Valid() && (state == FRAME_OPT || state == PAYLOAD || state == CONTROL)
      ensures frames == old(frames) && k == 0 && frames != [] && Position() == 2
      ensures Opcode(wsFlags) == Recorded(old(Opcode(wsFlags)), [frames[0]])
    {
      hide Encode, Body, Options, Header, Permitted;
      var flags, second := buf[0], buf[1];
      HeaderOnWire(frames, buf[..2], sock.data);
      assert buf[..2][0] == flags && buf[..2][1] == second;
      HeaderFields(frames[0]);
      OptionsLength(frames[0]);
      LengthAtMost(frames[0]);
      BodyLength(frames[0]);
      TakeFlags(flags);
      mask := [0, 0, 0, 0];
      var need := 0;
      var sz := second % 128;
      if sz == 126 {
        need := need + 2;
      }
      if second >= 128 {
        need := need + 4;
      }
      bufPos := 0;
      toRecv := need;
      msgSz := sz;
      if need != 0 {
        state := FRAME_OPT;
        assert buf[..0] + sock.data == sock.data;
      } else {
        NoOptions(frames[0], Body(frames[0]) + Encode(frames[1..]));
        assert Body(frames[0])[0..] == Body(frames[0]);
        state := if IsControl(flags) then CONTROL else PAYLOAD;
      }
    }

    /** Completes the extended length and the masking key. */
    method OnOptions()
      requires AllPermitted(frames) && |mask| == 4 && |buf| == 6
      requires state == FRAME_OPT && frames != [] && toRecv == 0 && k == 0 && maskPos == 0
      requires bufPos == |Options(frames[0])| && 0 < bufPos <= 6 && InFrame(frames[0])
      requires msgSz == Length7(frames[0]) && mask == [0, 0, 0, 0]
      requires buf[..bufPos] + sock.data == Options(frames[0]) + (Body(frames[0]) + Encode(frames[1..]))
      modifies this
      ensures Valid() && (state == PAYLOAD || state == CONTROL)
      ensures frames == old(frames) && k == 0 && wsFlags == old(wsFlags)
    {
      hide Encode, Body, Options, Permitted, Word;
      OptionsLength(frames[0]);
      LengthAtMost(frames[0]);
      Split(buf[..bufPos], sock.data, Options(frames[0]), Body(frames[0]) + Encode(frames[1..]));
      OptionFields(frames[0], buf, bufPos);
      if bufPos == 2 || bufPos == 6 {
        msgSz := Word(buf[0], buf[1]);
      }
      if bufPos >= 4 {
        mask := buf[bufPos - 4..bufPos];
      }
      bufPos := 0;
      assert Body(frames[0])[0..] == Body(frames[0]);
      state := if IsControl(lastFlags) then CONTROL else PAYLOAD;
    }

    /** Back to waiting for a header once a frame's payload is used up. */
    method EndFrame()
      requires AllPermitted(frames) && |mask| == 4 && |buf| == 6 && InPayload() && msgSz == 0
      modifies this
      ensures Valid() && state == FRAME_HEADER && frames == old(frames[1..]) && k == 0 && bufPos == 0
      ensures wsFlags == old(wsFlags) && lastFlags == old(lastFlags)
    {
      hide Encode, Body;
      assert k == |Body(frames[0])| by { BodyLength(frames[0]); }
      assert Body(frames[0])[k..] == [];
      state := FRAME_HEADER;
      toRecv, maskPos, bufPos := 2, 0, 0;
      frames, k := frames[1..], 0;
      assert buf[..0] + sock.data == sock.data;
    }

    /** Unmasks the bytes just read. */
    method Unmask(raw: seq<Octet>) returns (plain: seq<Octet>)
      requires |mask| == 4 && maskPos < 256
      modifies this`maskPos
      ensures |plain| == |raw| && maskPos == (old(maskPos) + |raw|) % 256
      ensures forall i :: 0 <= i < |raw| ==> plain[i] == Xor(raw[i], mask[(old(maskPos) + i) % 4])
    {
      hide Xor;
      plain := [];
      for i := 0 to |raw|
        invariant |plain| == i && maskPos == (old(maskPos) + i) % 256
        invariant forall j :: 0 <= j < i ==> plain[j] == Xor(raw[j], mask[(old(maskPos) + j) % 4])
      {
        WrapMask(old(maskPos) + i);
        plain := plain + [Xor(raw[i], mask[maskPos % 4])];
        maskPos := (maskPos + 1) % 256;
      }
    }

    /** Reads and unmasks the next piece of the current frame's payload. */
    method TakePayload(size: nat) returns (r: ReadResult)
      requires Valid() && (state == PAYLOAD || state == CONTROL) && 0 < msgSz
      modifies this, sock
      ensures Valid() && frames == old(frames) && state == old(state) && wsFlags == old(wsFlags)
      ensures !r.Data? ==> k == old(k)
      ensures r.Data? ==> 0 < |r.bytes| <= size && old(k) + |r.bytes| == k && r.bytes == frames[0].payload[old(k)..k]
      ensures k == old(k) + Offer(old(sock.plan), Min(size, old(msgSz))) && sock.plan == Later(old(sock.plan))
      ensures |sock.data| <= |old(sock.data)| && sock.sent == old(sock.sent)
    {
      hide Encode, Body, Permitted, Xor, Options, KeyOf, IsControl, Opcode;
      BodyLength(frames[0]);
      assert msgSz <= |sock.data|;
      var got := sock.Read(Min(size, msgSz));
      if got.Failure? { return Error; }
      if got.b == [] {
        assert [] + sock.data == sock.data;
        return Nothing;
      }
      var n := |got.b|;
      Consume(got.b, sock.data, Body(frames[0]), k, Encode(frames[1..]));
      ghost var pos := maskPos;
      var plain := Unmask(got.b);
      UnmaskedIs(frames[0], k, got.b, plain, pos);
      MaskAfter(pos, k, n);
      msgSz := msgSz - n;
      k := k + n;
      r := Data(plain);
    }

    /** Ends a frame whose payload is used up and answers a close frame; false after a close. */
    method CloseOff() returns (more: bool)
      requires Valid() && (state == PAYLOAD || state == CONTROL) && msgSz == 0
      modifies this, sock
      ensures Valid() && frames == old(frames[1..]) && k == 0 && Position() == 0
      ensures wsFlags == old(wsFlags) && lastFlags == old(lastFlags) && sock.plan == old(sock.plan)
      ensures !more <==> Opcode(old(frames[0].flags)) == FRAME_CLOSE
      ensures sock.data == old(sock.data) && sock.sent == old(sock.sent) + old(Reply(frames[0]))
    {
      hide Encode, Body, Permitted, Options;
      more := true;
      var close := state == CONTROL && Opcode(lastFlags) == FRAME_CLOSE;
      EndFrame();
      if close {
        sock.sent := sock.sent + [0x88, 0x00];
        more := false;
      }
    }

    /** One turn in the PAYLOAD or CONTROL phase. `more` asks for another turn; `leak` tells that
        the bytes returned belong to a control frame. */
    method OnPayload(size: nat) returns (r: ReadResult, more: bool, ghost leak: bool)
      requires Valid() && Bounded() && frames != [] && (state == PAYLOAD || state == CONTROL)
      modifies this, sock
      ensures Valid() && Bounded()
      ensures !leak ==> old(Rest()) == (if r.Data? then r.bytes else []) + Rest()
      // a control frame's bytes come back exactly when the stream gives some but not all of them
      ensures leak <==> old(IsControl(frames[0].flags)) && 0 < Offer(old(sock.plan), Min(size, old(msgSz))) < old(msgSz)
      ensures leak <==> r.Data? && old(IsControl(frames[0].flags))
      ensures leak ==> Rest() == old(Rest()) && frames == old(frames) && old(k) < k < |frames[0].payload|
      ensures r.Data? ==> Slice(old(frames[0].payload), old(k), r.bytes)
      ensures if more then old(WillLeak(size)) == WillLeak(size) else old(WillLeak(size)) == leak
      ensures r.Data? ==> 0 < |r.bytes| <= size
      ensures wsFlags == old(wsFlags) && (state == FRAME_HEADER <==> |frames| < |old(frames)|)
      ensures more ==> r == Nothing && frames == old(frames[1..]) && state == FRAME_HEADER && k == 0
      ensures frames == old(frames) || frames == old(frames[1..])
      ensures |sock.data| <= |old(sock.data)|
      // nothing is sent but the answer to a close frame that is used up
      ensures sock.sent == old(sock.sent) + if |frames| < |old(frames)| then old(Reply(frames[0])) else []
    {
      hide Encode, Body, Permitted, Remaining, Xor, Options, Header;
      ghost var fs, k0 := frames, k;
      r, leak := Nothing, false;
      RestNext(fs);
      if msgSz == 0 {
        FrameUsedUp();
        more := CloseOff();
        assert [] + Rest() == Rest();
        return;
      }
      r := TakePayload(size);
      if !r.Data? {
        assert [] + Rest() == Rest();
        return r, false, false;
      }
      RestCut(fs, k0, |r.bytes|);
      assert [] + Remaining(fs, k) == Remaining(fs, k);
      leak := IsControl(fs[0].flags);
      more := false;
      if msgSz == 0 {
        FrameUsedUp();
        var go := CloseOff();
        if IsControl(lastFlags) {
          assert [] + Rest() == Rest();
          return Nothing, go, false;
        }
      } else {
        FrameNotUsedUp();
      }
    }

    lemma FrameUsedUp()
      requires Valid() && (state == PAYLOAD || state == CONTROL) && msgSz == 0
      ensures frames != [] && k == |frames[0].payload| && lastFlags == frames[0].flags
    {}

    lemma FrameNotUsedUp()
      requires Valid() && (state == PAYLOAD || state == CONTROL) && msgSz > 0
      ensures frames != [] && k < |frames[0].payload|
    {}

    /** One read into the small buffer; true when it is complete. */
    method FillBuffer() returns (r: ReadResult, full: bool)
      requires Valid() && toRecv != 0
      modifies this`buf, this`bufPos, this`toRecv, sock
      ensures if full then Full() else Valid()
      ensures r == Nothing || r == Error
      ensures full <==> frames != [] && Offer(old(sock.plan), old(toRecv)) == old(toRecv)
      ensures sock.plan == Later(old(sock.plan)) && sock.sent == old(sock.sent)
      ensures full ==> |sock.data| < |old(sock.data)|
    {
      hide Encode, Body, Options, Permitted, InPayload, Opcode, IsControl, Length7;
      RefillPhase();
      EnoughData();
      var got := sock.Read(toRecv);
      if got.Failure? { return Error, false; }
      Gather(buf, bufPos, got.b, sock.data, old(sock.data));
      if got.b == [] {
        assert buf[..bufPos] + sock.data == buf[..bufPos] + old(sock.data);
        return Nothing, false;
      }
      buf := buf[..bufPos] + got.b + buf[bufPos + |got.b|..];
      bufPos := bufPos + |got.b|;
      toRecv := toRecv - |got.b|;
      if toRecv != 0 { return Error, false; }
      return Nothing, true;
    }

    /** One refill of the small buffer; true when it is complete and has been processed. */
    method Refill(ghost size: nat) returns (r: ReadResult, done: bool)
      requires Valid() && toRecv != 0
      modifies this, sock
      ensures Valid() && frames == old(frames) && k == old(k) == 0
      ensures r == Nothing || r == Error
      ensures !done ==> state == old(state) && wsFlags == old(wsFlags)
      ensures done ==> |sock.data| < |old(sock.data)|
      ensures sock.sent == old(sock.sent)
      ensures done ==> state != FRAME_HEADER && frames != []
      ensures done ==> Opcode(wsFlags) == Recorded(old(Opcode(wsFlags)), [frames[0]])
      ensures old(WillLeak(size)) == (done && WillLeak(size))
    {
      hide Encode, Body, Options, Permitted, InPayload, Recorded, LeakAhead, Opcode, IsControl, Length7, Full;
      RefillPhase();
      EnoughData();
      LeakNext(frames, Position(), sock.plan, size);
      r, done := FillBuffer();
      if done { Complete(); }
    }

    /** The small buffer holds what it was waiting for. */
    ghost predicate Full()
      reads this, sock
    {
      && AllPermitted(frames) && |mask| == 4 && |buf| == 6 && toRecv == 0 && k == 0 && maskPos == 0
      && (state == FRAME_HEADER || state == FRAME_OPT)
      && (state == FRAME_HEADER ==> bufPos == 2 && buf[..2] + sock.data == Encode(frames))
      && (state == FRAME_OPT ==>
            && frames != [] && bufPos == |Options(frames[0])| && 0 < bufPos <= 6 && InFrame(frames[0])
            && msgSz == Length7(frames[0]) && mask == [0, 0, 0, 0]
            && buf[..bufPos] + sock.data == Options(frames[0]) + (Body(frames[0]) + Encode(frames[1..])))
    }

    /** The switch on the state once the small buffer is full. */
    method Complete()
      requires Full()
      modifies this
      ensures Valid() && frames == old(frames) && k == 0 && state != FRAME_HEADER && frames != []
      ensures Position() == if old(state) == FRAME_HEADER then 2 else 2 + |Options(frames[0])|
      ensures Opcode(wsFlags) == Recorded(old(Opcode(wsFlags)), [frames[0]])
    {
      hide Encode, Body, Options, Permitted;
      if state == FRAME_HEADER { OnHeader(); } else { OnOptions(); }
    }

    /** websocket_read. In it n frames were finished, and any bytes come from frame `from`. */
    method Read(size: nat) returns (r: ReadResult, ghost leak: bool, ghost n: nat, ghost from: nat)
      requires Valid()
      modifies this, sock
      ensures n <= |old(frames)| && frames == old(frames)[n..]
      // the opcode on record is that of the last frame up to this one that is not a continuation
      ensures n + Taken(state) <= |old(frames)| && (old(state) != FRAME_HEADER ==> n + Taken(state) > 0)
      ensures Opcode(wsFlags) == Recorded(old(Opcode(wsFlags)), old(frames)[..n + Taken(state)])
      ensures r.Data? ==> from < |old(frames)|
      ensures r.Data? ==> Opcode(wsFlags) == Recorded(old(Opcode(wsFlags)), old(frames)[..from + 1])
      ensures Valid() && Bounded() && (old(frames) != [] ==> old(k) <= |old(frames)[0].payload|)
      ensures r.Data? ==> 0 < |r.bytes| <= size
      ensures sock.sent == old(sock.sent) + Replies(old(frames)[..n])
      ensures !leak ==> old(Rest()) == (if r.Data? then r.bytes else []) + Rest()
      // a control frame shows through exactly when its payload comes in pieces
      ensures leak <==> old(WillLeak(size))
      ensures leak <==> r.Data? && IsControl(old(frames)[from].flags)
      ensures leak ==> Rest() == old(Rest()) && frames != [] && from == n && 0 < k < |frames[0].payload|
      // the bytes are a piece of that frame's payload, from where the frame stood
      ensures r.Data? ==> Slice(old(frames)[from].payload, if from == 0 then old(k) else 0, r.bytes)
    {
      hide Encode, Body, Options, Header, Remaining, Permitted, InPayload, LeakAhead, Recorded, Opcode, IsControl, Valid, WillLeak, Replies, Reply;
      ghost var all, k0, op := frames, k, Opcode(wsFlags);
      leak, n, from := false, 0, 0;
      BoundedNow();
      ghost var rest, sent := Rest(), sock.sent;
      NoReplies();
      assert all[..0] == [] && sent + [] == sent;
      RecordedStart(op, all[..0]);
      if state != FRAME_HEADER {
        TakenAlready();
        assert all[..1] == [all[0]];
      }
      while true
        invariant Valid() && Bounded()
        invariant n <= |all| && frames == all[n..] && (n < |all| || state == FRAME_HEADER)
        invariant old(state) != FRAME_HEADER ==> n + Taken(state) > 0
        invariant k == if n == 0 then k0 else 0
        invariant sock.sent == sent + Replies(all[..n])
        invariant Rest() == rest
        invariant old(WillLeak(size)) == WillLeak(size)
        invariant Opcode(wsFlags) == Recorded(op, all[..n + Taken(state)])
        decreases |sock.data|, |frames|
      {
        if toRecv != 0 {
          var done;
          ghost var before, was := Opcode(wsFlags), state;
          r, done := Refill(size);
          if !done {
            assert [] + Rest() == Rest();
            return r, false, n, 0;
          }
          BoundedNow();
          RecordedOnce(op, all, n, before, was == FRAME_HEADER);
        } else {
          var more;
          PayloadPhase();
          from := n;
          r, more, leak := OnPayload(size);
          if |frames| < |all| - n {
            RepliesNext(all, n);
            n := n + 1;
          }
          if !more { return; }
          assert [] + Rest() == Rest();
        }
      }
    }

    lemma TakenAlready()
      requires Valid() && state != FRAME_HEADER
      ensures frames != [] && Recorded(Opcode(wsFlags), [frames[0]]) == Opcode(wsFlags)
    {}

    /** The stream holds the rest of what the small buffer waits for, unless the frames are used up. */
    lemma EnoughData()
      requires Valid() && toRecv != 0
      ensures frames == [] ==> sock.data == []
      ensures frames != [] ==> toRecv <= |sock.data|
      ensures state == FRAME_OPT ==> frames != [] && Position() + toRecv == 2 + |Options(frames[0])|
    {
      hide Body, Permitted;
      if frames != [] { assert |Header(frames[0])| == 2; }
    }

    lemma RefillPhase()
      requires Valid() && toRecv != 0
      ensures state == FRAME_HEADER || state == FRAME_OPT
    {}

    lemma PayloadPhase()
      requires Valid() && toRecv == 0
      ensures (state == PAYLOAD || state == CONTROL) && frames != []
    {}

    lemma BoundedNow()
      requires Valid()
      ensures Bounded()
    {}

    ghost predicate Bounded()
      reads this
    {
      frames != [] ==> k <= |frames[0].payload|
    }
  }

  // ---------- pieces of the wire ----------

  lemma Split(a: seq<Octet>, b: seq<Octet>, c: seq<Octet>, d: seq<Octet>)
    requires a + b == c + d && |a| == |c|
    ensures a == c && b == d
  {
    assert a == (a + b)[..|a|] && b == (a + b)[|a|..];
    assert c == (c + d)[..|a|] && d == (c + d)[|a|..];
  }

  lemma HeaderOnWire(frames: seq<Frame>, two: seq<Octet>, data: seq<Octet>)
    requires AllPermitted(frames) && |two| == 2 && two + data == Encode(frames)
    ensures frames != [] && two == Header(frames[0])
    ensures data == Options(frames[0]) + (Body(frames[0]) + Encode(frames[1..]))
  {
    hide Options, Body;
    assert |two + data| >= 2;
    Split(two, data, Header(frames[0]), Options(frames[0]) + (Body(frames[0]) + Encode(frames[1..])));
  }

  lemma OptionsLength(f: Frame)
    requires Permitted(f)
    ensures |Options(f)| == (if f.ext then 2 else 0) + (if f.mask.Some? then 4 else 0)
  {}

  lemma NoOptions(f: Frame, rest: seq<Octet>)
    requires Permitted(f) && |Options(f)| == 0
    ensures Options(f) + rest == rest
  {}

  lemma OptionFields(f: Frame, buf: seq<Octet>, n: nat)
    requires Permitted(f) && n == |Options(f)| <= |buf| && buf[..n] == Options(f)
    ensures f.ext <==> n == 2 || n == 6
    ensures f.ext ==> Word(buf[0], buf[1]) == |f.payload|
    ensures f.mask.Some? <==> n >= 4
    ensures f.mask.Some? ==> buf[n - 4..n] == f.mask.value
  {
    OptionsLength(f);
    assert buf[..n][0..] == buf[..n];
    if f.ext {
      assert buf[..n][0] == buf[0] && buf[..n][1] == buf[1];
    }
    if f.mask.Some? {
      assert buf[n - 4..n] == buf[..n][n - 4..];
    }
  }

  lemma WrapMask(n: nat)
    ensures (n % 256) % 4 == n % 4 && (n % 256 + 1) % 256 == (n + 1) % 256
  {}

  lemma LengthAtMost(f: Frame)
    requires Permitted(f)
    ensures f.mask == None ==> KeyOf(f) == [0, 0, 0, 0]
    ensures |KeyOf(f)| == 4 && |f.payload| < 0x1_0000 && (f.ext <==> Length7(f) == 126) && (!f.ext ==> Length7(f) == |f.payload|)
  {}

  lemma BodyLength(f: Frame)
    requires Permitted(f)
    ensures |Body(f)| == |f.payload|
  {}

  lemma Consume(b: seq<Octet>, data: seq<Octet>, body: seq<Octet>, k: nat, rest: seq<Octet>)
    requires k <= |body| && |b| <= |body| - k && b + data == body[k..] + rest
    ensures b == body[k..k + |b|] && data == body[k + |b|..] + rest
  {
    assert body[k..] + rest == body[k..k + |b|] + (body[k + |b|..] + rest);
    Split(b, data, body[k..k + |b|], body[k + |b|..] + rest);
  }

  lemma RestCut(frames: seq<Frame>, k: nat, n: nat)
    requires frames != [] && k + n <= |frames[0].payload|
    ensures Remaining(frames, k) ==
            (if IsControl(frames[0].flags) then [] else frames[0].payload[k..k + n]) + Remaining(frames, k + n)
  {
    hide Payloads;
    var p := frames[0].payload;
    assert p[k..] == p[k..k + n] + p[k + n..];
    assert (p[k..k + n] + p[k + n..]) + Payloads(frames[1..]) == p[k..k + n] + (p[k + n..] + Payloads(frames[1..]));
  }

  lemma RestNext(frames: seq<Frame>)
    requires frames != []
    ensures Remaining(frames, |frames[0].payload|) == Remaining(frames[1..], 0)
  {
    RestAll(frames[1..]);
    assert frames[0].payload[|frames[0].payload|..] == [];
  }

  lemma RestAll(frames: seq<Frame>)
    ensures Remaining(frames, 0) == Payloads(frames)
  {
    if frames != [] { assert frames[0].payload[0..] == frames[0].payload; }
  }

  lemma UnmaskedIs(f: Frame, k: nat, raw: seq<Octet>, plain: seq<Octet>, pos: nat)
    requires Permitted(f) && k + |raw| <= |f.payload| && raw == Body(f)[k..k + |raw|]
    requires |plain| == |raw| && pos % 4 == k % 4
    requires forall i :: 0 <= i < |raw| ==> plain[i] == Xor(raw[i], KeyOf(f)[(pos + i) % 4])
    ensures plain == f.payload[k..k + |raw|]
  {
    hide Xor, Permitted, KeyOf;
    forall i | 0 <= i < |raw| ensures plain[i] == f.payload[k + i] {
      UnmaskOne(f, k, i, raw[i], plain[i], pos);
    }
  }

  lemma UnmaskOne(f: Frame, k: nat, i: nat, raw: Octet, plain: Octet, pos: nat)
    requires Permitted(f) && k + i < |f.payload| && raw == Body(f)[k + i] && pos % 4 == k % 4
    requires plain == Xor(raw, KeyOf(f)[(pos + i) % 4])
    ensures plain == f.payload[k + i]
  {
    hide Xor;
    SameKeyByte(pos, k, i);
    XorTwice(f.payload[k + i], KeyOf(f)[(k + i) % 4]);
  }

  lemma SameKeyByte(pos: nat, k: nat, i: nat)
    requires pos % 4 == k % 4
    ensures (pos + i) % 4 == (k + i) % 4
  {}

  lemma MaskAfter(pos: nat, k: nat, n: nat)
    requires pos % 4 == k % 4
    ensures (pos + n) % 256 % 4 == (k + n) % 4
  {
    SameKeyByte(pos, k, n);
    WrapMask(pos + n);
  }

  /** Storing what the stream gave after what was already there keeps the wire's order. */
  lemma Gather(buf: seq<Octet>, pos: nat, got: seq<Octet>, data: seq<Octet>, was: seq<Octet>)
    requires pos + |got| <= |buf| && got + data == was
    ensures var b := buf[..pos] + got + buf[pos + |got|..];
            |b| == |buf| && b[..pos + |got|] + data == buf[..pos] + was
    ensures got == [] ==> data == was
  {
    var b := buf[..pos] + got + buf[pos + |got|..];
    assert b[..pos + |got|] == buf[..pos] + got;
    assert (buf[..pos] + got) + data == buf[..pos] + (got + data);
  }

  // ---------- writing ----------

  /** The header of an unmasked frame, with the shorter length form that fits. */
  function PlainLead(first: Octet, n: nat): seq<Octet>
    requires n < 0x1_0000
  {
    if n < 126 then [first, n] else [first, 126, n / 256, n % 256]
  }

  /** websocket_write: one unmasked frame with the shorter length form that fits. */
  method Write(s: Stream, opts: Octet, data: seq<Octet>)
    requires |data| < 0x1_0000
    modifies s
    ensures s.data == old(s.data) && s.plan == old(s.plan)
    ensures var f := Frame(128 + Opcode(opts), None, |data| >= 126, data);
            s.sent == old(s.sent) + PlainLead(f.flags, |data|) + data &&
            (Permitted(f) ==> s.sent == old(s.sent) + Encode([f]))
  {
    var first := 128 + Opcode(opts);
    var header;
    if |data| < 126 {
      header := [first, |data|];
    } else {
      header := [first, 126, |data| / 256, |data| % 256];
    }
    WrittenIsFrame(first, data, header);
    s.sent := s.sent + header + data;
  }

  lemma WrittenIsFrame(first: Octet, data: seq<Octet>, header: seq<Octet>)
    requires |data| < 0x1_0000
    requires header == PlainLead(first, |data|)
    ensures var f := Frame(first, None, |data| >= 126, data);
            Permitted(f) ==> forall sent: seq<Octet> :: sent + header + data == sent + Encode([f])
  {
    hide Body, Encode, Header, Options;
    var f := Frame(first, None, |data| >= 126, data);
    if Permitted(f) {
      PlainBody(f);
      EncodeOne(f);
      assert Header(f) + Options(f) == header by { PlainHeader(f); }
      assert Header(f) + (Options(f) + data) == header + data;
    }
  }

  lemma PlainHeader(f: Frame)
    requires Permitted(f) && f.mask == None && f.ext == (|f.payload| >= 126)
    ensures Header(f) + Options(f) == PlainLead(f.flags, |f.payload|)
  {}

  lemma PlainBody(f: Frame)
    requires Permitted(f) && f.mask == None
    ensures Body(f) == f.payload
  {
    hide Xor;
    forall i | 0 <= i < |f.payload| ensures Body(f)[i] == f.payload[i] {
      XorZero(f.payload[i]);
    }
  }

  lemma EncodeOne(f: Frame)
    requires Permitted(f)
    ensures Encode([f]) == Header(f) + (Options(f) + Body(f))
  {
    hide Body, Header, Options;
    assert Encode([f][1..]) == [];
    assert Body(f) + [] == Body(f);
  }

  // ---------- whole sessions ----------

  ghost predicate SilentControl(frames: seq<Frame>) {
    forall i :: 0 <= i < |frames| ==> IsControl(frames[i].flags) ==> frames[i].payload == []
  }

  lemma Silent(frames: seq<Frame>, n: nat)
    requires SilentControl(frames) && n <= |frames|
    ensures SilentControl(frames[n..])
  {}

  lemma NotSilent(frames: seq<Frame>)
    requires frames != [] && IsControl(frames[0].flags) && |frames[0].payload| > 0
    ensures !SilentControl(frames)
  {}

  /** Reads of any sizes, over any chunking with retries. The bytes of data frames come out in order:
      `kept`, then what remains, is always the concatenation of their payloads. Nothing else comes
      out where no read was to leak, as where control frames have no payload. */
  method Session(ghost frames: seq<Frame>, s: Stream, sizes: seq<nat>)
    returns (out: seq<Octet>, ws: WebSocket, ghost kept: seq<Octet>, ghost leaks: nat)
    requires AllPermitted(frames) && s.data == Encode(frames)
    modifies s
    ensures ws.Valid() && ws.Bounded() && kept + ws.Rest() == Payloads(frames) && kept <= Payloads(frames)
    ensures leaks == 0 ==> out == kept
    ensures leaks > 0 ==> |out| > |kept|
    ensures SilentControl(frames) ==> leaks == 0
    ensures ws.frames == [] ==> kept == Payloads(frames)
    // every close frame that was used up has been answered once, and nothing else was sent
    ensures |ws.frames| <= |frames| && s.sent == old(s.sent) + Replies(frames[..|frames| - |ws.frames|])
  {
    hide Encode, Remaining, Payloads, Permitted, WebSocket.Valid, SilentControl, Replies, Recorded, LeakAhead;
    ghost var sent, m := s.sent, 0;
    NoReplies();
    assert frames[..0] == [] && sent + [] == sent && frames[0..] == frames;
    ws := new WebSocket(s, frames);
    out, kept, leaks := [], [], 0;
    RestAll(frames);
    assert [] + Payloads(frames) == Payloads(frames);
    for i := 0 to |sizes|
      invariant ws.Valid() && ws.Bounded() && fresh(ws) && ws.sock == s
      invariant SilentControl(frames) ==> SilentControl(ws.frames) && leaks == 0
      invariant kept + ws.Rest() == Payloads(frames)
      invariant if leaks == 0 then out == kept else |out| > |kept|
      invariant m <= |frames| && ws.frames == frames[m..] && s.sent == sent + Replies(frames[..m])
    {
      ghost var rest, left := ws.Rest(), ws.frames;
      var r, leak, n, _ := ws.Read(sizes[i]);
      RepliesAppend(frames[..m], left[..n]);
      assert frames[..m] + left[..n] == frames[..m + n] && left[n..] == frames[m + n..];
      m := m + n;
      ghost var now := ws.frames;
      if SilentControl(frames) { Silent(left, n); }
      if leak {
        NotSilent(now);
        leaks := leaks + 1;
      }
      if r.Data? {
        out := out + r.bytes;
        if !leak {
          Assoc(kept, r.bytes, ws.Rest());
          kept := kept + r.bytes;
        }
      } else {
        assert [] + ws.Rest() == ws.Rest();
      }
    }
    if ws.frames == [] { RestNone(ws.k); assert kept + [] == kept; }
  }

  lemma NoReplies()
    ensures Replies([]) == []
  {}

  lemma RestNone(k: nat)
    ensures Remaining([], k) == []
  {}

  /** What one call of websocket_write is given: the options byte then in force, and the bytes. */
  datatype Message = Message(opts: Octet, data: seq<Octet>)

  predicate Writable(m: Message) { |m.data| < 0x1_0000 && Opcode(m.opts) < FRAME_CLOSE }

  function FrameOf(m: Message): Frame { Frame(128 + Opcode(m.opts), None, |m.data| >= 126, m.data) }

  function FramesOf(ms: seq<Message>): (fs: seq<Frame>)
    ensures |fs| == |ms| && forall i :: 0 <= i < |ms| ==> fs[i] == FrameOf(ms[i])
  {
    seq(|ms|, i requires 0 <= i < |ms| => FrameOf(ms[i]))
  }

  function Written(ms: seq<Message>): seq<Octet> {
    if ms == [] then [] else ms[0].data + Written(ms[1..])
  }

  lemma WritableIsPermitted(m: Message)
    requires Writable(m)
    ensures var f := FrameOf(m);
            Permitted(f) && !IsControl(f.flags) && Opcode(f.flags) == Opcode(m.opts)
  {}

  lemma {:induction false} WrittenIsPayload(ms: seq<Message>)
    requires forall i :: 0 <= i < |ms| ==> Writable(ms[i])
    ensures Payloads(FramesOf(ms)) == Written(ms)
    decreases |ms|
  {
    if ms == [] {
    } else {
      WritableIsPermitted(ms[0]);
      assert FramesOf(ms)[1..] == FramesOf(ms[1..]);
      WrittenIsPayload(ms[1..]);
    }
  }

  lemma {:induction false} EncodeAppend(a: seq<Frame>, b: seq<Frame>)
    requires AllPermitted(a) && AllPermitted(b)
    ensures AllPermitted(a + b) && Encode(a + b) == Encode(a) + Encode(b)
    decreases |a|
  {
    hide Header, Options, Body, Permitted;
    if a == [] {
      assert a + b == b;
    } else {
      assert (a + b)[1..] == a[1..] + b;
      EncodeAppend(a[1..], b);
      var h, o, d := Header(a[0]), Options(a[0]), Body(a[0]);
      FourParts(h, o, d, Encode(a[1..]), Encode(b));
    }
  }

  lemma FourParts(a: seq<Octet>, b: seq<Octet>, c: seq<Octet>, d: seq<Octet>, e: seq<Octet>)
    ensures a + (b + (c + (d + e))) == (a + (b + (c + d))) + e
  {}

  /** Any sequence of writes puts the encoding of their frames on the stream. */
  method WriteAll(s: Stream, ms: seq<Message>)
    requires forall i :: 0 <= i < |ms| ==> Writable(ms[i])
    modifies s
    ensures AllPermitted(FramesOf(ms)) && s.sent == old(s.sent) + Encode(FramesOf(ms))
  {
    hide Encode, Permitted;
    ghost var start := s.sent;
    ghost var fs := FramesOf(ms);
    forall i | 0 <= i < |ms| ensures Permitted(fs[i]) { WritableIsPermitted(ms[i]); }
    EncodeNone();
    assert fs[..0] == [] && start + [] == start;
    for i := 0 to |ms|
      invariant s.sent == start + Encode(fs[..i])
    {
      Write(s, ms[i].opts, ms[i].data);
      EncodeAppend(fs[..i], [fs[i]]);
      assert fs[..i] + [fs[i]] == fs[..i + 1];
      assert (start + Encode(fs[..i])) + Encode([fs[i]]) == start + (Encode(fs[..i]) + Encode([fs[i]]));
    }
    assert fs[..|ms|] == fs;
  }

  lemma EncodeNone()
    ensures Encode([]) == []
  {}

  /** What one read gave, and the opcode on record then. */
  datatype Piece = Piece(bytes: seq<Octet>, opcode: nat)

  function Together(pieces: seq<Piece>): seq<Octet> {
    if pieces == [] then [] else Together(pieces[..|pieces| - 1]) + pieces[|pieces| - 1].bytes
  }

  /** The piece is part of what one write was given, and carries the opcode of the last write up to
      that one which was not a continuation. */
  ghost predicate PartOf(p: Piece, ms: seq<Message>, w: nat) {
    && w < |ms| && p.opcode == Recorded(0, FramesOf(ms)[..w + 1])
    && exists at: nat :: Slice(ms[w].data, at, p.bytes)
  }

  predicate Slice(data: seq<Octet>, at: nat, part: seq<Octet>) {
    at + |part| <= |data| && part == data[at..at + |part|]
  }

  /** A piece of a write that was not a continuation carries that write's opcode. */
  lemma PieceOpcode(p: Piece, ms: seq<Message>, w: nat)
    requires PartOf(p, ms, w) && Writable(ms[w]) && Opcode(ms[w].opts) != FRAME_CONT
    ensures p.opcode == Opcode(ms[w].opts)
  {
    RecordedNext(0, FramesOf(ms), w);
    WritableIsPermitted(ms[w]);
  }

  /** The record over several reads: a header that was taken before may be taken again. */
  lemma {:induction false} RecordedOn(opcode: nat, frames: seq<Frame>, m: nat, taken: bool, c: nat, before: nat)
    requires m + c <= |frames| && (taken ==> c > 0)
    requires before == Recorded(opcode, frames[..if taken then m + 1 else m])
    ensures Recorded(before, frames[m..][..c]) == Recorded(opcode, frames[..m + c])
    decreases c
  {
    hide Recorded, Opcode;
    var part := frames[m..][..c];
    if c == 0 {
      RecordedStart(before, part);
    } else if c == 1 {
      assert part == [frames[m]];
      RecordedOnce(opcode, frames, m, before, !taken);
    } else {
      var x := frames[m + c - 1];
      RecordedOn(opcode, frames, m, taken, c - 1, before);
      assert part == frames[m..][..c - 1] + [x];
      assert frames[..m + c] == frames[..m + c - 1] + [x];
      RecordedLast(before, frames[m..][..c - 1], x);
      RecordedLast(opcode, frames[..m + c - 1], x);
    }
  }

  lemma RecordedLast(opcode: nat, frames: seq<Frame>, x: Frame)
    ensures Recorded(opcode, frames + [x]) ==
            if Opcode(x.flags) != FRAME_CONT then Opcode(x.flags) else Recorded(opcode, frames)
  {
    assert (frames + [x])[..|frames|] == frames;
  }

  /** The reader stands in the m-th of these frames, with their opcodes on record. */
  ghost predicate Follows(ws: WebSocket, frames: seq<Frame>, m: nat)
    reads ws
  {
    && m <= |frames| && ws.frames == frames[m..] && (ws.state != FRAME_HEADER ==> m < |frames|)
    && Opcode(ws.wsFlags) == Recorded(0, frames[..m + Taken(ws.state)])
  }

  /** One read, seen from the whole sequence of frames: any bytes are a piece of frame `w`. */
  method ReadOn(ws: WebSocket, ghost frames: seq<Frame>, ghost m: nat, size: nat)
    returns (r: ReadResult, ghost leak: bool, ghost next: nat, ghost w: nat)
    requires ws.Valid() && ws.Bounded() && Follows(ws, frames, m)
    modifies ws, ws.sock
    ensures ws.Valid() && ws.Bounded() && Follows(ws, frames, next)
    ensures r.Data? ==> w < |frames| && Opcode(ws.wsFlags) == Recorded(0, frames[..w + 1])
    ensures r.Data? ==> exists at: nat :: Slice(frames[w].payload, at, r.bytes)
    ensures leak <==> r.Data? && IsControl(frames[w].flags)
    ensures !leak ==> old(ws.Rest()) == (if r.Data? then r.bytes else []) + ws.Rest()
  {
    hide Remaining, Payloads, WebSocket.Valid, WebSocket.WillLeak, Replies, LeakAhead, Recorded, IsControl, Slice, Opcode;
    ghost var taken, before := ws.state != FRAME_HEADER, Opcode(ws.wsFlags);
    ghost var n, from;
    r, leak, n, from := ws.Read(size);
    next, w := m + n, m + from;
    RecordedOn(0, frames, m, taken, n + Taken(ws.state), before);
    Suffix(frames, m, n);
    if r.Data? {
      RecordedOn(0, frames, m, taken, from + 1, before);
      assert frames[m..][from] == frames[w];
    }
  }

  lemma Suffix<T>(s: seq<T>, m: nat, n: nat)
    requires m + n <= |s|
    ensures s[m..][n..] == s[m + n..]
  {}

  /** One read of what these writes emitted: nothing, or a piece of write `w`. */
  method ReadPiece(ws: WebSocket, ghost ms: seq<Message>, ghost m: nat, size: nat)
    returns (p: Option<Piece>, ghost next: nat, ghost w: nat)
    requires (forall i :: 0 <= i < |ms| ==> Writable(ms[i])) && ws.Valid() && ws.Bounded() && Follows(ws, FramesOf(ms), m)
    modifies ws, ws.sock
    ensures ws.Valid() && ws.Bounded() && Follows(ws, FramesOf(ms), next)
    ensures old(ws.Rest()) == (if p.Some? then p.value.bytes else []) + ws.Rest()
    ensures p.Some? ==> PartOf(p.value, ms, w)
  {
    hide Remaining, WebSocket.Valid, Follows, Recorded, IsControl, Slice, Opcode, Writable;
    var r;
    ghost var leak;
    r, leak, next, w := ReadOn(ws, FramesOf(ms), m, size);
    p := None;
    if r.Data? {
      WritableIsPermitted(ms[w]);
      p := Some(Piece(r.bytes, Opcode(ws.wsFlags)));
    }
  }

  /** A reader on a stream that holds what these writes emitted. */
  method Connect(ms: seq<Message>, plan: seq<Chunk>) returns (ws: WebSocket)
    requires forall i :: 0 <= i < |ms| ==> Writable(ms[i])
    ensures ws.Valid() && ws.Bounded() && fresh(ws) && fresh(ws.sock)
    ensures Follows(ws, FramesOf(ms), 0) && ws.Rest() == Written(ms)
  {
    hide Encode, Remaining, Payloads, Permitted, WebSocket.Valid, Recorded;
    var writer := new Stream([], []);
    WriteAll(writer, ms);
    ghost var frames := FramesOf(ms);
    assert [] + Encode(frames) == Encode(frames);
    var s := new Stream(writer.sent, plan);
    ws := new WebSocket(s, frames);
    RestAll(frames);
    WrittenIsPayload(ms);
    assert frames[0..] == frames && frames[..0] == [];
    RecordedStart(0, frames[..0]);
  }

  lemma Assoc(a: seq<Octet>, b: seq<Octet>, c: seq<Octet>)
    ensures a + (b + c) == (a + b) + c
  {}

  /** A peer that reads what any writes emitted, in any pieces and by reads of any sizes, gets the
      written bytes in order and nothing else, each piece from one write and with its opcode. */
  method Exchange(ms: seq<Message>, plan: seq<Chunk>, sizes: seq<nat>)
    returns (pieces: seq<Piece>, ws: WebSocket, ghost from: seq<nat>)
    requires forall i :: 0 <= i < |ms| ==> Writable(ms[i])
    ensures ws.Valid() && ws.Bounded() && Together(pieces) + ws.Rest() == Written(ms)
    ensures ws.frames == [] ==> Together(pieces) == Written(ms)
    ensures |from| == |pieces| && forall i :: 0 <= i < |pieces| ==> PartOf(pieces[i], ms, from[i])
  {
    hide Remaining, WebSocket.Valid, Together, PartOf, Follows, Written, Writable;
    ws := Connect(ms, plan);
    pieces, from := [], [];
    ghost var m := 0;
    NothingTogether();
    assert [] + Written(ms) == Written(ms);
    for i := 0 to |sizes|
      invariant ws.Valid() && ws.Bounded() && fresh(ws) && fresh(ws.sock) && m >= 0 && Follows(ws, FramesOf(ms), m)
      invariant Together(pieces) + ws.Rest() == Written(ms)
      invariant |from| == |pieces| && forall i :: 0 <= i < |pieces| ==> PartOf(pieces[i], ms, from[i])
    {
      ghost var w;
      var p;
      p, m, w := ReadPiece(ws, ms, m, sizes[i]);
      if p.Some? {
        TogetherNext(pieces, p.value);
        Assoc(Together(pieces), p.value.bytes, ws.Rest());
        pieces, from := pieces + [p.value], from + [w];
      } else {
        assert [] + ws.Rest() == ws.Rest();
      }
    }
    if ws.frames == [] { RestNone(ws.k); assert Together(pieces) + [] == Together(pieces); }
  }

  lemma NothingTogether()
    ensures Together([]) == []
  {}

  lemma TogetherNext(pieces: seq<Piece>, p: Piece)
    ensures Together(pieces + [p]) == Together(pieces) + p.bytes
  {
    assert (pieces + [p])[..|pieces|] == pieces;
  }

  /** A masked ping of two bytes, read one byte at a time, hands its first byte to the caller. */
  method PingLeaks(key: seq<Octet>, first: Octet, second: Octet) returns (r: ReadResult)
    requires |key| == 4
    ensures r == Data([first])
  {
    hide Encode, Masked, LeakAhead, Remaining, Replies, Recorded, WebSocket.Valid, Slice;
    ghost var ping := Frame(0x89, Some(key), false, [first, second]);
    PingOnWire(ping);
    PingWillLeak(ping);
    var s := new Stream([0x89, 0x82] + key + Masked(key, [first, second]), [Give(2), Give(4), Give(1)]);
    var ws := new WebSocket(s, [ping]);
    ghost var leak, n, from;
    r, leak, n, from := ws.Read(1);
    FirstOfTwo(first, second, r.bytes);
  }

  lemma FirstOfTwo(first: Octet, second: Octet, part: seq<Octet>)
    requires Slice([first, second], 0, part) && |part| == 1
    ensures part == [first]
  {}

  lemma PingOnWire(ping: Frame)
    requires Permitted(ping) && ping.flags == 0x89 && ping.mask.Some? && !ping.ext && |ping.payload| == 2
    ensures Encode([ping]) == [0x89, 0x82] + ping.mask.value + Masked(ping.mask.value, ping.payload)
  {
    hide Masked;
    EncodeOne(ping);
  }

  lemma PingWillLeak(ping: Frame)
    requires Permitted(ping) && ping.flags == 0x89 && ping.mask.Some? && !ping.ext && |ping.payload| == 2
    ensures LeakAhead([ping], 0, [Give(2), Give(4), Give(1)], 1)
  {
    var p1, p2 := [Give(4), Give(1)], [Give(1)];
    assert Later([Give(2), Give(4), Give(1)]) == p1 && Later(p1) == p2;
    assert |Options(ping)| == 4;
    assert LeakAhead([ping], 6, p2, 1);
    assert LeakAhead([ping], 2, p1, 1);
  }

  // ---------- the wire format, byte by byte ----------

  /** Section 5.2 of RFC 6455: the length in seven bits, or 126 and then sixteen bits with the high
      byte first; the top bit of the second byte announces the key, which comes last. */
  lemma HeadIs(f: Frame)
    requires Permitted(f)
    ensures var (h, o) := (Header(f), Options(f));
            && |h| == 2 && h[0] == f.flags
            && h[1] / 128 == (if f.mask.Some? then 1 else 0)
            && h[1] % 128 == (if f.ext then 126 else |f.payload|)
            && |o| == (if f.ext then 2 else 0) + (if f.mask.Some? then 4 else 0)
            && (f.ext ==> Value(o[..2]) == |f.payload|)
            && (f.mask.Some? ==> o[|o| - 4..] == f.mask.value)
  {
    var o := Options(f);
    if f.ext {
      assert o[..2] == [|f.payload| / 256, |f.payload| % 256];
      TwoBytes(|f.payload| / 256, |f.payload| % 256);
    }
  }

  lemma TwoBytes(a: Octet, b: Octet)
    ensures Value([a, b]) == 256 * a + b
  {
    assert [a, b][..1] == [a] && [a][..0] == [];
    assert Value([a]) == 256 * Value([]) + a;
  }

  /** Section 5.3: each bit of a masked byte is flipped exactly where the key byte has a bit. */
  lemma BodyIs(f: Frame, i: nat, bit: nat)
    requires Permitted(f) && i < |f.payload| && bit < 8
    ensures |Body(f)| == |f.payload|
    ensures f.mask == None ==> Body(f)[i] == f.payload[i]
    ensures f.mask.Some? ==>
      BitOf(Body(f)[i], bit) == if BitOf(f.mask.value[i % 4], bit) == 1 then 1 - BitOf(f.payload[i], bit) else BitOf(f.payload[i], bit)
  {
    hide Xor;
    if f.mask.Some? { XorBit(f.payload[i], f.mask.value[i % 4], bit); } else { XorZero(f.payload[i]); }
  }

  const HELLO: seq<Octet> := [0x48, 0x65, 0x6c, 0x6c, 0x6f]

  /** The examples of section 5.7 of RFC 6455. */
  lemma StandardExamples()
    ensures Encode([Frame(0x81, None, false, HELLO)]) == [0x81, 0x05] + HELLO
    ensures Encode([Frame(0x81, Some([0x37, 0xfa, 0x21, 0x3d]), false, HELLO)]) ==
            [0x81, 0x85, 0x37, 0xfa, 0x21, 0x3d, 0x7f, 0x9f, 0x4d, 0x51, 0x58]
    ensures 128 + Opcode(FRAME_TXT) == 0x81
    ensures IsControl(0x88) && IsControl(0x89) && IsControl(0x8a) && !IsControl(0x80) && !IsControl(0x81) && !IsControl(0x82)
  {
    hide Encode, Masked, Xor;
    var plain := Frame(0x81, None, false, HELLO);
    var masked := Frame(0x81, Some([0x37, 0xfa, 0x21, 0x3d]), false, HELLO);
    EncodeOne(plain);
    PlainBody(plain);
    EncodeOne(masked);
    HelloMasked();
    assert Body(masked) == [0x7f, 0x9f, 0x4d, 0x51, 0x58];
  }

  /** What answers a close frame is an empty close frame. */
  lemma ReplyIs(f: Frame)
    ensures Reply(f) == if Opcode(f.flags) == 8 then Encode([Frame(0x88, None, false, [])]) else []
  {
    EncodeOne(Frame(0x88, None, false, []));
  }

  lemma HelloMasked()
    ensures Masked([0x37, 0xfa, 0x21, 0x3d], HELLO) == [0x7f, 0x9f, 0x4d, 0x51, 0x58]
  {
    hide Xor;
    HelloLetters();
    var m := Masked([0x37, 0xfa, 0x21, 0x3d], HELLO);
    assert m[0] == 0x7f && m[1] == 0x9f && m[2] == 0x4d && m[3] == 0x51 && m[4] == 0x58;
  }

  lemma XorIs(a: Octet, b: Octet, r: Octet)
    requires r == (a + b) % 2 + 2 * ((a / 2 + b / 2) % 2) + 4 * ((a / 4 + b / 4) % 2) + 8 * ((a / 8 + b / 8) % 2)
            + 16 * ((a / 16 + b / 16) % 2) + 32 * ((a / 32 + b / 32) % 2) + 64 * ((a / 64 + b / 64) % 2) + 128 * ((a / 128 + b / 128) % 2)
    ensures Xor(a, b) == r
  {
    hide Xor;
    XorSum(a, b);
  }

  lemma HelloLetters()
    ensures Xor(0x48, 0x37) == 0x7f && Xor(0x65, 0xfa) == 0x9f && Xor(0x6c, 0x21) == 0x4d && Xor(0x6c, 0x3d) == 0x51 && Xor(0x6f, 0x37) == 0x58
  {
    hide Xor;
    XorIs(0x48, 0x37, 0x7f);
    XorIs(0x65, 0xfa, 0x9f);
    XorIs(0x6c, 0x21, 0x4d);
    XorIs(0x6c, 0x3d, 0x51);
    XorIs(0x6f, 0x37, 0x58);
  }
}
