/** Counter mode of extmod/modcryptolib.c:145-166 (section 6.5 of NIST SP 800-38A). The block
    cipher is any function from blocks to blocks. */
module AesCtr {
  import opened Octets

  type Block = s: seq<Octet> | |s| == 16 witness [0, 0, 0, 0, 0, 0, 0, 0, 0, 0, 0, 0, 0, 0, 0, 0]

  // ---------- the 128-bit counter as a number ----------

  /** The k-th counter block after iv: (iv + k) mod 2^128. */
  function Counter(iv: Block, k: nat): Block { Digits(Value(iv) + k, 16) }

  lemma CounterIsModular(iv: Block, k: nat)
    ensures Value(Counter(iv, k)) == (Value(iv) + k) % Power256(16)
    ensures Counter(iv, 0) == iv
  {
    hide Value, Digits, Power256;
    ValueOfDigits(Value(iv) + k, 16);
    DigitsOfValue(iv);
  }

  /** The byte string one step on: the carry runs from the last byte towards the first and is lost
      beyond it. */
  function Successor(s: seq<Octet>): (r: seq<Octet>)
    ensures |r| == |s|
  {
    if s == [] then []
    else
      var (front, last) := (s[..|s| - 1], s[|s| - 1]);
      if last == 255 then Successor(front) + [0] else front + [last + 1]
  }

  lemma {:induction false} SuccessorOfDigits(v: nat, n: nat)
    ensures Successor(Digits(v, n)) == Digits(v + 1, n)
  {
    if n == 0 {
    } else {
      var s := Digits(v, n);
      assert s[..n - 1] == Digits(v / 256, n - 1);
      if v % 256 == 255 { SuccessorOfDigits(v / 256, n - 1); }
    }
  }

  /** Where the carry has reached byte i: what becomes of that byte and of those before it. */
  lemma SuccessorAt(s: seq<Octet>, i: nat)
    requires i < |s|
    ensures s[i] == 255 ==> Successor(s[..i + 1]) == Successor(s[..i]) + [0]
    ensures s[i] != 255 ==> Successor(s[..i + 1]) == s[..i] + [s[i] + 1]
  {
    assert s[..i + 1][..i] == s[..i];
  }

  /** The carry has reached byte i: the bytes up to it are as they were, those behind it are done. */
  ghost predicate Carried(was: seq<Octet>, now: seq<Octet>, i: int) {
    && -1 <= i < |was| == |now| && now[..i + 1] == was[..i + 1]
    && Successor(was) == Successor(was[..i + 1]) + now[i + 1..]
  }

  lemma CarryStart(was: seq<Octet>)
    ensures Carried(was, was, |was| - 1)
  {
    hide Successor;
    assert was[..|was|] == was && Successor(was) + [] == Successor(was);
  }

  /** One turn of the increment: the carry goes on with a zero behind it, or the sum is complete. */
  lemma CarryStep(was: seq<Octet>, now: seq<Octet>, i: nat)
    requires i < |now| && Carried(was, now, i)
    ensures now[i] == 255 ==> Carried(was, now[i := 0], i - 1)
    ensures now[i] != 255 ==> Successor(was) == now[i := now[i] + 1]
  {
    hide Successor;
    assert now[i] == was[..i + 1][i];
    SuccessorAt(was, i);
    assert now[..i] == now[..i + 1][..i] == was[..i + 1][..i] == was[..i];
    if now[i] == 255 {
      var t := now[i := 0];
      assert t[..i] == now[..i] && t[i..] == [0] + now[i + 1..];
    } else {
      var t := now[i := now[i] + 1];
      assert t == now[..i] + [now[i] + 1] + now[i + 1..];
    }
  }

  /** A carry out of the first byte is lost. */
  lemma CarryLost(was: seq<Octet>, now: seq<Octet>)
    requires Carried(was, now, -1)
    ensures Successor(was) == now
  {
    assert was[..0] == [] && now[0..] == now;
  }

  // ---------- the keystream ----------

  /** Byte j of the keystream. */
  function KeyByte(cipher: Block -> Block, iv: Block, j: nat): Octet {
    cipher(Counter(iv, j / 16))[j % 16]
  }

  /** The data from stream position pos on, under the keystream. */
  function Crypt(cipher: Block -> Block, iv: Block, pos: nat, data: seq<Octet>): (r: seq<Octet>)
    ensures |r| == |data|
  {
    seq(|data|, i requires 0 <= i < |data| => Xor(data[i], KeyByte(cipher, iv, pos + i)))
  }

  /** Block k of the data is enciphered with the enciphered counter IV + k, the first with IV itself. */
  lemma BlockByBlock(cipher: Block -> Block, iv: Block, data: seq<Octet>, k: nat, i: nat)
    requires i < 16 && 16 * k + i < |data|
    ensures Crypt(cipher, iv, 0, data)[16 * k + i] == Xor(data[16 * k + i], cipher(Counter(iv, k))[i])
    ensures k == 0 ==> Crypt(cipher, iv, 0, data)[i] == Xor(data[i], cipher(iv)[i])
  {
    hide Xor, Counter;
    assert (16 * k + i) / 16 == k && (16 * k + i) % 16 == i;
    CounterIsModular(iv, 0);
  }

  lemma CryptAppend(cipher: Block -> Block, iv: Block, pos: nat, a: seq<Octet>, b: seq<Octet>)
    ensures Crypt(cipher, iv, pos, a + b) == Crypt(cipher, iv, pos, a) + Crypt(cipher, iv, pos + |a|, b)
  {
    hide Xor, KeyByte;
    var both, apart := Crypt(cipher, iv, pos, a + b), Crypt(cipher, iv, pos, a) + Crypt(cipher, iv, pos + |a|, b);
    forall i | 0 <= i < |both| ensures both[i] == apart[i] {
      if i >= |a| { assert pos + |a| + (i - |a|) == pos + i; }
    }
  }

  /** Deciphering is enciphering from the same position. */
  lemma CryptTwice(cipher: Block -> Block, iv: Block, pos: nat, data: seq<Octet>)
    ensures Crypt(cipher, iv, pos, Crypt(cipher, iv, pos, data)) == data
  {
    hide Xor, KeyByte;
    var once := Crypt(cipher, iv, pos, data);
    forall i | 0 <= i < |data| ensures Crypt(cipher, iv, pos, once)[i] == data[i] {
      XorTwice(data[i], KeyByte(cipher, iv, pos + i));
    }
  }

  function Joined(chunks: seq<seq<Octet>>): seq<Octet> {
    if chunks == [] then [] else Joined(chunks[..|chunks| - 1]) + chunks[|chunks| - 1]
  }

  /** How many blocks have been enciphered, one byte further on. */
  lemma NextPosition(pos: nat)
    ensures (pos + 1) % 16 == (pos % 16 + 1) % 16
    ensures pos % 16 == 0 ==> (pos + 15) / 16 == pos / 16
    ensures (pos + 1 + 15) / 16 == pos / 16 + 1
    ensures pos % 16 != 0 ==> (pos + 15) / 16 == pos / 16 + 1
    ensures (pos + 1) % 16 != 0 ==> (pos + 1) / 16 == pos / 16
  {
  }

  lemma KeyByteAt(cipher: Block -> Block, iv: Block, j: nat)
    ensures KeyByte(cipher, iv, j) == cipher(Counter(iv, j / 16))[j % 16]
  {
  }

  // ---------- the cipher object ----------

  class Aes {
    const cipher: Block -> Block
    const counter: array<Octet>
    var encryptedCounter: Block
    var offset: nat
    ghost const iv: Block
    /** How many bytes have been processed. */
    ghost var pos: nat

    ghost predicate Valid()
      reads this, counter
    {
      && counter.Length == 16
      && offset == pos % 16
      && counter[..] == Counter(iv, (pos + 15) / 16)
      && (offset != 0 ==> encryptedCounter == cipher(Counter(iv, pos / 16)))
    }

    constructor (cipher: Block -> Block, iv: Block)
      ensures Valid() && fresh(counter)
      ensures this.cipher == cipher && this.iv == iv && pos == 0
    {
      this.cipher := cipher;
      this.iv := iv;
      this.pos := 0;
      this.offset := 0;
      this.encryptedCounter := iv;
      this.counter := new Octet[16](i requires 0 <= i < 16 => iv[i]);
      new;
      CounterIsModular(iv, 0);
      assert counter[..] == iv;
    }

    /** Increments the counter bytes in place. */
    method Increment()
      requires counter.Length == 16
      modifies counter
      ensures counter[..] == Successor(old(counter[..]))
    {
      hide Successor;
      ghost var was := counter[..];
      ghost var now := was;
      var i := 15;
      var carry := true;
      CarryStart(was);
      while i >= 0 && carry
        invariant -1 <= i <= 15 && now == counter[..]
        invariant carry ==> Carried(was, now, i)
        invariant !carry ==> now == Successor(was)
      {
        var up: int := counter[i];
        CarryStep(was, now, i);
        counter[i] := (up + 1) % 256;
        carry := counter[i] == 0;
        now := now[i := (up + 1) % 256];
        i := i - 1;
      }
      if carry { CarryLost(was, now); }
    }

    /** The work done where the cached block is used up. */
    method NextBlock()
      requires counter.Length == 16 && counter[..] == Counter(iv, pos / 16)
      modifies counter, this`encryptedCounter
      ensures counter[..] == Counter(iv, pos / 16 + 1)
      ensures encryptedCounter == cipher(Counter(iv, pos / 16))
    {
      encryptedCounter := cipher(counter[..]);
      Increment();
      SuccessorOfDigits(Value(iv) + pos / 16, 16);
    }

    /** Enciphers or deciphers input into output, which may be the same buffer. */
    method Process(input: array<Octet>, output: array<Octet>)
      requires Valid() && input.Length <= output.Length
      requires counter != input && counter != output
      modifies this`encryptedCounter, this`offset, this`pos, counter, output
      ensures Valid() && pos == old(pos) + input.Length
      ensures output[..input.Length] == Crypt(cipher, iv, old(pos), old(input[..]))
      ensures output[input.Length..] == old(output[input.Length..])
    {
      hide Xor, Counter, KeyByte;
      ghost var plain := input[..];
      ghost var start := pos;
      var n := offset;
      var k := 0;
      while k < input.Length
        invariant 0 <= k <= input.Length
        invariant pos == start + k && n == pos % 16
        invariant counter[..] == Counter(iv, (pos + 15) / 16)
        invariant n != 0 ==> encryptedCounter == cipher(Counter(iv, pos / 16))
        invariant forall i :: 0 <= i < k ==> output[i] == Xor(plain[i], KeyByte(cipher, iv, start + i))
        invariant forall i :: k <= i < input.Length ==> input[i] == plain[i]
        invariant output[input.Length..] == old(output[input.Length..])
      {
        NextPosition(pos);
        if n == 0 { NextBlock(); }
        KeyByteAt(cipher, iv, pos);
        ghost var rest := output[input.Length..];
        output[k] := Xor(input[k], encryptedCounter[n]);
        assert output[input.Length..] == rest;
        n := (n + 1) % 16;
        k := k + 1;
        pos := pos + 1;
      }
      offset := n;
    }
  }

  method Send(aes: Aes, chunk: seq<Octet>) returns (out: seq<Octet>)
    requires aes.Valid()
    modifies aes, aes.counter
    ensures aes.Valid() && aes.pos == old(aes.pos) + |chunk|
    ensures out == Crypt(aes.cipher, aes.iv, old(aes.pos), chunk)
  {
    var buffer := new Octet[|chunk|](i requires 0 <= i < |chunk| => chunk[i]);
    assert buffer[..] == chunk;
    aes.Process(buffer, buffer);
    out := buffer[..];
  }

  /** Any way of cutting the data into calls gives what one call on all of it gives. */
  method SendAll(aes: Aes, chunks: seq<seq<Octet>>) returns (out: seq<Octet>)
    requires aes.Valid()
    modifies aes, aes.counter
    ensures aes.Valid() && aes.pos == old(aes.pos) + |Joined(chunks)|
    ensures out == Crypt(aes.cipher, aes.iv, old(aes.pos), Joined(chunks))
  {
    hide Crypt, Counter, Xor, Aes.Valid;
    out := [];
    for i := 0 to |chunks|
      invariant aes.Valid() && aes.pos == old(aes.pos) + |Joined(chunks[..i])|
      invariant out == Crypt(aes.cipher, aes.iv, old(aes.pos), Joined(chunks[..i]))
    {
      var piece := Send(aes, chunks[i]);
      assert chunks[..i + 1][..i] == chunks[..i];
      CryptAppend(aes.cipher, aes.iv, old(aes.pos), Joined(chunks[..i]), chunks[i]);
      out := out + piece;
    }
    assert chunks[..|chunks|] == chunks;
  }

  lemma PrefixGrows(s: seq<Octet>, m: nat, n: nat)
    requires m + n <= |s|
    ensures s[..m] + s[m..m + n] == s[..m + n]
  {}

  /** Processes a message from the start in pieces of these sizes, and then the rest of it. */
  method SendInPieces(aes: Aes, message: seq<Octet>, sizes: seq<nat>) returns (out: seq<Octet>)
    requires aes.Valid() && aes.pos == 0
    modifies aes, aes.counter
    ensures aes.Valid() && out == Crypt(aes.cipher, aes.iv, 0, message)
  {
    hide Crypt, Aes.Valid;
    out := [];
    var done := 0;
    for i := 0 to |sizes|
      invariant aes.Valid() && aes.pos == done && 0 <= done <= |message|
      invariant out == Crypt(aes.cipher, aes.iv, 0, message[..done])
    {
      var left := |message| - done;
      var size := if sizes[i] < left then sizes[i] else left;
      var piece := Send(aes, message[done..done + size]);
      CryptAppend(aes.cipher, aes.iv, 0, message[..done], message[done..done + size]);
      PrefixGrows(message, done, size);
      out, done := out + piece, done + size;
    }
    var piece := Send(aes, message[done..]);
    CryptAppend(aes.cipher, aes.iv, 0, message[..done], message[done..]);
    assert message[..done] + message[done..] == message;
    out := out + piece;
  }

  /** A message enciphered in any chunks and deciphered in any other chunks, by two objects set up
      with the same key and counter, comes back. */
  method RoundTrip(cipher: Block -> Block, iv: Block, chunks: seq<seq<Octet>>, sizes: seq<nat>)
    returns (back: seq<Octet>)
    ensures back == Joined(chunks)
  {
    hide Crypt, Aes.Valid;
    var sender := new Aes(cipher, iv);
    var secret := SendAll(sender, chunks);
    var receiver := new Aes(cipher, iv);
    back := SendInPieces(receiver, secret, sizes);
    CryptTwice(cipher, iv, 0, Joined(chunks));
  }
}
