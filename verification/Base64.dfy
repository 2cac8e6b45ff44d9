/** Base64 (section 4 of RFC 4648) as extmod/modbinascii.c:52-168 reads and writes it. */
module Base64 {
  import opened Common
  import opened Octets

  type Six = n: int | 0 <= n < 64

  const PAD: Octet := 61
  const NEWLINE: Octet := 10

  // ---------- the alphabet ----------

  /** The number a character of the alphabet stands for, or -1. */
  function Sextet(ch: Octet): (v: int)
    ensures -1 <= v < 64
  {
    if 65 <= ch <= 90 then ch - 65
    else if 97 <= ch <= 122 then ch - 97 + 26
    else if 48 <= ch <= 57 then ch - 48 + 52
    else if ch == 43 then 62
    else if ch == 47 then 63
    else -1
  }

  /** The second pass of the encoder on one byte; 64 stands for padding. */
  function Letter(v: Octet): (ch: Octet)
    requires v <= 64
    ensures v < 64 ==> Sextet(ch) == v
    ensures v == 64 ==> ch == PAD
  {
    if v < 26 then v + 65
    else if v < 52 then v + 97 - 26
    else if v < 62 then v - 4
    else if v == 62 then 43
    else if v == 63 then 47
    else PAD
  }

  /** Table 1 of RFC 4648, in the order of the values. */
  function Alphabet(): seq<Octet> {
    seq(26, i requires 0 <= i < 26 => 65 + i) + seq(26, i requires 0 <= i < 26 => 97 + i)
    + seq(10, i requires 0 <= i < 10 => 48 + i) + [43, 47]
  }

  /** The decoder knows exactly the letters of the table, and their values. */
  lemma SextetIsPlace(ch: Octet)
    ensures |Alphabet()| == 64 && PAD !in Alphabet() && NEWLINE !in Alphabet()
    ensures Sextet(ch) == -1 <==> ch !in Alphabet()
    ensures Sextet(ch) != -1 ==> Alphabet()[Sextet(ch)] == ch
  {
    if Sextet(ch) != -1 { assert Alphabet()[Sextet(ch)] == ch; }
  }

  function Letters(s: seq<Six>): (t: seq<Octet>)
    ensures |t| == |s|
  {
    seq(|s|, i requires 0 <= i < |s| => Letter(s[i]))
  }

  // ---------- sextet strings as numbers ----------

  function Power64(n: nat): (p: nat)
    ensures p > 0
  {
    if n == 0 then 1 else 64 * Power64(n - 1)
  }

  function Value64(s: seq<Six>): nat {
    if s == [] then 0 else 64 * Value64(s[..|s| - 1]) + s[|s| - 1]
  }

  function Digits64(v: nat, n: nat): (s: seq<Six>)
    ensures |s| == n
  {
    if n == 0 then [] else Digits64(v / 64, n - 1) + [v % 64]
  }

  lemma {:induction false} ValueOfDigits64(v: nat, n: nat)
    requires v < Power64(n)
    ensures Value64(Digits64(v, n)) == v
  {
    if n == 0 {
    } else {
      ValueOfDigits64(v / 64, n - 1);
      assert Digits64(v, n)[..n - 1] == Digits64(v / 64, n - 1);
    }
  }

  lemma {:induction false} ValueSmall(s: seq<Octet>)
    ensures Value(s) < Power256(|s|)
  {
    if s == [] {
    } else {
      ValueSmall(s[..|s| - 1]);
    }
  }

  /** Three bytes hold what four sextets hold. */
  lemma {:induction false} PowersAgree(g: nat)
    ensures Power256(3 * g) == Power64(4 * g)
  {
    if g == 0 {
    } else {
      PowersAgree(g - 1);
      assert Power256(3 * g) == 0x100_0000 * Power256(3 * g - 3) by {
        assert Power256(3 * g) == 256 * Power256(3 * g - 1);
        assert Power256(3 * g - 1) == 256 * Power256(3 * g - 2);
      }
      assert Power64(4 * g) == 0x100_0000 * Power64(4 * g - 4) by {
        assert Power64(4 * g) == 64 * Power64(4 * g - 1);
        assert Power64(4 * g - 1) == 64 * Power64(4 * g - 2);
        assert Power64(4 * g - 2) == 64 * Power64(4 * g - 3);
      }
    }
  }

  // ---------- what encoding means ----------

  /** Two to the power of a number of left-over bits. */
  function Scale(bits: nat): (p: nat)
    ensures p > 0
  {
    if bits == 0 then 1 else if bits == 2 then 4 else if bits == 4 then 16 else 64
  }

  /** Zero bits added to fill the last sextet of n bytes. */
  function FillBits(n: nat): nat { if n % 3 == 0 then 0 else if n % 3 == 1 then 4 else 2 }

  /** The bytes' bits and the fill bits, six at a time. */
  function Symbols(data: seq<Octet>): seq<Six> {
    Digits64(Value(data) * Scale(FillBits(|data|)), (8 * |data| + 5) / 6)
  }

  function Padding(n: nat): seq<Octet> {
    if n % 3 == 0 then [] else if n % 3 == 1 then [PAD, PAD] else [PAD]
  }

  function Encode(data: seq<Octet>, newline: bool): seq<Octet> {
    Letters(Symbols(data)) + Padding(|data|) + if newline then [NEWLINE] else []
  }

  // ---------- what decoding means ----------

  /** What has been read: the sextets so far, whether a pad character has come since the last of
      them, and whether the padding is complete. */
  datatype Reading = Reading(sextets: seq<Six>, padded: bool, ended: bool)

  /** Bits of n sextets beyond the last whole byte. */
  function LeftOver(n: nat): nat { 6 * n % 8 }

  function ReadOne(r: Reading, ch: Octet): Reading {
    if r.ended then r
    else if ch == PAD then
      var bits := LeftOver(|r.sextets|);
      if bits == 2 || (bits == 4 && r.padded) then r.(ended := true) else r.(padded := true)
    else if Sextet(ch) == -1 then r
    else Reading(r.sextets + [Sextet(ch)], false, false)
  }

  function Read(text: seq<Octet>): Reading {
    if text == [] then Reading([], false, false)
    else ReadOne(Read(text[..|text| - 1]), text[|text| - 1])
  }

  datatype Error = IncorrectPadding

  /** The whole bytes of the sextets up to the padding, as one number; it is an error if bits are
      left over and no padding accounts for them. */
  function Decode(text: seq<Octet>): Result<seq<Octet>, Error> {
    var r := Read(text);
    var n := |r.sextets|;
    if !r.ended && LeftOver(n) != 0 then Err(IncorrectPadding)
    else Ok(Digits(Value64(r.sextets) / Scale(LeftOver(n)), 6 * n / 8))
  }

  // ---------- properties ----------

  lemma {:induction false} ReadAppend(a: seq<Octet>, b: seq<Octet>, c: seq<Octet>)
    requires Read(a) == Read(b)
    ensures Read(a + c) == Read(b + c)
  {
    if c == [] {
      assert a + c == a && b + c == b;
    } else {
      var front := c[..|c| - 1];
      ReadAppend(a, b, front);
      assert (a + c)[..|a + c| - 1] == a + front;
      assert (b + c)[..|b + c| - 1] == b + front;
    }
  }

  /** Bytes outside the alphabet, other than the pad character, may be inserted anywhere. */
  lemma JunkIsIgnored(a: seq<Octet>, junk: Octet, b: seq<Octet>)
    requires Sextet(junk) == -1 && junk != PAD
    ensures Decode(a + [junk] + b) == Decode(a + b)
  {
    assert (a + [junk])[..|a|] == a;
    ReadAppend(a + [junk], a, b);
  }

  lemma {:induction false} ReadLetters(s: seq<Six>)
    ensures Read(Letters(s)) == Reading(s, false, false)
  {
    if s == [] {
    } else {
      var front := s[..|s| - 1];
      ReadLetters(front);
      assert Letters(s)[..|s| - 1] == Letters(front);
      assert s == front + [s[|s| - 1]];
    }
  }

  lemma ReadLast(text: seq<Octet>, ch: Octet)
    ensures Read(text + [ch]) == ReadOne(Read(text), ch)
  {
    assert (text + [ch])[..|text|] == text;
  }

  lemma ReadPadding(s: seq<Six>, n: nat)
    requires |s| == (8 * n + 5) / 6
    ensures LeftOver(|s|) == FillBits(n) && 6 * |s| / 8 == n
    ensures Read(Letters(s) + Padding(n)).sextets == s
    ensures Read(Letters(s) + Padding(n)).ended <==> FillBits(n) != 0
  {
    var t := Letters(s);
    ReadLetters(s);
    LeftOverFills(n);
    if n % 3 == 0 {
      assert t + Padding(n) == t;
    } else if n % 3 == 1 {
      ReadLast(t, PAD);
      ReadLast(t + [PAD], PAD);
      assert t + Padding(n) == t + [PAD] + [PAD];
    } else {
      ReadLast(t, PAD);
    }
  }

  /** The number of sextets that hold n bytes, by whole groups. */
  lemma SextetCount(n: nat, g: nat)
    requires 3 * g <= n < 3 * g + 3
    ensures FillBits(n) == if n == 3 * g then 0 else if n == 3 * g + 1 then 4 else 2
    ensures (8 * n + 5) / 6 == if n == 3 * g then 4 * g else if n == 3 * g + 1 then 4 * g + 2 else 4 * g + 3
  {
    DivModUnique(n, 3, g, n - 3 * g);
    if n == 3 * g {
      DivModUnique(8 * n + 5, 6, 4 * g, 5);
    } else if n == 3 * g + 1 {
      DivModUnique(8 * n + 5, 6, 4 * g + 2, 1);
    } else {
      DivModUnique(8 * n + 5, 6, 4 * g + 3, 3);
    }
  }

  lemma LeftOverFills(n: nat)
    ensures LeftOver((8 * n + 5) / 6) == FillBits(n)
    ensures 6 * ((8 * n + 5) / 6) / 8 == n
  {
    hide FillBits;
    SextetCount(n, n / 3);
    DivModUnique(6 * ((8 * n + 5) / 6), 8, n, FillBits(n));
  }

  /** n bytes and their fill bits fit exactly into the sextets that hold them. */
  lemma FillPower(n: nat)
    ensures Power256(n) * Scale(FillBits(n)) == Power64((8 * n + 5) / 6)
  {
    hide FillBits;
    var g := n / 3;
    PowersAgree(g);
    SextetCount(n, g);
    if n == 3 * g + 1 {
      assert Power64(4 * g + 2) == 64 * Power64(4 * g + 1);
    } else if n == 3 * g + 2 {
      assert Power256(3 * g + 2) == 256 * Power256(3 * g + 1);
      assert Power64(4 * g + 3) == 64 * Power64(4 * g + 2);
      assert Power64(4 * g + 2) == 64 * Power64(4 * g + 1);
    }
  }

  lemma MulStrict(a: nat, b: nat, c: nat)
    requires a < b && 0 < c
    ensures a * c < b * c
  {
  }

  lemma SymbolsFit(data: seq<Octet>)
    ensures Value64(Symbols(data)) == Value(data) * Scale(FillBits(|data|))
  {
    hide Value, Power256, Scale, FillBits, Power64, Digits64, Value64;
    var n := |data|;
    ValueSmall(data);
    FillPower(n);
    MulStrict(Value(data), Power256(n), Scale(FillBits(n)));
    ValueOfDigits64(Value(data) * Scale(FillBits(n)), (8 * n + 5) / 6);
  }

  /** Decoding what was encoded gives the bytes back, with or without the newline. */
  lemma RoundTrip(data: seq<Octet>, newline: bool)
    ensures Decode(Encode(data, newline)) == Ok(data)
  {
    var s, n := Symbols(data), |data|;
    ReadPadding(s, n);
    var text := Letters(s) + Padding(n);
    if newline {
      JunkIsIgnored(text, NEWLINE, []);
      assert text + [NEWLINE] + [] == Encode(data, newline) && text + [] == text;
    } else {
      assert Encode(data, newline) == text;
    }
    SymbolsFit(data);
    assert Value(data) * Scale(FillBits(n)) / Scale(FillBits(n)) == Value(data);
    DigitsOfValue(data);
  }

  // ---------- the encoder ----------

  lemma DigitsAppend(v: nat, d: Six, m: nat)
    ensures Digits64(v * 64 + d, m + 1) == Digits64(v, m) + [d]
  {
  }

  lemma ValueAt(s: seq<Octet>, p: nat)
    requires p < |s|
    ensures Value(s[..p + 1]) == Value(s[..p]) * 256 + s[p]
  {
    assert s[..p + 1][..p] == s[..p];
  }

  lemma GroupSymbols(s: seq<Octet>, p: nat, m: nat)
    requires p + 3 <= |s|
    ensures Digits64(Value(s[..p + 3]), m + 4) ==
            Digits64(Value(s[..p]), m) + [s[p] / 4, s[p] % 4 * 16 + s[p + 1] / 16, s[p + 1] % 16 * 4 + s[p + 2] / 64, s[p + 2] % 64]
  {
    ValueAt(s, p);
    ValueAt(s, p + 1);
    ValueAt(s, p + 2);
    GroupDigits(Value(s[..p]), s[p], s[p + 1], s[p + 2], m);
  }

  lemma GroupDigits(v: nat, a: Octet, b: Octet, c: Octet, m: nat)
    ensures Digits64(((v * 256 + a) * 256 + b) * 256 + c, m + 4) ==
            Digits64(v, m) + [a / 4, a % 4 * 16 + b / 16, b % 16 * 4 + c / 64, c % 64]
  {
    hide Digits64;
    var x1 := v * 64 + a / 4;
    var x2 := x1 * 64 + (a % 4 * 16 + b / 16);
    var x3 := x2 * 64 + (b % 16 * 4 + c / 64);
    DigitsAppend(v, a / 4, m);
    DigitsAppend(x1, a % 4 * 16 + b / 16, m + 1);
    DigitsAppend(x2, b % 16 * 4 + c / 64, m + 2);
    DigitsAppend(x3, c % 64, m + 3);
    assert x3 * 64 + c % 64 == ((v * 256 + a) * 256 + b) * 256 + c;
  }

  /** The sextets of a single byte after the last whole group. */
  lemma TailSymbols(s: seq<Octet>, g: nat)
    requires |s| == 3 * g + 1
    ensures Symbols(s) == Digits64(Value(s[..3 * g]), 4 * g) + [s[3 * g] / 4, s[3 * g] % 4 * 16]
  {
    hide Digits64, FillBits;
    ValueAt(s, 3 * g);
    assert s[..3 * g + 1] == s;
    SextetCount(|s|, g);
    TailDigits(Value(s[..3 * g]), s[3 * g], 4 * g);
  }

  /** The sextets of two bytes after the last whole group. */
  lemma TailSymbolsTwo(s: seq<Octet>, g: nat)
    requires |s| == 3 * g + 2
    ensures var (a, b) := (s[3 * g], s[3 * g + 1]);
      Symbols(s) == Digits64(Value(s[..3 * g]), 4 * g) + [a / 4, a % 4 * 16 + b / 16, b % 16 * 4]
  {
    hide Digits64, FillBits;
    ValueAt(s, 3 * g);
    ValueAt(s, 3 * g + 1);
    assert s[..3 * g + 2] == s;
    SextetCount(|s|, g);
    TailDigitsTwo(Value(s[..3 * g]), s[3 * g], s[3 * g + 1], 4 * g);
  }

  lemma NoTailSymbols(s: seq<Octet>, g: nat)
    requires |s| == 3 * g
    ensures Symbols(s) == Digits64(Value(s[..3 * g]), 4 * g)
  {
    hide Digits64, FillBits;
    assert s[..3 * g] == s;
    SextetCount(|s|, g);
  }

  lemma TailDigits(v: nat, a: Octet, m: nat)
    ensures Digits64((v * 256 + a) * 16, m + 2) == Digits64(v, m) + [a / 4, a % 4 * 16]
  {
    hide Digits64;
    var x1 := v * 64 + a / 4;
    DigitsAppend(v, a / 4, m);
    DigitsAppend(x1, a % 4 * 16, m + 1);
    assert x1 * 64 + a % 4 * 16 == (v * 256 + a) * 16;
  }

  lemma TailDigitsTwo(v: nat, a: Octet, b: Octet, m: nat)
    ensures Digits64(((v * 256 + a) * 256 + b) * 4, m + 3) == Digits64(v, m) + [a / 4, a % 4 * 16 + b / 16, b % 16 * 4]
  {
    hide Digits64;
    var x1 := v * 64 + a / 4;
    var x2 := x1 * 64 + (a % 4 * 16 + b / 16);
    DigitsAppend(v, a / 4, m);
    DigitsAppend(x1, a % 4 * 16 + b / 16, m + 1);
    DigitsAppend(x2, b % 16 * 4, m + 2);
    assert x2 * 64 + b % 16 * 4 == ((v * 256 + a) * 256 + b) * 4;
  }

  /** The length of the encoded text without the newline. */
  function EncodedLength(n: nat): nat { if n != 0 then ((n - 1) / 3 + 1) * 4 else 0 }

  function Filler(n: nat): seq<Octet> {
    if n % 3 == 0 then [] else if n % 3 == 1 then [64, 64] else [64]
  }

  lemma EncodedLengthOf(n: nat)
    ensures EncodedLength(n) == n / 3 * 4 + if n % 3 == 0 then 0 else 4
  {
  }

  /** The four output bytes of a group of three. */
  method StoreGroup(a: Octet, b: Octet, c: Octet, out: array<Octet>, o: nat)
    requires o + 4 <= out.Length
    modifies out
    ensures out[..o + 4] == old(out[..o]) + [a / 4, a % 4 * 16 + b / 16, b % 16 * 4 + c / 64, c % 64]
  {
    out[o] := a / 4;
    out[o + 1] := a % 4 * 16 + b / 16;
    out[o + 2] := b % 16 * 4 + c / 64;
    out[o + 3] := c % 64;
  }

  /** The four output bytes of the one or two bytes that are left. */
  method StoreTail(tail: seq<Octet>, out: array<Octet>, o: nat)
    requires 1 <= |tail| <= 2 && o + 4 <= out.Length
    modifies out
    ensures |tail| == 1 ==> out[..o + 4] == old(out[..o]) + [tail[0] / 4, tail[0] % 4 * 16] + [64, 64]
    ensures |tail| == 2 ==> out[..o + 4] == old(out[..o]) + [tail[0] / 4, tail[0] % 4 * 16 + tail[1] / 16, tail[1] % 16 * 4] + [64]
  {
    out[o] := tail[0] / 4;
    if |tail| == 2 {
      out[o + 1] := tail[0] % 4 * 16 + tail[1] / 16;
      out[o + 2] := tail[1] % 16 * 4;
    } else {
      out[o + 1] := tail[0] % 4 * 16;
      out[o + 2] := 64;
    }
    out[o + 3] := 64;
  }

  /** The first pass: the sextets as numbers, with 64 for padding. */
  method FirstPass(data: seq<Octet>, out: array<Octet>)
    requires EncodedLength(|data|) <= out.Length
    modifies out
    ensures out[..EncodedLength(|data|)] == Symbols(data) + Filler(|data|)
  {
    hide Value, Digits64, Symbols, EncodedLength;
    EncodedLengthOf(|data|);
    var i, p, o := |data|, 0, 0;
    ghost var g := 0;
    assert Digits64(Value(data[..3 * g]), 4 * g) == [];
    while i >= 3
      invariant 0 <= i && p == |data| - i && p == 3 * g && o == 4 * g
      invariant 0 <= g <= |data| / 3
      invariant out[..4 * g] == Digits64(Value(data[..3 * g]), 4 * g)
    {
      GroupSymbols(data, p, o);
      StoreGroup(data[p], data[p + 1], data[p + 2], out, o);
      i, p, o := i - 3, p + 3, o + 4;
      g := g + 1;
    }
    assert g == |data| / 3 && i == |data| % 3;
    if i != 0 {
      if i == 1 { TailSymbols(data, g); } else { TailSymbolsTwo(data, g); }
      StoreTail(data[p..], out, o);
    } else {
      NoTailSymbols(data, g);
    }
  }

  /** b2a_base64: encodes the bytes, and ends the text with a newline where asked. */
  method B2a(data: seq<Octet>, newline: bool) returns (text: seq<Octet>)
    ensures text == Encode(data, newline)
    ensures |text| == EncodedLength(|data|) + (if newline then 1 else 0)
  {
    hide Symbols, EncodedLength;
    var length := EncodedLength(|data|);
    var out := new Octet[length + (if newline then 1 else 0)];
    FirstPass(data, out);
    ghost var numbers := out[..length];
    var j := 0;
    while j < length
      invariant 0 <= j <= length
      invariant forall k :: 0 <= k < j ==> out[k] == Letter(numbers[k])
      invariant forall k :: j <= k < length ==> out[k] == numbers[k]
    {
      out[j] := Letter(out[j]);
      j := j + 1;
    }
    if newline { out[length] := NEWLINE; }
    text := out[..];
  }

  // ---------- the decoder ----------

  const WORD := 0x1_0000_0000

  /** The 32-bit accumulator after another sextet: (shift << 6) | sextet. */
  function Shifted(shift: nat, sextet: Six): nat { shift * 64 % WORD + sextet }

  /** The low bits of the accumulator survive the loss of its high bits. */
  lemma ShiftedLow(shift: nat, sextet: Six, m: nat, k: nat)
    requires m > 0 && WORD == 64 * m * k
    ensures Shifted(shift, sextet) % (64 * m) == shift % m * 64 + sextet
  {
    var q, r := shift / m, shift % m;
    assert shift == m * q + r;
    var t := shift * 64 / WORD;
    assert Shifted(shift, sextet) == shift * 64 - WORD * t + sextet;
    assert 64 * (m * q) == (64 * m) * q;
    assert WORD * t == (64 * m) * (k * t);
    assert Shifted(shift, sextet) == (64 * m) * (q - k * t) + (r * 64 + sextet);
    DivModUnique(Shifted(shift, sextet), 64 * m, q - k * t, r * 64 + sextet);
  }

  lemma ByteAndRest(w: nat, m: nat, x: nat)
    requires m > 0 && w % (256 * m) == x
    ensures x == w / m % 256 * m + w % m
  {
    var q := w / m;
    assert w == m * q + w % m;
    assert q == 256 * (q / 256) + q % 256;
    assert m * q == (256 * m) * (q / 256) + m * (q % 256);
    MulMonotone(m, q % 256, 255);
    DivModUnique(w, 256 * m, q / 256, m * (q % 256) + w % m);
  }

  /** The number read is the number put out, followed by the pending low bits of the accumulator. */
  ghost predicate Pending(total: nat, v: nat, shift: nat, nbits: nat) {
    total == v * Scale(nbits) + shift % Scale(nbits)
  }

  /** (shift >> nbits) & 0xff */
  function ByteAbove(shift: nat, nbits: nat): Octet { shift / Scale(nbits) % 256 }

  /** One sextet more, where no byte is complete yet. */
  lemma AccumulateBits(v: nat, total: nat, shift: nat, sextet: Six)
    requires Pending(total, v, shift, 0)
    ensures Pending(total * 64 + sextet, v, Shifted(shift, sextet), 6)
  {
    ShiftedLow(shift, sextet, 1, 0x400_0000);
  }

  /** One sextet more, where a byte comes out. */
  lemma AccumulateByte(v: nat, total: nat, shift: nat, sextet: Six, nbits: nat, w: nat, next: nat)
    requires nbits == 2 || nbits == 4 || nbits == 6
    requires Pending(total, v, shift, nbits)
    requires w == Shifted(shift, sextet)
    requires next == v * 256 + ByteAbove(w, nbits - 2)
    ensures Pending(total * 64 + sextet, next, w, nbits - 2)
  {
    if nbits == 2 {
      ShiftedLow(shift, sextet, 4, 0x100_0000);
      ByteAndRest(w, 1, shift % 4 * 64 + sextet);
    } else if nbits == 4 {
      ShiftedLow(shift, sextet, 16, 0x40_0000);
      ByteAndRest(w, 4, shift % 16 * 64 + sextet);
    } else {
      ShiftedLow(shift, sextet, 64, 0x10_0000);
      ByteAndRest(w, 16, shift % 64 * 64 + sextet);
    }
  }

  lemma {:induction false} ReadEnded(text: seq<Octet>, i: nat)
    requires i <= |text| && Read(text[..i]).ended
    ensures Read(text) == Read(text[..i])
    decreases |text| - i
  {
    if i == |text| {
      assert text[..i] == text;
    } else {
      assert text[..i + 1][..i] == text[..i];
      ReadEnded(text, i + 1);
    }
  }

  /** The bytes put out and the bits pending are the sextets read. */
  ghost predicate Accounted(sextets: seq<Six>, out: seq<Octet>, shift: nat, nbits: nat) {
    && 8 * |out| + nbits == 6 * |sextets| && nbits < 8
    && Pending(Value64(sextets), Value(out), shift, nbits)
  }

  lemma ValueAppend(s: seq<Octet>, b: Octet)
    ensures Value(s + [b]) == Value(s) * 256 + b
  {
    assert (s + [b])[..|s|] == s;
  }

  lemma Value64Append(s: seq<Six>, d: Six)
    ensures Value64(s + [d]) == Value64(s) * 64 + d
  {
    assert (s + [d])[..|s|] == s;
  }

  lemma AccountBits(sextets: seq<Six>, out: seq<Octet>, shift: nat, sextet: Six)
    requires Accounted(sextets, out, shift, 0)
    ensures Accounted(sextets + [sextet], out, Shifted(shift, sextet), 6)
  {
    hide Value, Value64, Pending, ByteAbove, Shifted;
    Value64Append(sextets, sextet);
    AccumulateBits(Value(out), Value64(sextets), shift, sextet);
  }

  lemma AccountByte(sextets: seq<Six>, out: seq<Octet>, shift: nat, nbits: nat, sextet: Six, b: Octet)
    requires Accounted(sextets, out, shift, nbits) && nbits != 0
    requires nbits >= 2 && b == ByteAbove(Shifted(shift, sextet), nbits - 2)
    ensures Accounted(sextets + [sextet], out + [b], Shifted(shift, sextet), nbits - 2)
  {
    hide Value, Value64, Pending, ByteAbove, Shifted;
    assert nbits == 2 || nbits == 4 || nbits == 6;
    Value64Append(sextets, sextet);
    ValueAppend(out, b);
    AccumulateByte(Value(out), Value64(sextets), shift, sextet, nbits, Shifted(shift, sextet), Value(out + [b]));
  }

  lemma AccountedNothing()
    ensures Accounted([], [], 0, 0)
  {
  }

  /** Where the sextets are accounted for, the bytes put out are the decoded ones. */
  lemma AccountedDecodes(text: seq<Octet>, sextets: seq<Six>, out: seq<Octet>, shift: nat, nbits: nat)
    requires Accounted(sextets, out, shift, nbits)
    requires Read(text).sextets == sextets && (Read(text).ended || nbits == 0)
    ensures Decode(text) == Ok(out)
  {
    hide Value, Value64, Scale, Read;
    DivModUnique(6 * |sextets|, 8, |out|, nbits);
    DivModUnique(Value64(sextets), Scale(nbits), Value(out), shift % Scale(nbits));
    DigitsOfValue(out);
  }

  lemma ReadNext(text: seq<Octet>, i: nat)
    requires i < |text|
    ensures Read(text[..i + 1]) == ReadOne(Read(text[..i]), text[i])
  {
    assert text[..i + 1][..i] == text[..i];
  }

  lemma BitsPending(n: nat, length: nat, nbits: nat)
    requires 8 * length + nbits == 6 * n && nbits < 8
    ensures LeftOver(n) == nbits && (nbits == 0 || nbits == 2 || nbits == 4 || nbits == 6)
  {
    DivModUnique(6 * n, 8, length, nbits);
  }

  /** a2b_base64: every byte is written within the buffer allocated beforehand. */
  method A2b(text: seq<Octet>) returns (r: Result<seq<Octet>, Error>)
    ensures r == Decode(text)
    ensures r.Ok? ==> |r.value| <= |text| * 3 / 4
  {
    hide Accounted, Shifted, ByteAbove, Read, Decode, LeftOver;
    var out := new Octet[|text| * 3 / 4 + 1];
    var length, shift, nbits, hadpad := 0, 0, 0, false;
    ghost var sextets: seq<Six>, ended := [], false;
    AccountedNothing();
    assert text[..0] == [] && out[..0] == [];
    ReadNothing();
    var i := 0;
    while i < |text|
      invariant 0 <= i <= |text|
      invariant Read(text[..i]) == Reading(sextets, hadpad, false)
      invariant |sextets| <= i && 0 <= nbits < 8 && 8 * length + nbits == 6 * |sextets|
      invariant 0 <= length <= |text| * 3 / 4 && 0 <= shift
      invariant Accounted(sextets, out[..length], shift, nbits) && !ended
    {
      ReadNext(text, i);
      BitsPending(|sextets|, length, nbits);
      var ch := text[i];
      if ch == PAD {
        if nbits == 2 || (nbits == 4 && hadpad) {
          ReadEnded(text, i + 1);
          AccountedDecodes(text, sextets, out[..length], shift, nbits);
          ended := true;
          nbits := 0;
          break;
        }
        hadpad := true;
      }
      i := i + 1;
      var sextet := Sextet(ch);
      if sextet == -1 { continue; }
      hadpad := false;
      ghost var before, was := out[..length], shift;
      shift := Shifted(shift, sextet);
      nbits := nbits + 6;
      if nbits >= 8 {
        nbits := nbits - 8;
        out[length] := ByteAbove(shift, nbits);
        AccountByte(sextets, before, was, nbits + 2, sextet, out[length]);
        assert out[..length + 1] == before + [out[length]];
        length := length + 1;
      } else {
        AccountBits(sextets, before, was, sextet);
      }
      sextets := sextets + [sextet];
    }
    if !ended {
      assert text[..i] == text;
      DecodedAll(text, sextets, out[..length], shift, nbits);
    }
    if nbits != 0 { return Err(IncorrectPadding); }
    r := Ok(out[..length]);
  }

  lemma ReadNothing()
    ensures Read([]) == Reading([], false, false)
  {
  }

  /** The text ran out before its padding was complete. */
  lemma DecodedAll(text: seq<Octet>, sextets: seq<Six>, out: seq<Octet>, shift: nat, nbits: nat)
    requires Accounted(sextets, out, shift, nbits)
    requires Read(text).sextets == sextets && !Read(text).ended
    ensures Decode(text) == if nbits == 0 then Ok(out) else Err(IncorrectPadding)
  {
    BitsPending(|sextets|, |out|, nbits);
    if nbits == 0 { AccountedDecodes(text, sextets, out, shift, nbits); }
  }

  // ---------- the text, group by group ----------

  lemma {:induction false} ValueConcat(a: seq<Octet>, s: seq<Octet>)
    ensures Value(a + s) == Value(a) * Power256(|s|) + Value(s)
    decreases |s|
  {
    if s == [] {
      assert a + s == a;
    } else {
      var n := |s| - 1;
      ValueConcat(a, s[..n]);
      assert (a + s)[..|a| + n] == a + s[..n];
      assert 256 * (Value(a) * Power256(n)) == Value(a) * (256 * Power256(n));
    }
  }

  lemma {:induction false} DigitsSplit(h: nat, v: nat, k: nat, m: nat)
    requires v < Power64(m)
    ensures Digits64(h * Power64(m) + v, k + m) == Digits64(h, k) + Digits64(v, m)
    decreases m
  {
    if m == 0 {
      assert Digits64(h, k) + [] == Digits64(h, k);
    } else {
      var p := Power64(m - 1);
      var x := h * Power64(m) + v;
      assert h * (64 * p) == 64 * (h * p);
      DivModUnique(x, 64, h * p + v / 64, v % 64);
      DigitsSplit(h, v / 64, k, m - 1);
    }
  }

  lemma CountMore(n: nat)
    ensures FillBits(n + 3) == FillBits(n) && (8 * (n + 3) + 5) / 6 == 4 + (8 * n + 5) / 6 && Padding(n + 3) == Padding(n)
  {
    SextetCount(n, n / 3);
    SextetCount(n + 3, n / 3 + 1);
  }

  lemma FirstGroup(a: Octet, b: Octet, c: Octet, rest: seq<Octet>)
    ensures Symbols([a, b, c] + rest) == [a / 4, a % 4 * 16 + b / 16, b % 16 * 4 + c / 64, c % 64] + Symbols(rest)
  {
    hide Value, Power256, Power64, Scale, FillBits, Digits64;
    var n := |rest|;
    var w, v, sc, m := Value([a, b, c]), Value(rest), Scale(FillBits(n)), (8 * n + 5) / 6;
    CountMore(n);
    ValueConcat([a, b, c], rest);
    ValueSmall(rest);
    FillPower(n);
    MulStrict(v, Power256(n), sc);
    Distribute(w, Power256(n), v, sc);
    DigitsSplit(w, v * sc, 4, m);
    ThreeBytes(a, b, c);
  }

  lemma Distribute(w: nat, p: nat, v: nat, sc: nat)
    ensures (w * p + v) * sc == w * (p * sc) + v * sc
  {}

  lemma ThreeBytes(a: Octet, b: Octet, c: Octet)
    ensures Digits64(Value([a, b, c]), 4) == [a / 4, a % 4 * 16 + b / 16, b % 16 * 4 + c / 64, c % 64]
  {
    var s := [a, b, c];
    GroupSymbols(s, 0, 0);
    assert s[..0] == [] && s[..3] == s;
    assert Digits64(Value([]), 0) == [];
  }

  /** Three bytes become four letters, on their own. */
  lemma EncodesByGroups(a: Octet, b: Octet, c: Octet, rest: seq<Octet>, newline: bool)
    ensures Encode([a, b, c] + rest, newline) ==
            [Letter(a / 4), Letter(a % 4 * 16 + b / 16), Letter(b % 16 * 4 + c / 64), Letter(c % 64)] + Encode(rest, newline)
  {
    hide Symbols, Letter;
    FirstGroup(a, b, c, rest);
    CountMore(|rest|);
    var four: seq<Six> := [a / 4, a % 4 * 16 + b / 16, b % 16 * 4 + c / 64, c % 64];
    assert Letters(four + Symbols(rest)) == Letters(four) + Letters(Symbols(rest));
    assert Letters(four) == [Letter(a / 4), Letter(a % 4 * 16 + b / 16), Letter(b % 16 * 4 + c / 64), Letter(c % 64)];
  }

  /** One or two bytes at the end become two or three letters and padding. */
  lemma EncodesTail(a: Octet, b: Octet)
    ensures Encode([], false) == []
    ensures Encode([a], false) == [Letter(a / 4), Letter(a % 4 * 16), PAD, PAD]
    ensures Encode([a, b], false) == [Letter(a / 4), Letter(a % 4 * 16 + b / 16), Letter(b % 16 * 4), PAD]
  {
    hide Letter;
    TailSymbols([a], 0);
    TailSymbolsTwo([a, b], 0);
    assert [a][..0] == [] && [a, b][..0] == [];
    assert Digits64(Value([]), 0) == [];
    assert Symbols([]) == [] by { SextetCount(0, 0); }
    assert Letters([a / 4, a % 4 * 16]) == [Letter(a / 4), Letter(a % 4 * 16)];
    assert Letters([a / 4, a % 4 * 16 + b / 16, b % 16 * 4]) == [Letter(a / 4), Letter(a % 4 * 16 + b / 16), Letter(b % 16 * 4)];
  }

  /** The examples of section 10 of RFC 4648: "", "f", "fo", "foo", "foob". */
  lemma StandardExamples()
    ensures Encode([], false) == []
    ensures Encode([102], false) == [90, 103, 61, 61]
    ensures Encode([102, 111], false) == [90, 109, 56, 61]
    ensures Encode([102, 111, 111], false) == [90, 109, 57, 118]
    ensures Encode([102, 111, 111, 98], false) == [90, 109, 57, 118, 89, 103, 61, 61]
    ensures Encode([102, 111, 111], true) == [90, 109, 57, 118, 10]
  {
    hide Encode;
    EncodesTail(102, 111);
    EncodesTail(98, 97);
    EncodesByGroups(102, 111, 111, [], false);
    EncodesByGroups(102, 111, 111, [98], false);
    EncodesByGroups(102, 111, 111, [], true);
    OnlyNewline();
    assert [102, 111, 111] + [] == [102, 111, 111];
    assert [102, 111, 111] + [98] == [102, 111, 111, 98];
  }

  lemma OnlyNewline()
    ensures Encode([], true) == [NEWLINE]
  {
    SextetCount(0, 0);
  }

  // ---------- which texts decode ----------

  function Pads(k: nat): (t: seq<Octet>)
    ensures |t| == k
  {
    seq(k, _ => PAD)
  }

  lemma LeftOverIs(n: nat)
    ensures LeftOver(n) == if n % 4 == 0 then 0 else if n % 4 == 1 then 6 else if n % 4 == 2 then 4 else 2
  {
    var q, r := n / 4, n % 4;
    if r == 0 {
      DivModUnique(6 * n, 8, 3 * q, 0);
    } else if r == 1 {
      DivModUnique(6 * n, 8, 3 * q, 6);
    } else if r == 2 {
      DivModUnique(6 * n, 8, 3 * q + 1, 4);
    } else {
      DivModUnique(6 * n, 8, 3 * q + 2, 2);
    }
  }

  lemma {:induction false} ReadPads(s: seq<Six>, k: nat)
    ensures var r := Read(Letters(s) + Pads(k));
            && r.sextets == s && (!r.ended ==> r.padded == (k > 0))
            && (r.ended <==> (|s| % 4 == 3 && k >= 1) || (|s| % 4 == 2 && k >= 2))
    decreases k
  {
    hide Letters, LeftOver;
    LeftOverIs(|s|);
    if k == 0 {
      assert Letters(s) + Pads(0) == Letters(s);
      ReadLetters(s);
    } else {
      ReadPads(s, k - 1);
      ReadLast(Letters(s) + Pads(k - 1), PAD);
      assert Letters(s) + Pads(k) == Letters(s) + Pads(k - 1) + [PAD];
    }
  }

  /** Letters with padding behind them are refused exactly when one letter is left over, or two
      with fewer than two pad characters, or three with none. */
  lemma PaddingExactly(s: seq<Six>, k: nat)
    ensures Decode(Letters(s) + Pads(k)).Err? <==>
            |s| % 4 == 1 || (|s| % 4 == 2 && k < 2) || (|s| % 4 == 3 && k < 1)
  {
    hide Read, Letters, LeftOver;
    ReadPads(s, k);
    LeftOverIs(|s|);
  }

  /** Nothing behind complete padding matters. */
  lemma AfterPadding(a: seq<Octet>, b: seq<Octet>)
    requires Read(a).ended
    ensures Decode(a + b) == Decode(a)
  {
    assert (a + b)[..|a|] == a;
    ReadEnded(a + b, |a|);
  }

  lemma Value64First(a: Six, b: Six, c: Six, d: Six)
    ensures Value64([a, b]) == 64 * a + b
    ensures Value64([a, b, c]) == 64 * (64 * a + b) + c
    ensures Value64([a, b, c, d]) == 64 * (64 * (64 * a + b) + c) + d
  {
    Value64Append([], a);
    Value64Append([a], b);
    Value64Append([a, b], c);
    Value64Append([a, b, c], d);
    assert [] + [a] == [a] && [a] + [b] == [a, b] && [a, b] + [c] == [a, b, c] && [a, b, c] + [d] == [a, b, c, d];
  }

  /** Four letters are three bytes; two or three with their padding are one or two, and bits beyond
      the last byte are dropped. */
  lemma DecodesGroup(a: Six, b: Six, c: Six, d: Six)
    ensures Decode(Letters([a, b, c, d])) == Ok([4 * a + b / 16, b % 16 * 16 + c / 4, c % 4 * 64 + d])
    ensures Decode(Letters([a, b, c]) + Pads(1)) == Ok([4 * a + b / 16, b % 16 * 16 + c / 4])
    ensures Decode(Letters([a, b]) + Pads(2)) == Ok([4 * a + b / 16])
  {
    hide Read, Letters, Value64;
    Value64First(a, b, c, d);
    ReadPads([a, b, c, d], 0);
    ReadPads([a, b, c], 1);
    ReadPads([a, b], 2);
    assert Letters([a, b, c, d]) + Pads(0) == Letters([a, b, c, d]);
    var x, y, z := 4 * a + b / 16, b % 16 * 16 + c / 4, c % 4 * 64 + d;
    SpellThree(x, y, z);
    assert 64 * (64 * (64 * a + b) + c) + d == (x * 256 + y) * 256 + z;
    assert (64 * (64 * a + b) + c) / 4 == x * 256 + y;
    assert (64 * a + b) / 16 == x;
  }

  lemma SpellThree(x: Octet, y: Octet, z: Octet)
    ensures Digits(x, 1) == [x] && Digits(x * 256 + y, 2) == [x, y] && Digits((x * 256 + y) * 256 + z, 3) == [x, y, z]
  {
    ValueAppend([], x);
    ValueAppend([x], y);
    ValueAppend([x, y], z);
    assert [] + [x] == [x] && [x] + [y] == [x, y] && [x, y] + [z] == [x, y, z];
    DigitsOfValue([x]);
    DigitsOfValue([x, y]);
    DigitsOfValue([x, y, z]);
  }
}
