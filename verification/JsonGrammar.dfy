/** The grammar of section 2 of RFC 4627 and the proof that the loader takes every text of it as the
    value it denotes. */
module JsonGrammar {
  import opened Common
  import opened Json
  import opened JsonParse

  // ---------- texts ----------

  /** One character of a string: its UTF-8 encoding, a short escape, or four hexadecimal digits. */
  datatype Ch = Plain(u: seq<Byte>) | Esc(e: Byte) | Uni(h1: Byte, h2: Byte, h3: Byte, h4: Byte)

  /** number = [ minus ] int [ frac ] [ exp ]; an empty part is absent. */
  datatype Number = Number(minus: bool, whole: seq<Byte>, frac: seq<Byte>, exp: Exponent)
  datatype Exponent = NoExponent | Exponent(mark: Byte, sign: seq<Byte>, digits: seq<Byte>)

  /** A value together with the way it is written: escapes, number form and whitespace. */
  datatype Doc = DNull | DTrue | DFalse | DNum(n: Number) | DStr(chars: seq<Ch>)
               | DArr(items: seq<Item>, pad: seq<Byte>) | DObj(members: seq<Member>, pad: seq<Byte>)
  datatype Item = Item(before: seq<Byte>, doc: Doc, after: seq<Byte>)
  datatype Member = Member(before: seq<Byte>, key: seq<Ch>, mid: seq<Byte>, item: Item)

  predicate HexDigit(b: Byte) { Digit(b) || (0x41 <= b && b <= 0x46) || (0x61 <= b && b <= 0x66) }

  /** The digit's value, from the three ranges that RFC 4627 allows. */
  function HexValue(b: Byte): Byte
    requires HexDigit(b)
  {
    if Digit(b) then b - 0x30 else if b <= 0x46 then b - 0x41 + 10 else b - 0x61 + 10
  }

  function CodePoint(c: Ch): bv32
    requires c.Uni? && HexDigit(c.h1) && HexDigit(c.h2) && HexDigit(c.h3) && HexDigit(c.h4)
  {
    (((((HexValue(c.h1) as bv32 << 4) | HexValue(c.h2) as bv32) << 4) | HexValue(c.h3) as bv32) << 4)
      | HexValue(c.h4) as bv32
  }

  /** The short escapes and the characters they stand for. */
  function ShortEscape(e: Byte): Option<Byte> {
    if e == QUOTE then Some(QUOTE)
    else if e == BACKSLASH then Some(BACKSLASH)
    else if e == 0x2f then Some(0x2f)
    else if e == 0x62 then Some(0x08)
    else if e == 0x66 then Some(0x0c)
    else if e == 0x6e then Some(0x0a)
    else if e == 0x72 then Some(0x0d)
    else if e == 0x74 then Some(0x09)
    else None
  }

  predicate Between(b: Byte, lo: Byte, hi: Byte) { lo <= b && b <= hi }

  predicate Trail(b: Byte) { Between(b, 0x80, 0xbf) }

  /** UTF8-char of section 4 of RFC 3629. */
  predicate Utf8Char(u: seq<Byte>) {
    || (|u| == 1 && u[0] < 0x80)
    || (|u| == 2 && Between(u[0], 0xc2, 0xdf) && Trail(u[1]))
    || (|u| == 3 && Trail(u[2]) &&
        ( || (u[0] == 0xe0 && Between(u[1], 0xa0, 0xbf))
          || (Between(u[0], 0xe1, 0xec) && Trail(u[1]))
          || (u[0] == 0xed && Between(u[1], 0x80, 0x9f))
          || (Between(u[0], 0xee, 0xef) && Trail(u[1]))))
    || (|u| == 4 && Trail(u[2]) && Trail(u[3]) &&
        ( || (u[0] == 0xf0 && Between(u[1], 0x90, 0xbf))
          || (Between(u[0], 0xf1, 0xf3) && Trail(u[1]))
          || (u[0] == 0xf4 && Between(u[1], 0x80, 0x8f))))
  }

  predicate ValidCh(c: Ch) {
    match c
    case Plain(u) => Utf8Char(u) && u[0] >= 0x20 && u[0] != QUOTE && u[0] != BACKSLASH
    case Esc(e) => ShortEscape(e).Some?
    case Uni(h1, h2, h3, h4) =>
      && HexDigit(h1) && HexDigit(h2) && HexDigit(h3) && HexDigit(h4)
      && !(0xd800 <= CodePoint(c) && CodePoint(c) <= 0xdfff)
  }

  predicate Digits(s: seq<Byte>) { forall i :: 0 <= i < |s| ==> Digit(s[i]) }

  predicate ValidNumber(n: Number) {
    && n.whole != [] && Digits(n.whole) && (|n.whole| > 1 ==> n.whole[0] != 0x30) && Digits(n.frac)
    && (n.exp.Exponent? ==>
         (n.exp.mark == 0x65 || n.exp.mark == 0x45) && (n.exp.sign == [] || n.exp.sign == [PLUS] || n.exp.sign == [MINUS])
         && n.exp.digits != [] && Digits(n.exp.digits))
  }

  predicate Whites(s: seq<Byte>) { forall i :: 0 <= i < |s| ==> White(s[i]) }

  predicate ValidChars(cs: seq<Ch>) { forall i :: 0 <= i < |cs| ==> ValidCh(cs[i]) }

  predicate Valid(d: Doc)
    decreases d
  {
    match d
    case DNum(n) => ValidNumber(n)
    case DStr(cs) => ValidChars(cs)
    case DArr(items, pad) => Whites(pad) && ValidItems(items)
    case DObj(members, pad) => Whites(pad) && ValidMembers(members)
    case _ => true
  }

  predicate Padded(i: Item) { Whites(i.before) && Whites(i.after) }

  predicate Keyed(m: Member) { Whites(m.before) && ValidChars(m.key) && Whites(m.mid) && Padded(m.item) }

  predicate ValidItems(items: seq<Item>)
    decreases items
  {
    items == [] || (Padded(items[0]) && Valid(items[0].doc) && ValidItems(items[1..]))
  }

  predicate ValidMembers(ms: seq<Member>)
    decreases ms
  {
    ms == [] || (Keyed(ms[0]) && Valid(ms[0].item.doc) && ValidMembers(ms[1..]))
  }

  function ChText(c: Ch): seq<Byte> {
    match c
    case Plain(u) => u
    case Esc(e) => [BACKSLASH, e]
    case Uni(h1, h2, h3, h4) => [BACKSLASH, 0x75, h1, h2, h3, h4]
  }

  function CharsText(cs: seq<Ch>): seq<Byte> {
    if cs == [] then [] else ChText(cs[0]) + CharsText(cs[1..])
  }

  function ExponentText(e: Exponent): seq<Byte> {
    if e.NoExponent? then [] else [e.mark] + e.sign + e.digits
  }

  function NumberText(n: Number): seq<Byte> {
    (if n.minus then [MINUS] else []) + n.whole + (if n.frac == [] then [] else [DOT] + n.frac) + ExponentText(n.exp)
  }

  function StringText(cs: seq<Ch>): seq<Byte> { [QUOTE] + CharsText(cs) + [QUOTE] }

  function Text(d: Doc): seq<Byte>
    decreases d
  {
    match d
    case DNull => [0x6e, 0x75, 0x6c, 0x6c]
    case DTrue => [0x74, 0x72, 0x75, 0x65]
    case DFalse => [0x66, 0x61, 0x6c, 0x73, 0x65]
    case DNum(n) => NumberText(n)
    case DStr(cs) => StringText(cs)
    case DArr(items, pad) => [LBRACK] + (if items == [] then pad else ItemsText(items)) + [RBRACK]
    case DObj(members, pad) => [LBRACE] + (if members == [] then pad else MembersText(members)) + [RBRACE]
  }

  function Around(i: Item, text: seq<Byte>): seq<Byte> { i.before + text + i.after }

  function Lead(m: Member): seq<Byte> { m.before + StringText(m.key) + m.mid + [COLON] }

  /** A comma, unless nothing follows. */
  function Comma(left: nat): seq<Byte> { if left == 0 then [] else [COMMA] }

  function ItemsText(items: seq<Item>): seq<Byte>
    decreases items
  {
    if items == [] then []
    else Around(items[0], Text(items[0].doc)) + Comma(|items| - 1) + ItemsText(items[1..])
  }

  function MembersText(ms: seq<Member>): seq<Byte>
    decreases ms
  {
    if ms == [] then []
    else Lead(ms[0]) + Around(ms[0].item, Text(ms[0].item.doc)) + Comma(|ms| - 1) + MembersText(ms[1..])
  }

  // ---------- what a text denotes ----------

  function ChBytes(c: Ch): seq<Byte>
    requires ValidCh(c)
  {
    match c
    case Plain(u) => u
    case Esc(e) => [ShortEscape(e).value]
    case Uni(_, _, _, _) => Utf8(CodePoint(c))
  }

  function CharsBytes(cs: seq<Ch>): seq<Byte>
    requires ValidChars(cs)
  {
    if cs == [] then [] else ChBytes(cs[0]) + CharsBytes(cs[1..])
  }

  /** The interpreter converts every number in the text. */
  predicate Convertible(d: Doc)
    decreases d
  {
    match d
    case DNum(n) => NumberAccepted(NumberText(n), n.frac != [] || n.exp.Exponent?)
    case DArr(items, _) => ConvertibleItems(items)
    case DObj(members, _) => ConvertibleMembers(members)
    case _ => true
  }

  predicate ConvertibleItems(items: seq<Item>)
    decreases items
  {
    items == [] || (Convertible(items[0].doc) && ConvertibleItems(items[1..]))
  }

  predicate ConvertibleMembers(ms: seq<Member>)
    decreases ms
  {
    ms == [] || (Convertible(ms[0].item.doc) && ConvertibleMembers(ms[1..]))
  }

  predicate Composite(d: Doc) { d.DArr? || d.DObj? }

  function AtomOf(d: Doc): Atom
    requires Valid(d) && !Composite(d)
  {
    match d
    case DNull => Null
    case DTrue => Bool(true)
    case DFalse => Bool(false)
    case DNum(n) => Num(NumberText(n), n.frac != [] || n.exp.Exponent?)
    case DStr(cs) => Str(CharsBytes(cs))
  }

  function Meaning(d: Doc): Tree
    requires Valid(d)
    decreases d
  {
    match d
    case DArr(items, _) => Arr(ItemTrees(items))
    case DObj(members, _) => Obj(MemberTrees(members, map[]))
    case _ => Scalar(AtomOf(d))
  }

  function ItemTrees(items: seq<Item>): seq<Tree>
    requires ValidItems(items)
    decreases items
  {
    if items == [] then [] else [Meaning(items[0].doc)] + ItemTrees(items[1..])
  }

  /** The last member with a given key wins. */
  function MemberTrees(ms: seq<Member>, acc: map<Key, Tree>): map<Key, Tree>
    requires ValidMembers(ms)
    decreases ms
  {
    if ms == [] then acc
    else MemberTrees(ms[1..], acc[KStr(CharsBytes(ms[0].key)) := Meaning(ms[0].item.doc)])
  }

  // ---------- lexical level ----------

  lemma HexAgrees(b: Byte)
    requires HexDigit(b)
    ensures HexByte(b) == HexValue(b)
  {}

  lemma EscapeAgrees(e: Byte)
    requires ShortEscape(e).Some?
    ensures Some(Escaped(e)) == ShortEscape(e) && e != 0x75
  {}

  /** The code point that a UTF-8 sequence of up to three bytes encodes in its shortest form
      (section 3 of RFC 3629), if it does. */
  function DecodeUtf8(s: seq<Byte>): Option<bv32> {
    if |s| == 1 && s[0] & 0x80 == 0 then Some(s[0] as bv32)
    else if |s| == 2 && s[0] & 0xe0 == 0xc0 && s[1] & 0xc0 == 0x80 then
      var c := ((s[0] & 0x1f) as bv32 << 6) | (s[1] & 0x3f) as bv32;
      if c >= 0x80 then Some(c) else None
    else if |s| == 3 && s[0] & 0xf0 == 0xe0 && s[1] & 0xc0 == 0x80 && s[2] & 0xc0 == 0x80 then
      var c := ((s[0] & 0x0f) as bv32 << 12) | ((s[1] & 0x3f) as bv32 << 6) | (s[2] & 0x3f) as bv32;
      if c >= 0x800 then Some(c) else None
    else None
  }

  lemma LeadBytes(c: bv32)
    ensures c < 0x80 ==> Low(c) & 0x80 == 0 && Low(c) as bv32 == c
    ensures c < 0x800 ==> Low((c >> 6) | 0xc0) & 0xe0 == 0xc0 && (Low((c >> 6) | 0xc0) & 0x1f) as bv32 == c >> 6
    ensures c < 0x10000 ==> Low((c >> 12) | 0xe0) & 0xf0 == 0xe0 && (Low((c >> 12) | 0xe0) & 0x0f) as bv32 == c >> 12
  {
  }

  lemma TrailByte(c: bv32)
    ensures Low((c & 0x3f) | 0x80) & 0xc0 == 0x80 && (Low((c & 0x3f) | 0x80) & 0x3f) as bv32 == c & 0x3f
  {
  }

  lemma Rejoin(c: bv32)
    ensures ((c >> 6) << 6) | (c & 0x3f) == c
    ensures ((c >> 12) << 12) | (((c >> 6) & 0x3f) << 6) | (c & 0x3f) == c
  {
  }

  lemma DecodesTwo(c: bv32)
    requires 0x80 <= c < 0x800
    ensures DecodeUtf8([Low((c >> 6) | 0xc0), Low((c & 0x3f) | 0x80)]) == Some(c)
  {
    hide Low;
    LeadBytes(c);
    TrailByte(c);
    Rejoin(c);
  }

  lemma DecodesThree(c: bv32)
    requires 0x800 <= c < 0x10000
    ensures DecodeUtf8([Low((c >> 12) | 0xe0), Low(((c >> 6) & 0x3f) | 0x80), Low((c & 0x3f) | 0x80)]) == Some(c)
  {
    hide Low, DecodeUtf8;
    LeadBytes(c);
    TrailByte(c);
    TrailByte(c >> 6);
    JoinsThree(Low((c >> 12) | 0xe0), Low(((c >> 6) & 0x3f) | 0x80), Low((c & 0x3f) | 0x80), c);
  }

  lemma JoinsThree(b0: Byte, b1: Byte, b2: Byte, c: bv32)
    requires b0 & 0xf0 == 0xe0 && b1 & 0xc0 == 0x80 && b2 & 0xc0 == 0x80 && c >= 0x800
    requires (b0 & 0x0f) as bv32 == c >> 12 && (b1 & 0x3f) as bv32 == (c >> 6) & 0x3f && (b2 & 0x3f) as bv32 == c & 0x3f
    ensures DecodeUtf8([b0, b1, b2]) == Some(c)
  {
    Rejoin(c);
  }

  /** Every character that four hexadecimal digits can name is added as its UTF-8 encoding. */
  lemma EncodesUtf8(c: bv32)
    requires c < 0x10000
    ensures DecodeUtf8(Utf8(c)) == Some(c)
  {
    hide Low;
    if c < 0x80 {
      LeadBytes(c);
    } else if c < 0x800 {
      DecodesTwo(c);
    } else {
      DecodesThree(c);
    }
  }

  lemma HexSmall(b: Byte)
    requires HexDigit(b)
    ensures HexValue(b) as bv32 < 16
  {
    assert HexValue(b) < 16;
  }

  lemma FourDigits(a: bv32, b: bv32, c: bv32, d: bv32)
    requires a < 16 && b < 16 && c < 16 && d < 16
    ensures ((((((a << 4) | b) << 4) | c) << 4) | d) < 0x10000
  {
  }

  /** A \u escape denotes, in UTF-8, the code point its digits spell. */
  lemma UnicodeEscape(c: Ch)
    requires ValidCh(c) && c.Uni?
    ensures DecodeUtf8(ChBytes(c)) == Some(CodePoint(c))
  {
    hide HexValue, Utf8, DecodeUtf8;
    HexSmall(c.h1);
    HexSmall(c.h2);
    HexSmall(c.h3);
    HexSmall(c.h4);
    FourDigits(HexValue(c.h1) as bv32, HexValue(c.h2) as bv32, HexValue(c.h3) as bv32, HexValue(c.h4) as bv32);
    EncodesUtf8(CodePoint(c));
  }

  /** Bytes that stand for themselves are added one by one. */
  lemma {:induction false} ScanPlain(u: seq<Byte>, acc: seq<Byte>, rest: seq<Byte>)
    requires forall i :: 0 <= i < |u| ==> u[i] != 0 && u[i] != QUOTE && u[i] != BACKSLASH
    ensures ScanString(u + rest, acc) == ScanString(rest, acc + u)
    decreases |u|
  {
    if u == [] {
      assert u + rest == rest && acc + u == acc;
    } else {
      var s := u + rest;
      assert s[1..] == u[1..] + rest;
      ScanPlain(u[1..], acc + [u[0]], rest);
      assert acc + [u[0]] + u[1..] == acc + u;
    }
  }

  lemma ScanOneChar(c: Ch, acc: seq<Byte>, rest: seq<Byte>)
    requires ValidCh(c)
    ensures ScanString(ChText(c) + rest, acc) == ScanString(rest, acc + ChBytes(c))
  {
    hide Utf8, Escaped;
    var s := ChText(c) + rest;
    match c
    case Plain(u) => ScanPlain(u, acc, rest);
    case Esc(e) =>
      EscapeAgrees(e);
      assert s[1..] == [e] + rest && s[1..][1..] == rest;
    case Uni(h1, h2, h3, h4) =>
      ScanUni(h1, h2, h3, h4, rest);
      assert s[0] == BACKSLASH;
  }

  /** A lead byte and as many continuation bytes as it announces. */
  predicate Encoded(u: seq<Byte>) {
    || (|u| == 1 && u[0] < 0x80)
    || (|u| == 2 && u[0] & 0xe0 == 0xc0 && Continues(u[1]))
    || (|u| == 3 && u[0] & 0xf0 == 0xe0 && Continues(u[1]) && Continues(u[2]))
    || (|u| == 4 && u[0] & 0xf8 == 0xf0 && Continues(u[1]) && Continues(u[2]) && Continues(u[3]))
  }

  lemma LeadAnnounces(b: Byte)
    ensures b & 0xe0 == 0xc0 ==> 0xc0 <= b < 0xf8 && Announced(b) == 1
    ensures b & 0xf0 == 0xe0 ==> 0xc0 <= b < 0xf8 && Announced(b) == 2
    ensures b & 0xf8 == 0xf0 ==> 0xc0 <= b < 0xf8 && Announced(b) == 3
  {}

  lemma {:induction false} TrailPasses(u: seq<Byte>, rest: seq<Byte>)
    requires forall i :: 0 <= i < |u| ==> Continues(u[i])
    ensures Utf8Check(u + rest, |u|) == Utf8Check(rest, 0)
    decreases |u|
  {
    if u == [] {
      assert u + rest == rest;
    } else {
      assert (u + rest)[1..] == u[1..] + rest;
      TrailPasses(u[1..], rest);
    }
  }

  lemma EncodedPasses(u: seq<Byte>, rest: seq<Byte>)
    requires Encoded(u)
    ensures Utf8Check(u + rest, 0) == Utf8Check(rest, 0)
  {
    hide Announced, Continues;
    LeadAnnounces(u[0]);
    var s := u + rest;
    assert s[1..] == u[1..] + rest;
    TrailPasses(u[1..], rest);
  }

  lemma TrailContinues(b: Byte)
    ensures Trail(b) ==> Continues(b)
    ensures Between(b, 0xc2, 0xdf) ==> b & 0xe0 == 0xc0
    ensures Between(b, 0xe0, 0xef) ==> b & 0xf0 == 0xe0
    ensures Between(b, 0xf0, 0xf4) ==> b & 0xf8 == 0xf0
  {}

  lemma CharIsEncoded(u: seq<Byte>)
    requires Utf8Char(u)
    ensures Encoded(u)
  {
    hide Continues;
    TrailContinues(u[0]);
    if |u| > 1 { TrailContinues(u[1]); }
    if |u| > 2 { TrailContinues(u[2]); }
    if |u| > 3 { TrailContinues(u[3]); }
  }

  lemma EscapeIsEncoded(c: Ch)
    requires ValidCh(c) && c.Uni?
    ensures Encoded(ChBytes(c))
  {
    hide Utf8;
    UnicodeEscape(c);
  }

  /** What the characters of a string denote passes the loader's check. */
  lemma {:induction false} CharsPass(cs: seq<Ch>)
    requires ValidChars(cs)
    ensures Utf8Check(CharsBytes(cs), 0)
    decreases |cs|
  {
    hide Utf8Char, Utf8, Encoded, Utf8Check;
    if cs == [] {
      assert Utf8Check([], 0) by { NothingPasses(); }
    } else {
      var c := cs[0];
      match c {
        case Plain(u) => CharIsEncoded(u);
        case Esc(e) => ShortIsEncoded(e);
        case Uni(_, _, _, _) => EscapeIsEncoded(c);
      }
      EncodedPasses(ChBytes(c), CharsBytes(cs[1..]));
      CharsPass(cs[1..]);
    }
  }

  lemma NothingPasses()
    ensures Utf8Check([], 0)
  {}

  lemma ShortIsEncoded(e: Byte)
    requires ShortEscape(e).Some?
    ensures Encoded([ShortEscape(e).value])
  {}

  lemma ScanUni(h1: Byte, h2: Byte, h3: Byte, h4: Byte, rest: seq<Byte>)
    requires HexDigit(h1) && HexDigit(h2) && HexDigit(h3) && HexDigit(h4)
    ensures ScanChar([BACKSLASH, 0x75, h1, h2, h3, h4] + rest) == (Utf8(CodePoint(Uni(h1, h2, h3, h4))), rest)
  {
    hide Utf8, PushHex, CodePoint, HexDigit, Cur, Next;
    var t5 := [h4] + rest;
    var t4 := [h3] + t5;
    var t3 := [h2] + t4;
    var t2 := [h1] + t3;
    var t1 := [0x75] + t2;
    assert [BACKSLASH, 0x75, h1, h2, h3, h4] + rest == [BACKSLASH] + t1;
    Head(BACKSLASH, t1);
    Head(0x75, t2);
    Head(h1, t3);
    Head(h2, t4);
    Head(h3, t5);
    Head(h4, rest);
    FourHex(h1, h2, h3, h4);
  }

  lemma Head(b: Byte, rest: seq<Byte>)
    ensures Cur([b] + rest) == b && Next([b] + rest) == rest
  {}

  lemma FourHex(h1: Byte, h2: Byte, h3: Byte, h4: Byte)
    requires HexDigit(h1) && HexDigit(h2) && HexDigit(h3) && HexDigit(h4)
    ensures PushHex(PushHex(PushHex(PushHex(0, h1), h2), h3), h4) == CodePoint(Uni(h1, h2, h3, h4))
  {
    hide HexByte, HexValue;
    HexAgrees(h1);
    HexAgrees(h2);
    HexAgrees(h3);
    HexAgrees(h4);
    var a := HexValue(h1) as bv32;
    assert (0 << 4) | a == a;
  }

  lemma {:induction false} ScanChars(cs: seq<Ch>, acc: seq<Byte>, rest: seq<Byte>)
    requires ValidChars(cs)
    ensures ScanString(CharsText(cs) + ([QUOTE] + rest), acc) == Some((acc + CharsBytes(cs), rest))
    decreases |cs|
  {
    hide ScanChar, ChText, ChBytes, ValidCh;
    if cs == [] {
      assert CharsText(cs) + ([QUOTE] + rest) == [QUOTE] + rest;
      assert acc + CharsBytes(cs) == acc;
    } else {
      var tail := CharsText(cs[1..]) + ([QUOTE] + rest);
      assert CharsText(cs) + ([QUOTE] + rest) == ChText(cs[0]) + tail;
      ScanOneChar(cs[0], acc, tail);
      ScanChars(cs[1..], acc + ChBytes(cs[0]), rest);
      assert acc + ChBytes(cs[0]) + CharsBytes(cs[1..]) == acc + CharsBytes(cs);
    }
  }

  lemma LexString(cs: seq<Ch>, rest: seq<Byte>)
    requires ValidChars(cs)
    ensures Lex(StringText(cs) + rest) == (Value(Str(CharsBytes(cs))), rest)
    ensures StringText(cs) != []
  {
    hide CharsText, CharsBytes, ScanString, Utf8Check;
    CharsPass(cs);
    var s := StringText(cs) + rest;
    assert s[1..] == CharsText(cs) + ([QUOTE] + rest);
    ScanChars(cs, [], rest);
    assert [] + CharsBytes(cs) == CharsBytes(cs);
  }

  /** The stream does not go on with a byte that a number would swallow. */
  predicate Stops(rest: seq<Byte>) { rest == [] || !NumberByte(rest[0]) }

  lemma {:induction false} RunLength(text: seq<Byte>, rest: seq<Byte>)
    requires (forall i :: 0 <= i < |text| ==> NumberByte(text[i])) && Stops(rest)
    ensures NumberRun(text + rest) == |text|
    decreases |text|
  {
    if text == [] {
      assert text + rest == rest;
    } else {
      assert (text + rest)[1..] == text[1..] + rest;
      RunLength(text[1..], rest);
    }
  }

  lemma DigitsAreNumber(s: seq<Byte>)
    requires Digits(s)
    ensures forall i :: 0 <= i < |s| ==> NumberByte(s[i]) && !FloatMark(s[i])
  {}

  lemma MarkConcat(a: seq<Byte>, b: seq<Byte>)
    ensures HasFloatMark(a + b) <==> HasFloatMark(a) || HasFloatMark(b)
  {
    if HasFloatMark(a) {
      var i :| 0 <= i < |a| && FloatMark(a[i]);
      assert (a + b)[i] == a[i];
    }
    if HasFloatMark(b) {
      var i :| 0 <= i < |b| && FloatMark(b[i]);
      assert (a + b)[|a| + i] == b[i];
    }
    if HasFloatMark(a + b) {
      var i :| 0 <= i < |a + b| && FloatMark((a + b)[i]);
      if i < |a| { assert FloatMark(a[i]); } else { assert FloatMark(b[i - |a|]); }
    }
  }

  predicate Numeral(s: seq<Byte>) { forall i :: 0 <= i < |s| ==> NumberByte(s[i]) }

  lemma NumeralConcat(a: seq<Byte>, b: seq<Byte>)
    ensures Numeral(a) && Numeral(b) ==> Numeral(a + b)
  {}

  lemma ExponentShape(e: Exponent)
    requires e.Exponent? ==>
      (e.mark == 0x65 || e.mark == 0x45) && (e.sign == [] || e.sign == [PLUS] || e.sign == [MINUS]) && Digits(e.digits)
    ensures Numeral(ExponentText(e)) && (HasFloatMark(ExponentText(e)) <==> e.Exponent?)
  {
    if e.Exponent? {
      DigitsAreNumber(e.digits);
      assert FloatMark(ExponentText(e)[0]);
    }
  }

  lemma NumberShape(n: Number)
    requires ValidNumber(n)
    ensures var t := NumberText(n);
            && t != [] && (t[0] == MINUS || Digit(t[0])) && Numeral(t)
            && (HasFloatMark(t) <==> n.frac != [] || n.exp.Exponent?)
  {
    hide ExponentText;
    var a := if n.minus then [MINUS] else [];
    var f := if n.frac == [] then [] else [DOT] + n.frac;
    var e := ExponentText(n.exp);
    DigitsAreNumber(n.whole);
    DigitsAreNumber(n.frac);
    ExponentShape(n.exp);
    assert n.frac != [] ==> FloatMark(f[0]);
    assert Numeral(a) && Numeral(n.whole) && Numeral(f) && !HasFloatMark(a) && !HasFloatMark(n.whole);
    NumberParts(a, n.whole, f, e);
  }

  lemma NumberParts(a: seq<Byte>, b: seq<Byte>, c: seq<Byte>, d: seq<Byte>)
    requires Numeral(a) && Numeral(b) && Numeral(c) && Numeral(d)
    ensures Numeral(a + b + c + d)
    ensures HasFloatMark(a + b + c + d) <==> HasFloatMark(a) || HasFloatMark(b) || HasFloatMark(c) || HasFloatMark(d)
  {
    hide Numeral, HasFloatMark;
    NumeralConcat(a, b);
    NumeralConcat(a + b, c);
    NumeralConcat(a + b + c, d);
    MarkConcat(a, b);
    MarkConcat(a + b, c);
    MarkConcat(a + b + c, d);
  }

  lemma LexNumber(n: Number, rest: seq<Byte>)
    requires ValidNumber(n) && Stops(rest)
    ensures NumberText(n) != []
    ensures var (text, flt) := (NumberText(n), n.frac != [] || n.exp.Exponent?);
            Lex(text + rest) == if NumberAccepted(text, flt) then (Value(Num(text, flt)), rest) else (Bad, [])
  {
    hide NumberText;
    NumberShape(n);
    var t := NumberText(n);
    var s := t + rest;
    RunLength(t[1..], rest);
    assert s[1..] == t[1..] + rest;
    assert [s[0]] + s[1..][..|t| - 1] == t;
    assert s[1..][|t| - 1..] == rest;
  }

  lemma LexWord(word: seq<Byte>, rest: seq<Byte>, a: Atom)
    ensures Literal(word + rest, word, a) == (Value(a), rest)
    decreases |word|
  {
    if word == [] {
      assert word + rest == rest;
    } else {
      assert (word + rest)[1..] == word[1..] + rest;
      LexWord(word[1..], rest, a);
    }
  }

  lemma LexAtom(d: Doc, rest: seq<Byte>)
    requires Valid(d) && !Composite(d) && Stops(rest)
    ensures Text(d) != [] && Lex(Text(d) + rest) == if Convertible(d) then (Value(AtomOf(d)), rest) else (Bad, [])
    ensures Cur(Text(d) + rest) != 0
  {
    hide Literal, ScanString;
    match d
    case DNum(n) =>
      NumberShape(n);
      LexNumber(n, rest);
    case DStr(cs) => LexString(cs, rest);
    case DNull =>
      LexWord([0x75, 0x6c, 0x6c], rest, Null);
      assert (Text(d) + rest)[1..] == [0x75, 0x6c, 0x6c] + rest;
    case DTrue =>
      LexWord([0x72, 0x75, 0x65], rest, Bool(true));
      assert (Text(d) + rest)[1..] == [0x72, 0x75, 0x65] + rest;
    case DFalse =>
      LexWord([0x61, 0x6c, 0x73, 0x65], rest, Bool(false));
      assert (Text(d) + rest)[1..] == [0x61, 0x6c, 0x73, 0x65] + rest;
  }

  // ---------- the reader on a text ----------

  /** The container can take a value here: a dictionary has its key. */
  predicate CanTake(c: Tree, key: Option<Atom>) {
    !c.Scalar? && (c.Obj? <==> key.Some?)
  }

  lemma {:induction false} ParseBlank(c: Tree, w: seq<Byte>, rest: seq<Byte>, key: Option<Atom>, tidy: bool, outer: bool)
    requires forall i :: 0 <= i < |w| ==> White(w[i]) || w[i] == COMMA || w[i] == COLON
    ensures ParseBody(c, w + rest, key, tidy, outer) == ParseBody(c, rest, key, tidy, outer)
    decreases |w|
  {
    if w == [] {
      assert w + rest == rest;
    } else {
      assert (w + rest)[1..] == w[1..] + rest;
      ParseBlank(c, w[1..], rest, key, tidy, outer);
    }
  }

  lemma StopsAtBlank(w: seq<Byte>, rest: seq<Byte>)
    requires Whites(w) && Stops(rest)
    ensures Stops(w + rest)
  {
    if w != [] { assert White(w[0]); }
  }

  lemma ParseAtom(c: Tree, d: Doc, rest: seq<Byte>, key: Option<Atom>, tidy: bool, outer: bool)
    requires CanTake(c, key) && Valid(d) && !Composite(d) && Stops(rest)
    ensures ParseBody(c, Text(d) + rest, key, tidy, outer) ==
            if Convertible(d) then ParseBody(Added(c, key, Meaning(d)), rest, None, tidy, outer) else None
  {
    hide Lex, Text;
    LexAtom(d, rest);
  }

  lemma ParseBracket(c: Tree, b: Byte, rest: seq<Byte>, key: Option<Atom>, tidy: bool, outer: bool)
    ensures b == RBRACK || b == RBRACE ==>
      ParseBody(c, [b] + rest, key, tidy, outer) == Some(Body(c, key, tidy && key == None, rest))
    ensures (b == LBRACK || b == LBRACE) && CanTake(c, key) ==>
      ParseBody(c, [b] + rest, key, tidy, outer) ==
        match ParseBody(Hollow(b == LBRACE), rest, None, tidy, false)
        case None => None
        case Some(i) => ParseBody(Added(c, key, i.content), i.rest, i.key, i.tidy, outer)
  {
    assert ([b] + rest)[1..] == rest;
  }

  /** The reader takes a value's whole text as that one value. */
  lemma {:induction false} ParseDoc(c: Tree, d: Doc, rest: seq<Byte>, key: Option<Atom>, tidy: bool, outer: bool)
    requires CanTake(c, key) && Valid(d) && Stops(rest)
    ensures ParseBody(c, Text(d) + rest, key, tidy, outer) ==
            if Convertible(d) then ParseBody(Added(c, key, Meaning(d)), rest, None, tidy, outer) else None
    decreases d, 1
  {
    hide ParseBody, Text;
    if Composite(d) {
      var b := if d.DObj? then LBRACE else LBRACK;
      InsideText(d, rest);
      ParseOpen(d, rest, tidy, false);
      ParseBracket(c, b, Inside(d) + rest, key, tidy, outer);
    } else {
      ParseAtom(c, d, rest, key, tidy, outer);
    }
  }

  /** The text of a container behind its opening bracket. */
  function Inside(d: Doc): seq<Byte>
    requires Composite(d)
  {
    match d
    case DArr(items, pad) => (if items == [] then pad else ItemsText(items)) + [RBRACK]
    case DObj(members, pad) => (if members == [] then pad else MembersText(members)) + [RBRACE]
  }

  lemma InsideText(d: Doc, rest: seq<Byte>)
    requires Composite(d)
    ensures Text(d) + rest == [if d.DObj? then LBRACE else LBRACK] + (Inside(d) + rest)
  {
    hide ItemsText, MembersText;
  }

  lemma {:induction false} ParseOpen(d: Doc, rest: seq<Byte>, tidy: bool, outer: bool)
    requires Composite(d) && Valid(d)
    ensures ParseBody(Hollow(d.DObj?), Inside(d) + rest, None, tidy, outer) ==
            if Convertible(d) then Some(Body(Meaning(d), None, tidy, rest)) else None
    decreases d, 0
  {
    hide ParseBody, ItemsText, MembersText;
    match d
    case DArr(items, pad) =>
      var close := [RBRACK] + rest;
      if items == [] {
        assert Inside(d) + rest == pad + close;
        ParseBlank(Arr([]), pad, close, None, tidy, outer);
      } else {
        assert Inside(d) + rest == ItemsText(items) + close;
        ParseItems([], items, close, tidy, outer);
        assert [] + ItemTrees(items) == ItemTrees(items);
      }
      ParseBracket(Meaning(d), RBRACK, rest, None, tidy, outer);
    case DObj(members, pad) =>
      var close := [RBRACE] + rest;
      if members == [] {
        assert Inside(d) + rest == pad + close;
        ParseBlank(Obj(map[]), pad, close, None, tidy, outer);
      } else {
        assert Inside(d) + rest == MembersText(members) + close;
        ParseMembers(map[], members, close, tidy, outer);
      }
      ParseBracket(Meaning(d), RBRACE, rest, None, tidy, outer);
  }

  lemma {:induction false} ParseItem(c: Tree, i: Item, rest: seq<Byte>, key: Option<Atom>, tidy: bool, outer: bool)
    requires CanTake(c, key) && Padded(i) && Valid(i.doc) && Stops(rest)
    ensures ParseBody(c, Around(i, Text(i.doc)) + rest, key, tidy, outer) ==
            if Convertible(i.doc) then ParseBody(Added(c, key, Meaning(i.doc)), rest, None, tidy, outer) else None
    decreases i
  {
    hide ParseBody, Text, Meaning;
    assert Around(i, Text(i.doc)) + rest == i.before + (Text(i.doc) + (i.after + rest));
    ParseBlank(c, i.before, Text(i.doc) + (i.after + rest), key, tidy, outer);
    StopsAtBlank(i.after, rest);
    ParseDoc(c, i.doc, i.after + rest, key, tidy, outer);
    ParseBlank(Added(c, key, Meaning(i.doc)), i.after, rest, None, tidy, outer);
  }

  lemma CommaStops(left: nat, tail: seq<Byte>)
    requires left == 0 ==> Stops(tail)
    ensures Stops(Comma(left) + tail)
  {
    if left == 0 { assert Comma(left) + tail == tail; }
  }

  lemma ItemsSplit(items: seq<Item>, rest: seq<Byte>)
    requires items != []
    ensures ItemsText(items) + rest ==
            Around(items[0], Text(items[0].doc)) + (Comma(|items| - 1) + (ItemsText(items[1..]) + rest))
  {
    hide Around, Comma, Text;
    Join(Around(items[0], Text(items[0].doc)), Comma(|items| - 1), ItemsText(items[1..]), rest);
  }

  /** The elements of a list are taken in order. */
  lemma {:induction false} ParseItems(trees: seq<Tree>, items: seq<Item>, rest: seq<Byte>, tidy: bool, outer: bool)
    requires ValidItems(items) && Stops(rest)
    ensures ParseBody(Arr(trees), ItemsText(items) + rest, None, tidy, outer) ==
            if ConvertibleItems(items) then ParseBody(Arr(trees + ItemTrees(items)), rest, None, tidy, outer) else None
    decreases items
  {
    hide ParseBody, Around, Comma, Text, Meaning, ItemsText, ItemTrees, Convertible;
    if items == [] {
      NoItems();
      assert [] + rest == rest && trees + [] == trees;
    } else {
      var t := Meaning(items[0].doc);
      var comma := Comma(|items| - 1);
      var tail := ItemsText(items[1..]) + rest;
      ItemsSplit(items, rest);
      if |items| == 1 {
        NoItems();
        assert items[1..] == [] && [] + rest == rest;
      }
      CommaStops(|items| - 1, tail);
      ParseItem(Arr(trees), items[0], comma + tail, None, tidy, outer);
      CommaOnly(|items| - 1);
      ParseBlank(Arr(trees + [t]), comma, tail, None, tidy, outer);
      ParseItems(trees + [t], items[1..], rest, tidy, outer);
      ItemTreesNext(trees, items);
    }
  }

  lemma NoItems()
    ensures ItemsText([]) == [] && ItemTrees([]) == []
  {}

  lemma ItemTreesNext(trees: seq<Tree>, items: seq<Item>)
    requires items != [] && ValidItems(items)
    ensures trees + [Meaning(items[0].doc)] + ItemTrees(items[1..]) == trees + ItemTrees(items)
  {
    hide Meaning;
  }

  lemma CommaOnly(left: nat)
    ensures forall i :: 0 <= i < |Comma(left)| ==> Comma(left)[i] == COMMA
  {}

  lemma ParseLead(trees: map<Key, Tree>, x: Member, rest: seq<Byte>, tidy: bool, outer: bool)
    requires Keyed(x)
    ensures ParseBody(Obj(trees), Lead(x) + rest, None, tidy, outer) ==
            ParseBody(Obj(trees), rest, Some(Str(CharsBytes(x.key))), tidy, outer)
  {
    hide ParseBody, StringText, CharsBytes;
    var key := Some(Str(CharsBytes(x.key)));
    assert Lead(x) + rest == x.before + (StringText(x.key) + ((x.mid + [COLON]) + rest));
    ParseBlank(Obj(trees), x.before, StringText(x.key) + ((x.mid + [COLON]) + rest), None, tidy, outer);
    ParseKey(trees, x.key, (x.mid + [COLON]) + rest, tidy, outer);
    ParseBlank(Obj(trees), x.mid + [COLON], rest, key, tidy, outer);
  }

  lemma ParseKey(trees: map<Key, Tree>, cs: seq<Ch>, rest: seq<Byte>, tidy: bool, outer: bool)
    requires ValidChars(cs)
    ensures ParseBody(Obj(trees), StringText(cs) + rest, None, tidy, outer) ==
            ParseBody(Obj(trees), rest, Some(Str(CharsBytes(cs))), tidy, outer)
  {
    hide Lex;
    LexString(cs, rest);
    assert Cur(StringText(cs) + rest) == QUOTE;
  }

  lemma MembersSplit(ms: seq<Member>, rest: seq<Byte>)
    requires ms != []
    ensures MembersText(ms) + rest ==
            Lead(ms[0]) + (Around(ms[0].item, Text(ms[0].item.doc)) + (Comma(|ms| - 1) + (MembersText(ms[1..]) + rest)))
  {
    hide Lead, Around, Comma, Text;
    Regroup(Lead(ms[0]), Around(ms[0].item, Text(ms[0].item.doc)), Comma(|ms| - 1), MembersText(ms[1..]), rest);
  }

  lemma Join(a: seq<Byte>, b: seq<Byte>, c: seq<Byte>, d: seq<Byte>)
    ensures a + b + c + d == a + (b + (c + d))
  {
  }

  lemma Regroup(a: seq<Byte>, b: seq<Byte>, c: seq<Byte>, d: seq<Byte>, e: seq<Byte>)
    ensures a + b + c + d + e == a + (b + (c + (d + e)))
  {
  }

  /** The members of an object are taken in order, and the last of equal keys wins. */
  lemma {:induction false} ParseMembers(trees: map<Key, Tree>, ms: seq<Member>, rest: seq<Byte>, tidy: bool, outer: bool)
    requires ValidMembers(ms) && Stops(rest)
    ensures ParseBody(Obj(trees), MembersText(ms) + rest, None, tidy, outer) ==
            if ConvertibleMembers(ms) then ParseBody(Obj(MemberTrees(ms, trees)), rest, None, tidy, outer) else None
    decreases ms
  {
    hide ParseBody, Lead, Around, Comma, Text, CharsBytes, Meaning, MembersText, MemberTrees, Convertible;
    if ms == [] {
      NoMembers(trees);
      assert [] + rest == rest;
    } else {
      var key := Some(Str(CharsBytes(ms[0].key)));
      var more := trees[KStr(CharsBytes(ms[0].key)) := Meaning(ms[0].item.doc)];
      var comma := Comma(|ms| - 1);
      var tail := MembersText(ms[1..]) + rest;
      var body := Around(ms[0].item, Text(ms[0].item.doc));
      MembersSplit(ms, rest);
      if |ms| == 1 {
        NoMembers(trees);
        assert ms[1..] == [] && [] + rest == rest;
      }
      CommaStops(|ms| - 1, tail);
      ParseLead(trees, ms[0], body + (comma + tail), tidy, outer);
      ParseItem(Obj(trees), ms[0].item, comma + tail, key, tidy, outer);
      CommaOnly(|ms| - 1);
      ParseBlank(Obj(more), comma, tail, None, tidy, outer);
      ParseMembers(more, ms[1..], rest, tidy, outer);
      MemberTreesNext(trees, ms);
    }
  }

  lemma NoMembers(trees: map<Key, Tree>)
    ensures MembersText([]) == [] && MemberTrees([], trees) == trees
  {}

  lemma MemberTreesNext(trees: map<Key, Tree>, ms: seq<Member>)
    requires ms != [] && ValidMembers(ms)
    ensures MemberTrees(ms, trees) == MemberTrees(ms[1..], trees[KStr(CharsBytes(ms[0].key)) := Meaning(ms[0].item.doc)])
  {
    hide Meaning, CharsBytes;
  }

  // ---------- the whole text ----------

  lemma {:induction false} AllSpace(w: seq<Byte>)
    requires Whites(w)
    ensures SkipSpace(w) == [] && Stops(w)
    decreases |w|
  {
    if w == [] {
    } else {
      assert White(w[0]);
      AllSpace(w[1..]);
    }
  }

  lemma {:induction false} SkipsBlank(w: seq<Byte>, rest: seq<Byte>)
    requires Whites(w)
    ensures Parse(w + rest) == Parse(rest)
    decreases |w|
  {
    if w == [] {
      assert w + rest == rest;
    } else {
      assert (w + rest)[1..] == w[1..] + rest;
      SkipsBlank(w[1..], rest);
    }
  }

  lemma ReadsValue(d: Doc, post: seq<Byte>)
    requires Valid(d) && Whites(post)
    ensures Parse(Text(d) + post) == if Convertible(d) then Some(Loaded(Meaning(d), None, true)) else None
  {
    hide ParseBody, Text, SkipSpace;
    AllSpace(post);
    if Composite(d) {
      InsideText(d, post);
      ParseOpen(d, post, true, true);
      ReadsBracket(if d.DObj? then LBRACE else LBRACK, Inside(d) + post);
    } else {
      LexAtom(d, post);
    }
  }

  lemma ReadsBracket(b: Byte, rest: seq<Byte>)
    requires b == LBRACK || b == LBRACE
    ensures Parse([b] + rest) ==
            match ParseBody(Hollow(b == LBRACE), rest, None, true, true)
            case None => None
            case Some(i) => if Ends(i.rest) then Some(Loaded(i.content, i.key, i.tidy)) else None
  {
    hide ParseBody;
    assert ([b] + rest)[1..] == rest;
  }

  /** Every JSON text, however it is spaced, escaped and nested, is accepted if and only if the
      interpreter converts its numbers; the object graph left behind reads as the value the text
      denotes, the last of equal keys wins, and no key was pending at any push or pop. */
  lemma LoadsEveryText(pre: seq<Byte>, d: Doc, post: seq<Byte>)
    requires Whites(pre) && Valid(d) && Whites(post)
    ensures var r := Loop(EMPTY, pre + Text(d) + post);
            && (r.Some? <==> Convertible(d))
            && (r.Some? ==>
                  r.value.top.Some? && r.value.tidy && r.value.key == None
                  && Read(r.value.heap, r.value.top.value, 0) == Meaning(d))
  {
    hide Loop, Text, Parse, Read, Convertible;
    assert pre + Text(d) + post == pre + (Text(d) + post);
    SkipsBlank(pre, Text(d) + post);
    ReadsValue(d, post);
    MachineIsReader(pre + Text(d) + post);
  }

  /** Texts outside the grammar that are taken all the same: an outermost list that is never closed,
      brackets that do not match, and a key without a value, which is dropped. */
  lemma TakesMore()
    ensures Parse([LBRACK]) == Some(Loaded(Arr([]), None, true))
    ensures Parse([LBRACK, RBRACE]) == Some(Loaded(Arr([]), None, true))
    ensures Parse([LBRACE, QUOTE, QUOTE, RBRACK]) == Some(Loaded(Obj(map[]), Some(Str([])), false))
  {
    ReadsBracket(LBRACK, []);
    assert [LBRACK] + [] == [LBRACK];
    ReadsBracket(LBRACK, [RBRACE]);
    assert [LBRACK] + [RBRACE] == [LBRACK, RBRACE];
    ParseBracket(Arr([]), RBRACE, [], None, true, true);
    assert [RBRACE] + [] == [RBRACE];
    var key := StringText([]);
    assert [QUOTE, QUOTE, RBRACK] == key + [RBRACK];
    ReadsBracket(LBRACE, [QUOTE, QUOTE, RBRACK]);
    assert [LBRACE] + [QUOTE, QUOTE, RBRACK] == [LBRACE, QUOTE, QUOTE, RBRACK];
    ParseKey(map[], [], [RBRACK], true, true);
    ParseBracket(Obj(map[]), RBRACK, [], Some(Str([])), true, true);
    assert [RBRACK] + [] == [RBRACK];
  }

  /** Texts that are refused: nothing, a closing bracket alone, an inner container that is never
      closed, a container for a key, and anything but space behind the value. */
  lemma StillRefused(rest: seq<Byte>)
    ensures Parse([]) == None && Parse([RBRACK] + rest) == None
    ensures Parse([LBRACK] + [LBRACK]) == None
    ensures Parse([LBRACE] + ([LBRACK] + rest)) == None
    ensures Parse([LBRACK] + ([RBRACK] + ([RBRACK] + rest))) == None
  {
    assert ([RBRACK] + rest)[1..] == rest;
    ReadsBracket(LBRACK, [LBRACK]);
    assert [LBRACK] == [LBRACK] + [];
    ParseBracket(Arr([]), LBRACK, [], None, true, true);
    ReadsBracket(LBRACE, [LBRACK] + rest);
    assert ([LBRACK] + rest)[1..] == rest;
    ReadsBracket(LBRACK, [RBRACK] + ([RBRACK] + rest));
    ParseBracket(Arr([]), RBRACK, [RBRACK] + rest, None, true, true);
  }

  /** A key that an inner dictionary left behind serves the next one: its first scalar is the value
      for that key. */
  lemma KeyCarriesOver()
    ensures var text := [LBRACK] + ([LBRACE] + (StringText([]) + ([RBRACE] + ([LBRACE] + (StringText([]) + ([RBRACE] + ([RBRACK] + [])))))));
            Parse(text) == Some(Loaded(Arr([Obj(map[]), Obj(map[KStr([]) := Scalar(Str([]))])]), None, false))
  {
    hide ParseBody, StringText, SkipSpace;
    var key := Some(Str([]));
    var t6 := [RBRACE] + ([RBRACK] + []);
    var t4 := [LBRACE] + (StringText([]) + t6);
    var t2 := StringText([]) + ([RBRACE] + t4);
    ReadsBracket(LBRACK, [LBRACE] + t2);
    // the first dictionary, which leaves its key behind
    ParseBracket(Arr([]), LBRACE, t2, None, true, true);
    ParseKey(map[], [], [RBRACE] + t4, true, false);
    ParseBracket(Obj(map[]), RBRACE, t4, key, true, false);
    // the second one
    OpenWithKey(t6);
    ParseBracket(Arr([Obj(map[]), Obj(map[KStr([]) := Scalar(Str([]))])]), RBRACK, [], None, false, true);
    AllSpace([]);
    assert [Obj(map[])] + [Obj(map[KStr([]) := Scalar(Str([]))])] == [Obj(map[]), Obj(map[KStr([]) := Scalar(Str([]))])];
    assert [] + [Obj(map[])] == [Obj(map[])];
  }

  lemma OpenWithKey(t: seq<Byte>)
    requires t == [RBRACE] + ([RBRACK] + [])
    ensures var full := Obj(map[KStr([]) := Scalar(Str([]))]);
            ParseBody(Arr([Obj(map[])]), [LBRACE] + (StringText([]) + t), Some(Str([])), false, true) ==
            ParseBody(Arr([Obj(map[])] + [full]), [RBRACK] + [], None, false, true)
  {
    hide StringText;
    var key := Some(Str([]));
    var full := Obj(map[KStr([]) := Scalar(Str([]))]);
    assert ([LBRACE] + (StringText([]) + t))[1..] == StringText([]) + t;
    LexString([], t);
    assert CharsBytes([]) == [];
    assert Cur(StringText([]) + t) == QUOTE by { QuoteFirst([], t); }
    ParseBracket(full, RBRACE, [RBRACK] + [], None, false, false);
    assert ParseBody(Obj(map[]), StringText([]) + t, key, false, false) == ParseBody(full, t, None, false, false);
  }

  lemma QuoteFirst(cs: seq<Ch>, rest: seq<Byte>)
    ensures Cur(StringText(cs) + rest) == QUOTE
  {}

  // ---------- which bytes are what ----------

  /** The bytes that can begin a token. */
  predicate Begins(c: Byte) {
    || c == COMMA || c == COLON || c == 0x20 || c == 0x09 || c == 0x0a || c == 0x0d
    || c == 0x6e || c == 0x66 || c == 0x74 || c == QUOTE
    || c == MINUS || (0x30 <= c && c <= 0x39)
    || c == LBRACK || c == RBRACK || c == LBRACE || c == RBRACE
  }

  /** Any other byte is a syntax error; blanks and brackets are one byte; the literals are exactly
      their letters. */
  lemma LexIs(s: seq<Byte>)
    requires s != []
    ensures !Begins(s[0]) ==> Lex(s) == (Bad, [])
    ensures Lex(s).0 == Blank <==> s[0] in {COMMA, COLON, 0x20, 0x09, 0x0a, 0x0d}
    ensures Lex(s).0 == Open(false) <==> s[0] == LBRACK
    ensures Lex(s).0 == Open(true) <==> s[0] == LBRACE
    ensures Lex(s).0 == Close <==> s[0] == RBRACK || s[0] == RBRACE
    ensures Lex(s).0.Blank? || Lex(s).0.Open? || Lex(s).0.Close? ==> Lex(s).1 == s[1..]
    ensures s[0] == 0x6e ==> Lex(s) == if [0x6e, 0x75, 0x6c, 0x6c] <= s then (Value(Null), s[4..]) else (Bad, [])
    ensures s[0] == 0x74 ==> Lex(s) == if [0x74, 0x72, 0x75, 0x65] <= s then (Value(Bool(true)), s[4..]) else (Bad, [])
    ensures s[0] == 0x66 ==> Lex(s) == if [0x66, 0x61, 0x6c, 0x73, 0x65] <= s then (Value(Bool(false)), s[5..]) else (Bad, [])
  {
    hide ScanString, Utf8Check, Literal, NumberRun;
    var rest := s[1..];
    LiteralIs(rest, [0x75, 0x6c, 0x6c], Null);
    LiteralIs(rest, [0x72, 0x75, 0x65], Bool(true));
    LiteralIs(rest, [0x61, 0x6c, 0x73, 0x65], Bool(false));
    WholeWord(s, [0x75, 0x6c, 0x6c]);
    WholeWord(s, [0x72, 0x75, 0x65]);
    WholeWord(s, [0x61, 0x6c, 0x73, 0x65]);
    assert [0x6e, 0x75, 0x6c, 0x6c] == [0x6e] + [0x75, 0x6c, 0x6c] && [0x74, 0x72, 0x75, 0x65] == [0x74] + [0x72, 0x75, 0x65];
    assert [0x66, 0x61, 0x6c, 0x73, 0x65] == [0x66] + [0x61, 0x6c, 0x73, 0x65];
  }

  lemma WholeWord(s: seq<Byte>, word: seq<Byte>)
    requires s != []
    ensures word <= s[1..] <==> [s[0]] + word <= s
    ensures |word| < |s| ==> s[1..][|word|..] == s[|word| + 1..]
  {
    if word <= s[1..] {
      forall i | 0 <= i < |word| + 1 ensures ([s[0]] + word)[i] == s[i] {
        if i > 0 { assert word[i - 1] == s[1..][i - 1]; }
      }
      assert s[..|word| + 1] == [s[0]] + word;
    }
    if [s[0]] + word <= s {
      forall i | 0 <= i < |word| ensures word[i] == s[1..][i] { assert ([s[0]] + word)[i + 1] == s[i + 1]; }
      assert s[1..][..|word|] == word;
    }
  }

  lemma {:induction false} LiteralIs(s: seq<Byte>, word: seq<Byte>, a: Atom)
    requires forall i :: 0 <= i < |word| ==> word[i] != 0
    ensures Literal(s, word, a) == if word <= s then (Value(a), s[|word|..]) else (Bad, [])
    decreases |word|
  {
    if word == [] {
      assert s[0..] == s;
    } else if s != [] && s[0] == word[0] {
      LiteralIs(s[1..], word[1..], a);
      WholeWord(s, word[1..]);
      assert [s[0]] + word[1..] == word;
    }
  }

  /** A string needs its closing quote; an escape that is not in the table stands for itself. */
  lemma StringsEnd(u: seq<Byte>, acc: seq<Byte>)
    requires forall i :: 0 <= i < |u| ==> u[i] != 0 && u[i] != QUOTE && u[i] != BACKSLASH
    ensures ScanString(u, acc) == None && ScanString(u + [QUOTE], acc) == Some((acc + u, []))
  {
    ScanPlain(u, acc, []);
    assert u + [] == u;
    ScanPlain(u, acc, [QUOTE]);
  }

  lemma OtherEscapes(c: Byte)
    requires ShortEscape(c) == None
    ensures Escaped(c) == c
  {}

  /** n bytes of space, tab, line or page break, and then the end or a zero byte. */
  predicate Trailing(s: seq<Byte>, n: nat) {
    && n <= |s| && (n == |s| || s[n] == 0)
    && forall i :: 0 <= i < n ==> s[i] == 0x20 || (0x09 <= s[i] && s[i] <= 0x0d)
  }

  /** That is how a text may end, and no other way. */
  lemma {:induction false} EndsIs(s: seq<Byte>)
    ensures Ends(s) <==> exists n: nat :: Trailing(s, n)
    decreases |s|
  {
    if s == [] {
      assert Trailing(s, 0);
    } else if Space(s[0]) {
      EndsIs(s[1..]);
      if Ends(s[1..]) {
        var n: nat :| Trailing(s[1..], n);
        TrailingMore(s, n);
      }
      if exists n: nat :: Trailing(s, n) {
        var n: nat :| Trailing(s, n);
        TrailingMore(s, n - 1);
      }
    } else {
      assert Trailing(s, 0) <==> s[0] == 0;
    }
  }

  lemma TrailingMore(s: seq<Byte>, n: nat)
    requires s != [] && Space(s[0])
    ensures Trailing(s[1..], n) <==> Trailing(s, n + 1)
  {
    assert forall i :: 0 <= i < |s| - 1 ==> s[1..][i] == s[i + 1];
    if Trailing(s[1..], n) {
      forall i | 0 <= i < n + 1 ensures s[i] == 0x20 || (0x09 <= s[i] && s[i] <= 0x0d) {
        if i > 0 { assert s[1..][i - 1] == s[i]; }
      }
    }
  }

  /** The UTF-8 check accepts exactly the concatenations of encoded characters: what it accepts can
      be cut after its first one. */
  lemma CheckCuts(s: seq<Byte>)
    requires s != [] && Utf8Check(s, 0)
    ensures exists n: nat :: 1 <= n <= 4 && n <= |s| && Encoded(s[..n]) && Utf8Check(s[n..], 0)
  {
    hide Announced, Continues;
    LeadTable(s[0]);
    var need := if s[0] >= 0xc0 then Announced(s[0]) else 0;
    CheckTrail(s[1..], need);
    var n := need + 1;
    assert s[1..][need..] == s[n..];
    assert forall i :: 1 <= i < n ==> s[i] == s[1..][i - 1];
    assert Encoded(s[..n]);
  }

  lemma LeadTable(b: Byte)
    ensures 0xc0 <= b < 0xf8 ==> 1 <= Announced(b) <= 3
    ensures 0xc0 <= b < 0xf8 && Announced(b) == 1 ==> b & 0xe0 == 0xc0
    ensures 0xc0 <= b < 0xf8 && Announced(b) == 2 ==> b & 0xf0 == 0xe0
    ensures 0xc0 <= b < 0xf8 && Announced(b) == 3 ==> b & 0xf8 == 0xf0
  {}

  lemma {:induction false} CheckTrail(s: seq<Byte>, need: nat)
    requires Utf8Check(s, need)
    ensures need <= |s| && (forall i :: 0 <= i < need ==> Continues(s[i])) && Utf8Check(s[need..], 0)
    decreases need
  {
    if need == 0 {
      assert s[0..] == s;
    } else {
      CheckTrail(s[1..], need - 1);
      assert s[1..][need - 1..] == s[need..];
      assert forall i :: 1 <= i < need ==> s[i] == s[1..][i - 1];
    }
  }
}
