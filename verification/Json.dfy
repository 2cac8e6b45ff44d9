/** The JSON loader of extmod/modjson.c: one pass over a byte stream with an explicit stack of
    the containers being built, each already stored in its parent when it is entered. */
module Json {
  import opened Common

  // ---------- Python objects ----------

  /** An object that holds no other. A number is kept as the text handed to the converter and
      whether the float converter was chosen. */
  datatype Atom = Null | Bool(b: bool) | Num(text: seq<Byte>, flt: bool) | Str(bytes: seq<Byte>)

  datatype Val = Leaf(a: Atom) | Ref(at: nat)

  /** What a dictionary tells its keys apart by: numbers and truth values that are equal are one key. */
  datatype Key = KNull | KNumber(kind: int) | KStr(bytes: seq<Byte>)

  /** Whether the interpreter's converter, for floats or for integers, takes this text. It may be any
      such predicate. */
  const NumberAccepted: (seq<Byte>, bool) -> bool

  /** Which numbers and truth values the interpreter takes for equal. It may be any such classes. */
  const NumberClass: Atom -> int

  function KeyOf(a: Atom): Key {
    match a
    case Null => KNull
    case Str(bytes) => KStr(bytes)
    case _ => KNumber(NumberClass(a))
  }

  datatype Container = ListObj(items: seq<Val>) | DictObj(entries: map<Key, Val>)

  /** What a value is worth once all references are followed. */
  datatype Tree = Scalar(a: Atom) | Arr(items: seq<Tree>) | Obj(members: map<Key, Tree>)

  // ---------- the stream ----------

  function Cur(s: seq<Byte>): Byte { if s == [] then 0 else s[0] }

  function Next(s: seq<Byte>): seq<Byte> { if s == [] then [] else s[1..] }

  const QUOTE: Byte := 0x22
  const BACKSLASH: Byte := 0x5c
  const COMMA: Byte := 0x2c
  const COLON: Byte := 0x3a
  const LBRACK: Byte := 0x5b
  const RBRACK: Byte := 0x5d
  const LBRACE: Byte := 0x7b
  const RBRACE: Byte := 0x7d
  const MINUS: Byte := 0x2d
  const PLUS: Byte := 0x2b
  const DOT: Byte := 0x2e

  /** The four JSON whitespace bytes. */
  predicate White(b: Byte) { b == 0x20 || b == 0x09 || b == 0x0a || b == 0x0d }

  /** unichar_isspace */
  predicate Space(b: Byte) { b == 0x20 || (0x09 <= b && b <= 0x0d) }

  predicate Digit(b: Byte) { 0x30 <= b && b <= 0x39 }

  predicate FloatMark(b: Byte) { b == DOT || b == 0x45 || b == 0x65 }

  predicate NumberByte(b: Byte) { FloatMark(b) || b == PLUS || b == MINUS || Digit(b) }

  // ---------- strings ----------

  /** The byte that an escape stands for; unknown escapes stand for themselves. */
  function Escaped(c: Byte): Byte {
    if c == 0x62 then 0x08 else if c == 0x66 then 0x0c else if c == 0x6e then 0x0a
    else if c == 0x72 then 0x0d else if c == 0x74 then 0x09 else c
  }

  /** One hexadecimal digit as the loader computes it, in byte arithmetic. */
  function HexByte(b: Byte): Byte {
    var c := (b | 0x20) - 0x30;
    if c > 9 then c - 39 else c
  }

  function PushHex(num: bv32, b: Byte): bv32 { (num << 4) | (HexByte(b) as bv32) }

  function Low(c: bv32): Byte { (c & 0xff) as Byte }

  /** vstr_add_char: the UTF-8 encoding of a code point. */
  function Utf8(c: bv32): seq<Byte> {
    if c < 0x80 then [Low(c)]
    else if c < 0x800 then [Low((c >> 6) | 0xc0), Low((c & 0x3f) | 0x80)]
    else if c < 0x10000 then [Low((c >> 12) | 0xe0), Low(((c >> 6) & 0x3f) | 0x80), Low((c & 0x3f) | 0x80)]
    else [Low((c >> 18) | 0xf0), Low(((c >> 12) & 0x3f) | 0x80), Low(((c >> 6) & 0x3f) | 0x80), Low((c & 0x3f) | 0x80)]
  }

  /** What one turn of the string loop adds, and what is left of the stream. */
  function ScanChar(s: seq<Byte>): (r: (seq<Byte>, seq<Byte>))
    requires s != []
    ensures |r.1| < |s|
  {
    if Cur(s) != BACKSLASH then ([Cur(s)], Next(s))
    else
      var s1 := Next(s);
      if Cur(s1) != 0x75 then ([Escaped(Cur(s1))], Next(s1))
      else
        var s2 := Next(s1);
        var s3 := Next(s2);
        var s4 := Next(s3);
        var s5 := Next(s4);
        (Utf8(PushHex(PushHex(PushHex(PushHex(0, Cur(s2)), Cur(s3)), Cur(s4)), Cur(s5))), Next(s5))
  }

  /** The string up to its closing quote. */
  function ScanString(s: seq<Byte>, acc: seq<Byte>): (r: Option<(seq<Byte>, seq<Byte>)>)
    ensures r.Some? ==> |r.value.1| < |s|
    decreases |s|
  {
    if Cur(s) == 0 then None
    else if Cur(s) == QUOTE then Some((acc, Next(s)))
    else ScanString(ScanChar(s).1, acc + ScanChar(s).0)
  }

  method ReadString(input: seq<Byte>) returns (r: Option<(seq<Byte>, seq<Byte>)>)
    ensures r == ScanString(input, [])
  {
    var s, vstr := input, [];
    while Cur(s) != 0 && Cur(s) != QUOTE
      invariant ScanString(s, vstr) == ScanString(input, [])
      decreases |s|
    {
      var start := s;
      var c := Cur(s);
      if c == BACKSLASH {
        s := Next(s);
        c := Cur(s);
        if c == 0x75 {
          var num: bv32 := 0;
          s := Next(s);
          num := PushHex(num, Cur(s));
          s := Next(s);
          num := PushHex(num, Cur(s));
          s := Next(s);
          num := PushHex(num, Cur(s));
          s := Next(s);
          num := PushHex(num, Cur(s));
          vstr := vstr + Utf8(num);
        } else {
          vstr := vstr + [Escaped(c)];
        }
      } else {
        vstr := vstr + [c];
      }
      s := Next(s);
      assert s == ScanChar(start).1;
    }
    return if Cur(s) == 0 then None else Some((vstr, Next(s)));
  }

  /** UTF8_IS_CONT */
  predicate Continues(b: Byte) { b & 0xc0 == 0x80 }

  /** The number of continuation bytes that a lead byte announces, from a packed table. */
  function Announced(lead: Byte): nat { (((0xe5 as Byte) >> ((lead >> 3) & 0x6)) & 3) as nat }

  /** utf8_check, with `need` continuation bytes still due. */
  predicate Utf8Check(s: seq<Byte>, need: nat) {
    if s == [] then need == 0
    else if need > 0 then Continues(s[0]) && Utf8Check(s[1..], need - 1)
    else if s[0] >= 0xc0 then s[0] < 0xf8 && Utf8Check(s[1..], Announced(s[0]))
    else s[0] < 0x80 && Utf8Check(s[1..], 0)
  }

  method CheckUtf8(s: seq<Byte>) returns (ok: bool)
    ensures ok == Utf8Check(s, 0)
  {
    hide Announced, Continues;
    var need := 0;
    for i := 0 to |s|
      invariant need >= 0 && Utf8Check(s[i..], need) == Utf8Check(s, 0)
    {
      var c := s[i];
      assert s[i..][1..] == s[i + 1..];
      if need > 0 {
        if !Continues(c) { return false; }
        need := need - 1;
      } else if c >= 0xc0 {
        if c >= 0xf8 { return false; }
        need := Announced(c);
      } else if c >= 0x80 {
        return false;
      }
    }
    return need == 0;
  }

  // ---------- numbers ----------

  /** The longest run of number bytes. */
  function NumberRun(s: seq<Byte>): (n: nat)
    ensures n <= |s| && (forall i :: 0 <= i < n ==> NumberByte(s[i])) && (n < |s| ==> !NumberByte(s[n]))
  {
    if s == [] || !NumberByte(s[0]) then 0 else 1 + NumberRun(s[1..])
  }

  predicate HasFloatMark(text: seq<Byte>) { exists i :: 0 <= i < |text| && FloatMark(text[i]) }

  /** The token that starts with byte `first`, and the rest of the stream. */
  method ReadNumber(first: Byte, input: seq<Byte>) returns (a: Atom, rest: seq<Byte>)
    requires Digit(first) || first == MINUS
    ensures var text := [first] + input[..NumberRun(input)];
            a == Num(text, HasFloatMark(text)) && rest == input[NumberRun(input)..]
  {
    var n, flt := 0, false;
    var vstr := [first];
    while n < |input| && NumberByte(input[n])
      invariant 0 <= n <= NumberRun(input) && vstr == [first] + input[..n]
      invariant flt == HasFloatMark(vstr)
    {
      if FloatMark(input[n]) {
        flt := true;
        assert ([first] + input[..n + 1])[n + 1] == input[n];
      }
      ghost var old' := vstr;
      vstr := vstr + [input[n]];
      assert vstr == [first] + input[..n + 1];
      assert HasFloatMark(vstr) <==> HasFloatMark(old') || FloatMark(input[n]) by {
        assert forall i :: 0 <= i < |old'| ==> vstr[i] == old'[i];
      }
      n := n + 1;
    }
    return Num(vstr, flt), input[n..];
  }

  // ---------- one turn of the loop ----------

  datatype Lexeme = Blank | Bad | Value(a: Atom) | Open(dict: bool) | Close

  /** Matches the rest of a literal. */
  function Literal(s: seq<Byte>, word: seq<Byte>, a: Atom): (r: (Lexeme, seq<Byte>))
    ensures |r.1| <= |s|
  {
    if word == [] then (Value(a), s)
    else if Cur(s) == word[0] then Literal(Next(s), word[1..], a)
    else (Bad, [])
  }

  /** The switch on the current byte: what it is, and the stream after it. */
  function Lex(s: seq<Byte>): (r: (Lexeme, seq<Byte>))
    requires s != []
    ensures |r.1| < |s|
  {
    var c, rest := s[0], s[1..];
    if c == COMMA || c == COLON || White(c) then (Blank, rest)
    else if c == 0x6e then Literal(rest, [0x75, 0x6c, 0x6c], Null)
    else if c == 0x66 then Literal(rest, [0x61, 0x6c, 0x73, 0x65], Bool(false))
    else if c == 0x74 then Literal(rest, [0x72, 0x75, 0x65], Bool(true))
    else if c == QUOTE then
      (match ScanString(rest, [])
       case None => (Bad, [])
       case Some((bytes, after)) => if Utf8Check(bytes, 0) then (Value(Str(bytes)), after) else (Bad, []))
    else if c == MINUS || Digit(c) then
      var text := [c] + rest[..NumberRun(rest)];
      if NumberAccepted(text, HasFloatMark(text)) then (Value(Num(text, HasFloatMark(text))), rest[NumberRun(rest)..])
      else (Bad, [])
    else if c == LBRACK then (Open(false), rest)
    else if c == LBRACE then (Open(true), rest)
    else if c == RBRACE || c == RBRACK then (Close, rest)
    else (Bad, [])
  }

  /** The loader's variables. `tidy` records that the pending key was empty at every push and
      pop so far. */
  datatype Machine = Machine(heap: seq<Container>, stack: seq<nat>, top: Option<Val>, key: Option<Atom>, tidy: bool)

  const EMPTY := Machine([], [], None, None, true)

  /** Every container index in use is allocated. */
  ghost predicate Sane(m: Machine) {
    && (m.top.Some? && m.top.value.Ref? ==> m.top.value.at < |m.heap|)
    && (forall i :: 0 <= i < |m.stack| ==> m.stack[i] < |m.heap|)
    && (m.top == None ==> m.stack == [])
  }

  /** Appends to the list on top, or completes or starts a dictionary entry. */
  function Attach(m: Machine, v: Val): (r: Option<Machine>)
    requires m.top.Some? && m.top.value.Ref? && m.top.value.at < |m.heap|
    ensures r.Some? ==> r.value.stack == m.stack && r.value.top == m.top && |r.value.heap| == |m.heap|
  {
    var t := m.top.value.at;
    match m.heap[t]
    case ListObj(items) => Some(m.(heap := m.heap[t := ListObj(items + [v])]))
    case DictObj(entries) =>
      if m.key.Some? then Some(m.(heap := m.heap[t := DictObj(entries[KeyOf(m.key.value) := v])], key := None))
      else if v.Leaf? then Some(m.(key := Some(v.a)))
      else None
  }

  function Fresh(dict: bool): Container { if dict then DictObj(map[]) else ListObj([]) }

  /** '[' or '{': allocate, attach to the parent, and make the new container the top. */
  function Enter(m: Machine, dict: bool): Option<Machine>
    requires m.top.Some? ==> m.top.value.Ref? && m.top.value.at < |m.heap|
  {
    var n := |m.heap|;
    if m.top == None then Some(m.(heap := m.heap + [Fresh(dict)], top := Some(Ref(n))))
    else
      match Attach(m, Ref(n))
      case None => None
      case Some(a) =>
        Some(a.(heap := a.heap + [Fresh(dict)], stack := m.stack + [m.top.value.at], top := Some(Ref(n)),
                tidy := m.tidy && a.key == None))
  }

  /** ']' or '}' inside another container. */
  function Leave(m: Machine): Machine
    requires m.stack != []
  {
    var n := |m.stack| - 1;
    m.(stack := m.stack[..n], top := Some(Ref(m.stack[n])), tidy := m.tidy && m.key == None)
  }

  function SkipSpace(s: seq<Byte>): seq<Byte> {
    if s != [] && Space(s[0]) then SkipSpace(s[1..]) else s
  }

  /** After the loop: trailing space, then nothing, and exactly one object. */
  function Finish(m: Machine, s: seq<Byte>): Option<Machine> {
    if Cur(SkipSpace(s)) != 0 || m.top == None || m.stack != [] then None else Some(m)
  }

  /** The loop: None is the ValueError, that of a number's
      conversion and the UnicodeError for a string included. */
  function Loop(m: Machine, s: seq<Byte>): Option<Machine>
    requires Sane(m) && (m.top.Some? ==> m.top.value.Ref?)
    decreases |s|
  {
    if Cur(s) == 0 then Finish(m, s)
    else
      var (x, rest) := Lex(s);
      match x
      case Bad => None
      case Blank => Loop(m, rest)
      case Value(a) =>
        if m.top == None then Finish(m.(top := Some(Leaf(a))), rest)
        else (match Attach(m, Leaf(a)) case None => None case Some(n) => Loop(n, rest))
      case Open(dict) =>
        (match Enter(m, dict) case None => None case Some(n) => Loop(n, rest))
      case Close =>
        if m.top == None then None
        else if m.stack == [] then Finish(m.(tidy := m.tidy && m.key == None), rest)
        else Loop(Leave(m), rest)
  }

  /** Compares the stream with the rest of a literal, byte by byte. */
  method ReadWord(input: seq<Byte>, word: seq<Byte>, a: Atom) returns (x: Lexeme, rest: seq<Byte>)
    ensures (x, rest) == Literal(input, word, a)
  {
    rest := input;
    for i := 0 to |word|
      invariant Literal(rest, word[i..], a) == Literal(input, word, a)
    {
      assert word[i..][1..] == word[i + 1..];
      if Cur(rest) != word[i] { return Bad, []; }
      rest := Next(rest);
    }
    x := Value(a);
  }

  /** The switch, with its inner loops. */
  method ReadToken(s: seq<Byte>) returns (x: Lexeme, rest: seq<Byte>)
    requires s != []
    ensures (x, rest) == Lex(s)
  {
    hide Literal, ScanString, Utf8Check;
    var cur := Cur(s);
    rest := Next(s);
    if cur == COMMA || cur == COLON || White(cur) {
      return Blank, rest;
    } else if cur == 0x6e {
      x, rest := ReadWord(rest, [0x75, 0x6c, 0x6c], Null);
    } else if cur == 0x66 {
      x, rest := ReadWord(rest, [0x61, 0x6c, 0x73, 0x65], Bool(false));
    } else if cur == 0x74 {
      x, rest := ReadWord(rest, [0x72, 0x75, 0x65], Bool(true));
    } else if cur == QUOTE {
      var str := ReadString(rest);
      if str == None { return Bad, []; }
      var ok := CheckUtf8(str.value.0);
      if !ok { return Bad, []; }
      return Value(Str(str.value.0)), str.value.1;
    } else if cur == MINUS || Digit(cur) {
      var a;
      a, rest := ReadNumber(cur, rest);
      if !NumberAccepted(a.text, a.flt) { return Bad, []; }
      return Value(a), rest;
    } else if cur == LBRACK {
      return Open(false), rest;
    } else if cur == LBRACE {
      return Open(true), rest;
    } else if cur == RBRACE || cur == RBRACK {
      return Close, rest;
    } else {
      return Bad, [];
    }
  }

  /** mod_json_load */
  method Load(input: seq<Byte>) returns (r: Option<Machine>)
    ensures r == Loop(EMPTY, input)
  {
    hide Lex;
    var m, s := EMPTY, input;
    while Cur(s) != 0
      invariant Sane(m) && (m.top.Some? ==> m.top.value.Ref?)
      invariant Loop(m, s) == Loop(EMPTY, input)
      decreases |s|
    {
      var x, rest := ReadToken(s);
      match x {
        case Bad => return None;
        case Blank => s := rest;
        case Value(a) =>
          if m.top == None {
            return Finish(m.(top := Some(Leaf(a))), rest);
          }
          var n := Attach(m, Leaf(a));
          if n == None { return None; }
          m, s := n.value, rest;
        case Open(dict) =>
          var n := Enter(m, dict);
          if n == None { return None; }
          m, s := n.value, rest;
        case Close =>
          if m.top == None { return None; }
          if m.stack == [] {
            return Finish(m.(tidy := m.tidy && m.key == None), rest);
          }
          m, s := Leave(m), rest;
      }
    }
    return Finish(m, s);
  }
}
