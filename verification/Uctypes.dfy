/** Structure layout of extmod/moductypes.c: `sizeof` threads the largest field size through a
    descriptor, field access computes addresses on its own, and the two agree. */
module Uctypes {
  import opened Common

  /** The Python values a descriptor is made of. A dictionary is listed in slot order. */
  datatype Py = Int(v: int) | Tuple(items: seq<Py>) | Dict(fields: seq<Entry>) | Other

  datatype Entry = Entry(key: string, desc: Py)

  datatype Layout = LittleEndian | BigEndian | Native

  datatype Error = Syntax | SizeofScalar | NoFields | NoSuchField | CannotIndex | IndexRange | BadType

  const UINT8 := 0
  const INT64 := 7
  const BFUINT8 := 8
  const BFINT32 := 13
  const FLOAT32 := 14
  const FLOAT64 := 15
  const STRUCT := 0
  const PTR := 1
  const ARRAY := 2

  /** A descriptor word keeps its type in the top bits of 31 and its value below them. */
  function ValType(w: int): (t: int) ensures 0 <= t <= 15 { w / 0x800_0000 % 16 }
  function Value(w: int): (v: nat) { w % 0x800_0000 }
  function AggType(w: int): (t: int) ensures 0 <= t <= 3 { w / 0x2000_0000 % 4 }
  function AggOffset(w: int): (v: nat) { w % 0x2000_0000 }

  predicate IsBitField(t: int) { BFUINT8 <= t <= BFINT32 }

  /** Byte offset of a scalar field; a bit field keeps its bit position above 17 bits. */
  function ScalarOffset(w: int): nat {
    if IsBitField(ValType(w)) then Value(w) % 0x2_0000 else Value(w)
  }

  function ScalarSize(t: int): (s: nat)
    requires 0 <= t <= 15
    ensures s in {1, 2, 4, 8}
  {
    if t == FLOAT32 then 4
    else if t % 8 / 2 == 0 then 1 else if t % 8 / 2 == 1 then 2 else if t % 8 / 2 == 2 then 4 else 8
  }

  /** Rounding with the mask `~(max - 1)`, for a power of two; a zero max masks all bits away. */
  function RoundUp(size: nat, max: nat): nat
  {
    if max == 0 then 0 else (size + max - 1) / max * max
  }

  /** A computed size together with the largest field size seen so far. */
  datatype Sized = Sized(size: nat, max: nat)

  /** The machine: pointer width and the layout asked for. */
  datatype Target = Target(pointer: nat, layout: Layout)

  predicate Supported(t: Target) { t.pointer == 4 || t.pointer == 8 }

  /** Every field size is a power of two up to 8; 0 is the starting value. */
  predicate FieldMax(m: nat) { m in {0, 1, 2, 4, 8} }

  function Size(d: Py, t: Target, max: nat): Result<Sized, Error>
    decreases d, 1
  {
    match d
    case Tuple(_) => AggSize(d, t, max)
    case Int(_) => Err(SizeofScalar)
    case Other => Err(Syntax)
    case Dict(fields) =>
      var r :- FieldsSize(fields, t, Sized(0, max));
      Ok(if t.layout == Native then Sized(RoundUp(r.size, r.max), r.max) else r)
  }

  function AggSize(d: Py, t: Target, max: nat): Result<Sized, Error>
    requires d.Tuple?
    decreases d, 0
  {
    var items := d.items;
    if |items| == 0 || !items[0].Int? then Err(Syntax)
    else if AggType(items[0].v) == STRUCT then
      if |items| != 2 then Err(Syntax) else Size(items[1], t, max)
    else if AggType(items[0].v) == PTR then
      if |items| != 2 then Err(Syntax) else Ok(Sized(t.pointer, Larger(max, t.pointer)))
    else if AggType(items[0].v) == ARRAY then
      if |items| < 2 || |items| > 3 || !items[1].Int? then Err(Syntax)
      else if |items| == 2 then
        var s := ScalarSize(ValType(items[1].v));
        Ok(Sized(Repeat(s, Value(items[1].v)), Larger(max, s)))
      else
        var s :- Size(items[2], t, max);
        Ok(Sized(Repeat(s.size, Value(items[1].v)), s.max))
    else Err(Syntax)
  }

  /** The size of so many items side by side. */
  function Repeat(size: nat, count: nat): nat { size * count }

  function Larger(a: nat, b: nat): nat { if b > a then b else a }

  /** Where one field of a structure ends, relative to the structure. */
  function FieldEnd(v: Py, t: Target, max: nat): Result<Sized, Error>
    decreases v, 2
  {
    match v
    case Int(w) =>
      var s := ScalarSize(ValType(w));
      Ok(Sized(ScalarOffset(w) + s, Larger(max, s)))
    case Tuple(items) =>
      if |items| == 0 || !items[0].Int? then Err(Syntax)
      else
        var s :- AggSize(v, t, max);
        Ok(Sized(AggOffset(items[0].v) + s.size, s.max))
    case _ => Err(Syntax)
  }

  function FieldsSize(fields: seq<Entry>, t: Target, acc: Sized): Result<Sized, Error>
    decreases fields, 3
  {
    if fields == [] then Ok(acc)
    else
      var end :- FieldEnd(fields[0].desc, t, acc.max);
      FieldsSize(fields[1..], t, Sized(Larger(acc.size, end.size), end.max))
  }

  /** uctypes_struct_agg_size */
  method ComputeAggSize(d: Py, t: Target, max: nat) returns (r: Result<Sized, Error>)
    requires d.Tuple?
    ensures r == AggSize(d, t, max)
    decreases d, 0
  {
    var items := d.items;
    if |items| == 0 || !items[0].Int? { return Err(Syntax); }
    var agg := AggType(items[0].v);
    if agg == STRUCT {
      if |items| != 2 { return Err(Syntax); }
      r := ComputeSize(items[1], t, max);
    } else if agg == PTR {
      if |items| != 2 { return Err(Syntax); }
      r := Ok(Sized(t.pointer, if t.pointer > max then t.pointer else max));
    } else if agg == ARRAY {
      if |items| < 2 || |items| > 3 || !items[1].Int? { return Err(Syntax); }
      var count := Value(items[1].v);
      if |items| == 2 {
        var s := ScalarSize(ValType(items[1].v));
        r := Ok(Sized(s * count, if s > max then s else max));
      } else {
        r := ComputeSize(items[2], t, max);
        if r.Ok? { r := Ok(Sized(r.value.size * count, r.value.max)); }
      }
    } else {
      r := Err(Syntax);
    }
  }

  /** uctypes_struct_size: one pass over the dictionary's slots, then the rounding. */
  method ComputeSize(d: Py, t: Target, max: nat) returns (r: Result<Sized, Error>)
    ensures r == Size(d, t, max)
    decreases d, 1
  {
    if !d.Dict? {
      if d.Tuple? { r := ComputeAggSize(d, t, max); return; }
      return Err(if d.Int? then SizeofScalar else Syntax);
    }
    var total: nat, largest: nat := 0, max;
    for i := 0 to |d.fields|
      invariant FieldsSize(d.fields, t, Sized(0, max)) == FieldsSize(d.fields[i..], t, Sized(total, largest))
    {
      var v := d.fields[i].desc;
      assert d.fields[i..][1..] == d.fields[i + 1..];
      if v.Int? {
        var s := ScalarSize(ValType(v.v));
        if s > largest { largest := s; }
        if ScalarOffset(v.v) + s > total { total := ScalarOffset(v.v) + s; }
      } else {
        if !v.Tuple? || |v.items| == 0 || !v.items[0].Int? { return Err(Syntax); }
        var s := ComputeAggSize(v, t, largest);
        if s.Err? { return s; }
        largest := s.value.max;
        var end := AggOffset(v.items[0].v) + s.value.size;
        if end > total { total := end; }
      }
    }
    if t.layout == Native { total := RoundUp(total, largest); }
    r := Ok(Sized(total, largest));
  }

  // ---------- field access ----------

  /** What an access yields: a nested object, or the bytes that the access touches. */
  datatype View = Object(desc: Py, addr: int) | Bytes(addr: int, size: nat)

  function Find(fields: seq<Entry>, name: string): Option<Py> {
    if fields == [] then None
    else if fields[0].key == name then Some(fields[0].desc)
    else Find(fields[1..], name)
  }

  /** uctypes_struct_attr_op: the address of a field. */
  function Attr(d: Py, addr: int, t: Target, name: string): Result<View, Error> {
    if !d.Dict? then Err(NoFields)
    else
      match Find(d.fields, name)
      case None => Err(NoSuchField)
      case Some(Int(w)) => Ok(Bytes(addr + ScalarOffset(w), ScalarSize(ValType(w))))
      case Some(Tuple(items)) =>
        if |items| == 0 || !items[0].Int? then Err(Syntax)
        else
          var at := addr + AggOffset(items[0].v);
          if AggType(items[0].v) == STRUCT then
            if |items| < 2 then Err(Syntax) else Ok(Object(items[1], at))
          else if AggType(items[0].v) == ARRAY && |items| == 2 && items[1].Int?
                  && ValType(items[1].v) == UINT8 then
            var s :- AggSize(Tuple(items), t, 0);
            Ok(Bytes(at, s.size))
          else if AggType(items[0].v) == ARRAY || AggType(items[0].v) == PTR then
            Ok(Object(Tuple(items), at))
          else Err(BadType)
      case Some(_) => Err(Syntax)
  }

  /** uctypes_struct_subscr: the address of an element. Indexing a pointer reads the pointer
      cell itself and then leaves the structure, so its view is that cell. */
  function Subscript(d: Py, addr: int, t: Target, index: nat): Result<View, Error> {
    if !d.Tuple? || |d.items| < 2 || !d.items[0].Int? then Err(CannotIndex)
    else if AggType(d.items[0].v) == ARRAY then
      if !d.items[1].Int? then Err(Syntax)
      else if index >= Value(d.items[1].v) then Err(IndexRange)
      else if |d.items| == 2 then
        var s := ScalarSize(ValType(d.items[1].v));
        Ok(Bytes(addr + s * index, s))
      else
        var s :- Size(d.items[2], t, 0);
        Ok(Object(d.items[2], addr + s.size * index))
    else if AggType(d.items[0].v) == PTR then Ok(Bytes(addr, t.pointer))
    else Err(BadType)
  }

  datatype Access = Field(name: string) | Element(index: nat)

  /** Follows a path of accesses; only an object can be followed further. */
  function Walk(v: View, t: Target, path: seq<Access>): Result<View, Error>
    decreases |path|
  {
    if path == [] then Ok(v)
    else if v.Bytes? then Err(NoFields)
    else
      var next :- match path[0]
                  case Field(name) => Attr(v.desc, v.addr, t, name)
                  case Element(i) => Subscript(v.desc, v.addr, t, i);
      Walk(next, t, path[1..])
  }

  // ---------- agreement ----------

  lemma RoundUpMonotone(a: nat, b: nat, m: nat, n: nat)
    requires a <= b && FieldMax(m) && FieldMax(n) && m <= n
    ensures RoundUp(a, m) <= RoundUp(b, n)
    ensures 0 < n ==> b <= RoundUp(b, n)
  {
    hide RoundUp;
    if n > 0 { RoundUpExact(b, n); }
    if m == 0 {
      NothingToRound(a);
    } else {
      RoundUpExact(a, m);
      // a multiple of n is a multiple of m, and the least one from a on is no further
      var q := RoundUp(b, n) / m;
      assert RoundUp(b, n) == m * q by { Multiple(RoundUp(b, n), m, n); }
      var p := RoundUp(a, m) / m;
      if q < p { MulMonotone(m, q, p - 1); }
    }
  }

  lemma NothingToRound(a: nat)
    ensures RoundUp(a, 0) == 0
  {}

  /** Of two field sizes the smaller divides the larger. */
  lemma Multiple(x: nat, m: nat, n: nat)
    requires FieldMax(m) && FieldMax(n) && 0 < m <= n && x % n == 0
    ensures x == m * (x / m)
  {
    var r := if n == m then 1 else if n == 2 * m then 2 else if n == 4 * m then 4 else 8;
    var y := x / n;
    assert x == n * y && n == m * r;
    assert (m * r) * y == m * (r * y);
    DivModUnique(x, m, r * y, 0);
  }

  ghost predicate Below(a: Result<Sized, Error>, b: Result<Sized, Error>) {
    && (a.Ok? <==> b.Ok?)
    && (a.Ok? ==> a.value.size <= b.value.size && a.value.max <= b.value.max
                  && FieldMax(a.value.max) && FieldMax(b.value.max))
  }

  /** The maximum that comes out is the larger of the one that went in and the part's own. */
  ghost predicate OwnMax(r: Result<Sized, Error>, m: nat, own: Result<Sized, Error>) {
    (r.Ok? <==> own.Ok?) && (r.Ok? ==> r.value.max == Larger(m, own.value.max))
  }

  /** The computed size is monotone in the threaded maximum, and the maximum that comes out is
      the larger of the one that went in and the descriptor's own. */
  lemma {:induction false} SizeMonotone(d: Py, t: Target, m: nat, n: nat)
    requires Supported(t) && FieldMax(m) && FieldMax(n) && m <= n
    ensures Below(Size(d, t, m), Size(d, t, n))
    ensures OwnMax(Size(d, t, m), m, Size(d, t, 0))
    decreases d, 1
  {
    match d
    case Dict(fields) =>
      FieldsMonotone(fields, t, Sized(0, m), Sized(0, n));
      FieldsMonotone(fields, t, Sized(0, 0), Sized(0, m));
      FieldsMax(fields, t, Sized(0, m), Sized(0, 0));
      if FieldsSize(fields, t, Sized(0, m)).Ok? {
        var a := FieldsSize(fields, t, Sized(0, m)).value;
        var b := FieldsSize(fields, t, Sized(0, n)).value;
        RoundUpMonotone(a.size, b.size, a.max, b.max);
      }
    case Tuple(_) => AggMonotone(d, t, m, n);
    case _ =>
  }

  lemma {:induction false} AggMonotone(d: Py, t: Target, m: nat, n: nat)
    requires d.Tuple? && Supported(t) && FieldMax(m) && FieldMax(n) && m <= n
    ensures Below(AggSize(d, t, m), AggSize(d, t, n))
    ensures OwnMax(AggSize(d, t, m), m, AggSize(d, t, 0))
    decreases d, 0
  {
    hide Size, Value, ValType, AggType, ScalarSize, Repeat;
    var items := d.items;
    if |items| == 2 && items[0].Int? && AggType(items[0].v) == STRUCT {
      SizeMonotone(items[1], t, m, n);
      SizeMonotone(items[1], t, 0, m);
    } else if |items| == 3 && items[0].Int? && AggType(items[0].v) == ARRAY && items[1].Int? {
      SizeMonotone(items[2], t, m, n);
      SizeMonotone(items[2], t, 0, m);
      if Size(items[2], t, m).Ok? {
        RepeatMonotone(Value(items[1].v), Size(items[2], t, m).value.size, Size(items[2], t, n).value.size);
      }
    }
  }

  lemma RepeatMonotone(count: nat, a: nat, b: nat)
    requires a <= b
    ensures Repeat(a, count) <= Repeat(b, count)
  {
    MulMonotone(count, a, b);
  }

  lemma {:induction false} EndMonotone(v: Py, t: Target, m: nat, n: nat)
    requires Supported(t) && FieldMax(m) && FieldMax(n) && m <= n
    ensures Below(FieldEnd(v, t, m), FieldEnd(v, t, n))
    ensures OwnMax(FieldEnd(v, t, m), m, FieldEnd(v, t, 0))
    decreases v, 2
  {
    if v.Tuple? {
      AggMonotone(v, t, m, n);
      AggMonotone(v, t, 0, m);
    }
  }

  lemma {:induction false} FieldsMonotone(fields: seq<Entry>, t: Target, a: Sized, b: Sized)
    requires Supported(t) && FieldMax(a.max) && FieldMax(b.max) && a.max <= b.max && a.size <= b.size
    ensures Below(FieldsSize(fields, t, a), FieldsSize(fields, t, b))
    ensures FieldsSize(fields, t, a).Ok? ==>
      a.size <= FieldsSize(fields, t, a).value.size && a.max <= FieldsSize(fields, t, a).value.max
    decreases fields, 3
  {
    if fields == [] {
    } else {
      EndMonotone(fields[0].desc, t, a.max, b.max);
      var x, y := FieldEnd(fields[0].desc, t, a.max), FieldEnd(fields[0].desc, t, b.max);
      if x.Ok? {
        FieldsMonotone(fields[1..], t,
          Sized(Larger(a.size, x.value.size), x.value.max), Sized(Larger(b.size, y.value.size), y.value.max));
      }
    }
  }

  lemma {:induction false} FieldsMax(fields: seq<Entry>, t: Target, a: Sized, z: Sized)
    requires Supported(t) && FieldMax(a.max) && FieldMax(z.max) && z.max <= a.max
    ensures OwnMax(FieldsSize(fields, t, a), a.max, FieldsSize(fields, t, z))
    decreases fields, 3
  {
    if fields == [] {
    } else {
      var v := fields[0].desc;
      EndMonotone(v, t, z.max, a.max);
      EndMonotone(v, t, a.max, a.max);
      var x, y := FieldEnd(v, t, a.max), FieldEnd(v, t, z.max);
      if x.Ok? {
        FieldsMax(fields[1..], t,
          Sized(Larger(a.size, x.value.size), x.value.max), Sized(Larger(z.size, y.value.size), y.value.max));
        FieldsMonotone(fields[1..], t, Sized(0, y.value.max), Sized(Larger(z.size, y.value.size), y.value.max));
      }
    }
  }

  /** Every field of a structure ends inside the accumulated size, sized on its own. */
  lemma {:induction false} FieldCovered(fields: seq<Entry>, name: string, t: Target, acc: Sized)
    requires Supported(t) && FieldMax(acc.max)
    requires FieldsSize(fields, t, acc).Ok? && Find(fields, name).Some?
    ensures var end := FieldEnd(Find(fields, name).value, t, 0);
            && end.Ok? && end.value.size <= FieldsSize(fields, t, acc).value.size
            && end.value.max <= FieldsSize(fields, t, acc).value.max
    decreases fields
  {
    var end := FieldEnd(fields[0].desc, t, acc.max).value;
    var next := Sized(Larger(acc.size, end.size), end.max);
    EndMonotone(fields[0].desc, t, 0, acc.max);
    if fields[0].key == name {
      FieldsMonotone(fields[1..], t, next, next);
    } else {
      FieldCovered(fields[1..], name, t, next);
    }
  }

  /** A view is inside [lo, hi). An object must fit by its own size unless it holds no scalar
      at all (its largest field size is 0), in which case nothing can be read through it. */
  ghost predicate Inside(v: View, t: Target, lo: int, hi: int) {
    match v
    case Bytes(a, s) => lo <= a && a + s <= hi
    case Object(d, a) =>
      var s := Size(d, t, 0);
      s.Ok? && (s.value.max > 0 ==> lo <= a && a + s.value.size <= hi)
  }

  lemma AttrInside(d: Py, addr: int, t: Target, name: string, lo: int, hi: int)
    requires Supported(t) && Inside(Object(d, addr), t, lo, hi)
    requires Attr(d, addr, t, name).Ok?
    ensures Inside(Attr(d, addr, t, name).value, t, lo, hi)
  {
    FieldCovered(d.fields, name, t, Sized(0, 0));
    var v := Find(d.fields, name).value;
    var end := FieldEnd(v, t, 0).value;
    var total := FieldsSize(d.fields, t, Sized(0, 0)).value;
    FieldsMonotone(d.fields, t, Sized(0, 0), Sized(0, 0));
    RoundUpMonotone(total.size, total.size, total.max, total.max);
    if v.Tuple? {
      AggMonotone(v, t, 0, 0);
      assert AggSize(v, t, 0).Ok?;
    }
  }

  lemma SubscriptInside(d: Py, addr: int, t: Target, index: nat, lo: int, hi: int)
    requires Supported(t) && Inside(Object(d, addr), t, lo, hi)
    requires Subscript(d, addr, t, index).Ok?
    ensures Inside(Subscript(d, addr, t, index).value, t, lo, hi)
  {
    var items := d.items;
    assert Size(d, t, 0) == AggSize(d, t, 0);
    if AggType(items[0].v) == ARRAY {
      var count := Value(items[1].v);
      var s := if |items| == 2 then ScalarSize(ValType(items[1].v)) else Size(items[2], t, 0).value.size;
      MulMonotone(s, index + 1, count);
      assert s * (index + 1) == s * index + s && s * index >= 0;
    }
  }

  /** sizeof covers every access: whatever bytes a path of field accesses and in-range indexes
      reaches from a root at `addr`, they lie wholly within the root's computed size. */
  lemma {:induction false} WalkInside(v: View, t: Target, path: seq<Access>, lo: int, hi: int)
    requires Supported(t) && Inside(v, t, lo, hi)
    requires Walk(v, t, path).Ok?
    ensures Inside(Walk(v, t, path).value, t, lo, hi)
    decreases |path|
  {
    if path == [] {
    } else {
      match path[0]
      case Field(name) =>
        AttrInside(v.desc, v.addr, t, name, lo, hi);
        WalkInside(Attr(v.desc, v.addr, t, name).value, t, path[1..], lo, hi);
      case Element(i) =>
        SubscriptInside(v.desc, v.addr, t, i, lo, hi);
        WalkInside(Subscript(v.desc, v.addr, t, i).value, t, path[1..], lo, hi);
    }
  }

  lemma SizeofCoversEveryAccess(root: Py, addr: int, t: Target, path: seq<Access>)
    requires Supported(t) && Size(root, t, 0).Ok?
    requires Walk(Object(root, addr), t, path).Ok? && Walk(Object(root, addr), t, path).value.Bytes?
    ensures var v := Walk(Object(root, addr), t, path).value;
            addr <= v.addr && v.addr + v.size <= addr + Size(root, t, 0).value.size
  {
    WalkInside(Object(root, addr), t, path, addr, addr + Size(root, t, 0).value.size);
  }

  // ---------- accesses occupy what sizeof counted ----------

  /** The bytes that belong to a view. */
  function Extent(v: View, t: Target): nat {
    match v
    case Bytes(_, s) => s
    case Object(d, _) => if Size(d, t, 0).Ok? then Size(d, t, 0).value.size else 0
  }

  /** A field access reaches the very bytes that end where sizeof has the field end. */
  lemma AttrEndsWithField(fields: seq<Entry>, addr: int, t: Target, name: string)
    requires Attr(Dict(fields), addr, t, name).Ok? && FieldEnd(Find(fields, name).value, t, 0).Ok?
    ensures var v := Attr(Dict(fields), addr, t, name).value;
            v.addr + Extent(v, t) == addr + FieldEnd(Find(fields, name).value, t, 0).value.size
  {
    var f := Find(fields, name).value;
    if f.Tuple? { assert Size(f, t, 0) == AggSize(f, t, 0); }
  }

  /** The elements of an array lie side by side and fill exactly the bytes that sizeof counts. */
  lemma ElementsTile(d: Py, addr: int, t: Target, i: nat)
    requires d.Tuple? && AggSize(d, t, 0).Ok? && Subscript(d, addr, t, i).Ok? && AggType(d.items[0].v) == ARRAY
    ensures var v := Subscript(d, addr, t, i).value;
            var next := Subscript(d, addr, t, i + 1);
            && (i == 0 ==> v.addr == addr)
            && (i + 1 < Value(d.items[1].v) ==> next.Ok? && next.value.addr == v.addr + Extent(v, t))
            && (i + 1 == Value(d.items[1].v) ==> v.addr + Extent(v, t) == addr + AggSize(d, t, 0).value.size)
  {
    hide Value, ValType, AggType, ScalarSize, Size;
    var s := if |d.items| == 2 then ScalarSize(ValType(d.items[1].v)) else Size(d.items[2], t, 0).value.size;
    assert s * (i + 1) == s * i + s;
  }

  // ---------- sizeof is no larger than it has to be ----------

  /** In the packed layouts the threaded maximum has no influence on any size. */
  lemma {:induction false} PackedIgnoresMax(d: Py, t: Target, m: nat)
    requires t.layout != Native
    ensures SameSize(Size(d, t, m), Size(d, t, 0))
    decreases d, 1
  {
    match d
    case Dict(fields) => PackedFields(fields, t, Sized(0, m), Sized(0, 0));
    case Tuple(_) => PackedAgg(d, t, m);
    case _ =>
  }

  ghost predicate SameSize(a: Result<Sized, Error>, b: Result<Sized, Error>) {
    (a.Ok? <==> b.Ok?) && (a.Ok? ==> a.value.size == b.value.size)
  }

  lemma {:induction false} PackedAgg(d: Py, t: Target, m: nat)
    requires d.Tuple? && t.layout != Native
    ensures SameSize(AggSize(d, t, m), AggSize(d, t, 0))
    decreases d, 0
  {
    hide Size, Value, ValType, AggType, ScalarSize;
    var items := d.items;
    if |items| == 2 && items[0].Int? && AggType(items[0].v) == STRUCT {
      PackedIgnoresMax(items[1], t, m);
    } else if |items| == 3 && items[0].Int? && AggType(items[0].v) == ARRAY && items[1].Int? {
      PackedIgnoresMax(items[2], t, m);
    }
  }

  lemma {:induction false} PackedFields(fields: seq<Entry>, t: Target, a: Sized, z: Sized)
    requires t.layout != Native && a.size == z.size
    ensures SameSize(FieldsSize(fields, t, a), FieldsSize(fields, t, z))
    decreases fields, 3
  {
    if fields == [] {
    } else {
      var v := fields[0].desc;
      if v.Tuple? {
        PackedAgg(v, t, a.max);
        PackedAgg(v, t, z.max);
      }
      var x, y := FieldEnd(v, t, a.max), FieldEnd(v, t, z.max);
      if x.Ok? {
        PackedFields(fields[1..], t,
          Sized(Larger(a.size, x.value.size), x.value.max), Sized(Larger(z.size, y.value.size), y.value.max));
      }
    }
  }

  /** The accumulated size is where some field ends, unless it was there already. */
  lemma {:induction false} SizeIsAttained(fields: seq<Entry>, t: Target, acc: Sized)
    requires FieldsSize(fields, t, acc).Ok?
    ensures var r := FieldsSize(fields, t, acc).value.size;
            r == acc.size ||
            exists e, m: nat :: e in fields && FieldEnd(e.desc, t, m).Ok? && FieldEnd(e.desc, t, m).value.size == r
    decreases |fields|
  {
    if fields == [] {
    } else {
      var end := FieldEnd(fields[0].desc, t, acc.max).value;
      var next := Sized(Larger(acc.size, end.size), end.max);
      SizeIsAttained(fields[1..], t, next);
      assert fields[0] in fields;
      if FieldsSize(fields, t, acc).value.size != next.size {
        var e, m: nat :| e in fields[1..] && FieldEnd(e.desc, t, m).Ok? &&
          FieldEnd(e.desc, t, m).value.size == FieldsSize(fields[1..], t, next).value.size;
        assert e in fields;
      } else if next.size != acc.size {
        var e, m := fields[0], acc.max;
        assert e in fields && FieldEnd(e.desc, t, m).Ok? && FieldEnd(e.desc, t, m).value.size == next.size;
      }
    }
  }

  /** A structure in a packed layout is exactly as long as its furthest field. */
  lemma PackedSizeIsFurthestField(fields: seq<Entry>, t: Target)
    requires t.layout != Native && Size(Dict(fields), t, 0).Ok?
    ensures var r := Size(Dict(fields), t, 0).value.size;
            r == 0 || exists e :: e in fields && FieldEnd(e.desc, t, 0).Ok? && FieldEnd(e.desc, t, 0).value.size == r
  {
    SizeIsAttained(fields, t, Sized(0, 0));
    var r := FieldsSize(fields, t, Sized(0, 0)).value.size;
    if r != 0 {
      var e, m: nat :| e in fields && FieldEnd(e.desc, t, m).Ok? && FieldEnd(e.desc, t, m).value.size == r;
      if e.desc.Tuple? { PackedAgg(e.desc, t, m); }
      assert FieldEnd(e.desc, t, 0).value.size == r;
    }
  }

  /** The native layout pads to the next multiple of the largest field and no further. */
  lemma NativePadding(fields: seq<Entry>, t: Target)
    requires Supported(t) && t.layout == Native && Size(Dict(fields), t, 0).Ok?
    ensures var r := Size(Dict(fields), t, 0).value;
            var end := FieldsSize(fields, t, Sized(0, 0)).value.size;
            r.max > 0 ==> r.size % r.max == 0 && end <= r.size < end + r.max
  {
    hide FieldsSize;
    FieldsMonotone(fields, t, Sized(0, 0), Sized(0, 0));
    var f := FieldsSize(fields, t, Sized(0, 0)).value;
    if f.max > 0 { RoundUpExact(f.size, f.max); }
  }

  lemma RoundUpExact(a: nat, m: nat)
    requires m in {1, 2, 4, 8}
    ensures RoundUp(a, m) % m == 0 && a <= RoundUp(a, m) < a + m
  {
  }

  // ---------- descriptors as they are written ----------

  /** The scalar types in the order of their numbers. */
  datatype Scalar =
    | UInt8 | Int8 | UInt16 | Int16 | UInt32 | Int32 | UInt64 | Int64
    | BfUInt8 | BfInt8 | BfUInt16 | BfInt16 | BfUInt32 | BfInt32 | Float32 | Float64

  function Number(s: Scalar): nat {
    match s
    case UInt8 => 0 case Int8 => 1 case UInt16 => 2 case Int16 => 3
    case UInt32 => 4 case Int32 => 5 case UInt64 => 6 case Int64 => 7
    case BfUInt8 => 8 case BfInt8 => 9 case BfUInt16 => 10 case BfInt16 => 11
    case BfUInt32 => 12 case BfInt32 => 13 case Float32 => 14 case Float64 => 15
  }

  /** Bytes a scalar takes, by its name. */
  function Width(s: Scalar): nat {
    match s
    case UInt8 => 1 case Int8 => 1 case BfUInt8 => 1 case BfInt8 => 1
    case UInt16 => 2 case Int16 => 2 case BfUInt16 => 2 case BfInt16 => 2
    case UInt32 => 4 case Int32 => 4 case BfUInt32 => 4 case BfInt32 => 4 case Float32 => 4
    case UInt64 => 8 case Int64 => 8 case Float64 => 8
  }

  predicate BitField(s: Scalar) { s.BfUInt8? || s.BfInt8? || s.BfUInt16? || s.BfInt16? || s.BfUInt32? || s.BfInt32? }

  /** TYPE2SMALLINT: the number in the top bits of 31, as a signed value, and the rest below it. */
  function Word(number: nat, bits: nat, rest: nat): int {
    var unit := if bits == 4 then 0x800_0000 else 0x2000_0000;
    var kinds := if bits == 4 then 16 else 4;
    (if 2 * number < kinds then number else number - kinds) * unit + rest
  }

  lemma WordParts(number: nat, rest: nat)
    ensures number < 16 && rest < 0x800_0000 ==>
      ValType(Word(number, 4, rest)) == number && Value(Word(number, 4, rest)) == rest
    ensures number < 4 && rest < 0x2000_0000 ==>
      AggType(Word(number, 2, rest)) == number && AggOffset(Word(number, 2, rest)) == rest
  {
    if number < 16 && rest < 0x800_0000 {
      var n := if number < 8 then number else number - 16;
      DivModUnique(Word(number, 4, rest), 0x800_0000, n, rest);
    }
    if number < 4 && rest < 0x2000_0000 {
      var n := if number < 2 then number else number - 4;
      DivModUnique(Word(number, 2, rest), 0x2000_0000, n, rest);
    }
  }

  /** Every scalar type has the width that its name says. */
  lemma WidthOf(s: Scalar)
    ensures ScalarSize(Number(s)) == Width(s) && (IsBitField(Number(s)) <==> BitField(s))
  {}

  /** A scalar field at an offset; a bit field also has a position and a length above 17 bits. */
  lemma FieldWord(s: Scalar, offset: nat, bits: nat)
    requires if BitField(s) then offset < 0x2_0000 && bits < 0x400 else offset < 0x800_0000 && bits == 0
    ensures var w := Word(Number(s), 4, offset + 0x2_0000 * bits);
            ScalarOffset(w) == offset && ScalarSize(ValType(w)) == Width(s)
  {
    WordParts(Number(s), offset + 0x2_0000 * bits);
    WidthOf(s);
    if BitField(s) { DivModUnique(offset + 0x2_0000 * bits, 0x2_0000, bits, offset); }
  }

  /** A packed structure with one scalar field ends with that field, and the field is read there. */
  lemma OneField(name: string, s: Scalar, offset: nat, bits: nat, t: Target, addr: int)
    requires t.layout != Native
    requires if BitField(s) then offset < 0x2_0000 && bits < 0x400 else offset < 0x800_0000 && bits == 0
    ensures var d := Dict([Entry(name, Int(Word(Number(s), 4, offset + 0x2_0000 * bits)))]);
            && Size(d, t, 0) == Ok(Sized(offset + Width(s), Width(s)))
            && Attr(d, addr, t, name) == Ok(Bytes(addr + offset, Width(s)))
  {
    hide ScalarOffset, ScalarSize, ValType;
    FieldWord(s, offset, bits);
    var w := Word(Number(s), 4, offset + 0x2_0000 * bits);
    var fields := [Entry(name, Int(w))];
    assert fields[1..] == [];
    assert FieldEnd(fields[0].desc, t, 0) == Ok(Sized(offset + Width(s), Width(s)));
    assert FieldsSize([], t, Sized(offset + Width(s), Width(s))) == Ok(Sized(offset + Width(s), Width(s)));
  }

  /** Aggregates at any offset: a structure is as long as its description, a pointer as long as the
      target's, an array as long as so many items. */
  lemma AggregatesAre(t: Target, offset: nat, s: Scalar, count: nat, item: Py, max: nat)
    requires offset < 0x2000_0000 && count < 0x800_0000
    ensures AggSize(Tuple([Int(Word(0, 2, offset)), item]), t, max) == Size(item, t, max)
    ensures AggSize(Tuple([Int(Word(1, 2, offset)), item]), t, max) == Ok(Sized(t.pointer, Larger(max, t.pointer)))
    ensures AggSize(Tuple([Int(Word(2, 2, offset)), Int(Word(Number(s), 4, count))]), t, max)
         == Ok(Sized(Width(s) * count, Larger(max, Width(s))))
    ensures Size(item, t, max).Ok? ==>
      AggSize(Tuple([Int(Word(2, 2, offset)), Int(Word(Number(s), 4, count)), item]), t, max)
      == Ok(Sized(Size(item, t, max).value.size * count, Size(item, t, max).value.max))
  {
    hide Size, Word, AggType, ValType, Value, ScalarSize;
    WordParts(0, offset);
    WordParts(1, offset);
    WordParts(2, offset);
    WordParts(Number(s), count);
    WidthOf(s);
  }

  /** A packed structure with one aggregate field, whatever it is, ends with that field, and the field
      is found at its offset. */
  lemma OneAggregate(name: string, kind: nat, offset: nat, rest: seq<Py>, t: Target, addr: int)
    requires t.layout != Native && kind < 3 && offset < 0x2000_0000 && rest != []
    requires AggSize(Tuple([Int(Word(kind, 2, offset))] + rest), t, 0).Ok?
    ensures var f := Tuple([Int(Word(kind, 2, offset))] + rest);
            var d := Dict([Entry(name, f)]);
            && Size(d, t, 0) == Ok(Sized(offset + AggSize(f, t, 0).value.size, AggSize(f, t, 0).value.max))
            && Attr(d, addr, t, name).Ok? && Attr(d, addr, t, name).value.addr == addr + offset
  {
    hide AggSize, Word, AggType, AggOffset, ValType;
    WordParts(kind, offset);
    var f := Tuple([Int(Word(kind, 2, offset))] + rest);
    var fields := [Entry(name, f)];
    var s := AggSize(f, t, 0).value;
    assert fields[1..] == [];
    assert FieldEnd(f, t, 0) == Ok(Sized(offset + s.size, s.max));
    assert FieldsSize([], t, Sized(offset + s.size, s.max)) == Ok(Sized(offset + s.size, s.max));
  }

  // ---------- what is refused ----------

  /** A descriptor that the documentation describes: structures of scalars and aggregates, pointers,
      and arrays of scalars or of described items. */
  predicate WellFormed(d: Py)
    decreases d, 1
  {
    match d
    case Dict(fields) => WellFormedFields(fields)
    case Tuple(_) => WellFormedTuple(d)
    case _ => false
  }

  predicate WellFormedTuple(d: Py)
    requires d.Tuple?
    decreases d, 0
  {
    var items := d.items;
    && |items| >= 2 && items[0].Int?
    && (var kind := AggType(items[0].v);
        || (kind == STRUCT && |items| == 2 && WellFormed(items[1]))
        || (kind == PTR && |items| == 2)
        || (kind == ARRAY && items[1].Int? && (|items| == 2 || (|items| == 3 && WellFormed(items[2])))))
  }

  predicate WellFormedFields(fields: seq<Entry>)
    decreases fields, 3
  {
    fields == [] ||
    ((fields[0].desc.Int? || (fields[0].desc.Tuple? && WellFormedTuple(fields[0].desc))) && WellFormedFields(fields[1..]))
  }

  /** sizeof fails exactly on the others, whatever the layout, the target and the maximum so far. */
  lemma {:induction false} SizedIfWellFormed(d: Py, t: Target, m: nat)
    ensures Size(d, t, m).Ok? <==> WellFormed(d)
    decreases d, 1
  {
    match d
    case Dict(fields) => FieldsIfWellFormed(fields, t, Sized(0, m));
    case Tuple(_) => TupleIfWellFormed(d, t, m);
    case _ =>
  }

  lemma {:induction false} TupleIfWellFormed(d: Py, t: Target, m: nat)
    requires d.Tuple?
    ensures AggSize(d, t, m).Ok? <==> WellFormedTuple(d)
    decreases d, 0
  {
    hide Size, WellFormed, AggType, ValType, Value, ScalarSize;
    var items := d.items;
    if |items| == 2 && items[0].Int? { SizedIfWellFormed(items[1], t, m); }
    if |items| == 3 && items[0].Int? { SizedIfWellFormed(items[2], t, m); }
  }

  lemma {:induction false} FieldsIfWellFormed(fields: seq<Entry>, t: Target, acc: Sized)
    ensures FieldsSize(fields, t, acc).Ok? <==> WellFormedFields(fields)
    decreases fields, 3
  {
    hide AggSize, WellFormedTuple, ScalarSize, ScalarOffset, AggOffset;
    if fields == [] {
    } else {
      var e := fields[0].desc;
      if e.Tuple? {
        TupleIfWellFormed(e, t, acc.max);
        TupleHead(e, t, acc.max);
      }
      var end := FieldEnd(e, t, acc.max);
      if end.Ok? {
        FieldsIfWellFormed(fields[1..], t, Sized(Larger(acc.size, end.value.size), end.value.max));
      }
    }
  }

  lemma TupleHead(d: Py, t: Target, m: nat)
    requires d.Tuple?
    ensures |d.items| == 0 || !d.items[0].Int? ==> AggSize(d, t, m).Err?
  {}

  /** In a well-formed structure exactly the fields it lists can be accessed. */
  lemma {:induction false} FieldsAreFound(fields: seq<Entry>, name: string)
    requires WellFormedFields(fields)
    ensures Find(fields, name).Some? <==> exists e :: e in fields && e.key == name
    ensures Find(fields, name).Some? ==> Entry(name, Find(fields, name).value) in fields
    ensures Find(fields, name).Some? ==>
      var v := Find(fields, name).value; v.Int? || (v.Tuple? && WellFormedTuple(v))
    decreases fields
  {
    hide WellFormedTuple;
    if fields == [] {
    } else {
      FieldsAreFound(fields[1..], name);
      assert fields == [fields[0]] + fields[1..];
    }
  }

  lemma AttrFound(fields: seq<Entry>, addr: int, t: Target, name: string)
    requires WellFormedFields(fields)
    ensures Attr(Dict(fields), addr, t, name).Ok? <==> exists e :: e in fields && e.key == name
  {
    hide WellFormedFields, Find, AggType, ValType;
    FieldsAreFound(fields, name);
    if Find(fields, name).Some? && Find(fields, name).value.Tuple? {
      TupleIfWellFormed(Find(fields, name).value, t, 0);
    }
  }

  /** In a well-formed array exactly the indexes below its length can be used. */
  lemma ElementFound(d: Py, addr: int, t: Target, index: nat)
    requires d.Tuple? && WellFormedTuple(d) && AggType(d.items[0].v) == ARRAY
    ensures Subscript(d, addr, t, index).Ok? <==> index < Value(d.items[1].v)
    ensures index >= Value(d.items[1].v) ==> Subscript(d, addr, t, index) == Err(IndexRange)
  {
    hide Size, AggType, ValType, Value, ScalarSize;
    if |d.items| == 3 { SizedIfWellFormed(d.items[2], t, 0); }
  }

  /** A path is its accesses in turn. */
  lemma {:induction false} WalkInTurn(v: View, t: Target, p: seq<Access>, q: seq<Access>)
    ensures v.Object? ==> forall name :: Walk(v, t, [Field(name)]) == Attr(v.desc, v.addr, t, name)
    ensures v.Object? ==> forall i :: Walk(v, t, [Element(i)]) == Subscript(v.desc, v.addr, t, i)
    ensures Walk(v, t, p + q) == (match Walk(v, t, p) case Ok(w) => Walk(w, t, q) case Err(e) => Err(e))
    decreases |p|
  {
    hide Attr, Subscript;
    forall name | v.Object? ensures Walk(v, t, [Field(name)]) == Attr(v.desc, v.addr, t, name) {
      assert [Field(name)][1..] == [];
    }
    forall i | v.Object? ensures Walk(v, t, [Element(i)]) == Subscript(v.desc, v.addr, t, i) {
      assert [Element(i)][1..] == [];
    }
    if p == [] {
      assert p + q == q;
    } else if v.Object? {
      assert (p + q)[1..] == p[1..] + q;
      var next := match p[0]
                  case Field(name) => Attr(v.desc, v.addr, t, name)
                  case Element(i) => Subscript(v.desc, v.addr, t, i);
      if next.Ok? { WalkInTurn(next.value, t, p[1..], q); }
    }
  }
}
