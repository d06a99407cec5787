/** The schema interpreter of src/helpers/AbstractParser.ts. A schema is a
    registry name, a function of the cursor and registry, or an object whose
    keys map to sub-schemas; anything else reads as `undefined`. Every part
    of a schema reads from one shared cursor, in order. */
module Schema {
  import opened Outcome
  import opened Bytes
  import opened ByteCursor
  import opened Registry

  datatype Schema =
    | Name(name: string)
    | Func(f: (Cursor, Registry) -> Result<(Value, Cursor)>)
    | Group(fields: seq<(string, Schema)>)
    | Other   // a number, boolean or `undefined` where a schema is expected

  /** `parseAttribute`. A name is looked up in the registry and the entry is
      applied to the cursor; a name the registry lacks yields `undefined`
      without reading. A function is applied to the cursor and registry. An
      object is parsed key by key into an object with the same keys. */
  function ParseAttribute(c: Cursor, s: Schema, reg: Registry): (r: Result<(Value, Cursor)>)
    ensures s.Group? && r.Ok? ==> r.value.0.Obj? && Keys(r.value.0.fields) == Keys(s.fields)
    ensures s.Other? ==> r == Ok((Undefined, c))
    decreases s, if s.Group? then |s.fields| + 1 else 0
  {
    match s
    case Name(n) => if n in reg then Apply(reg[n], c) else Ok((Undefined, c))
    case Func(f) => f(c, reg)
    case Group(fields) =>
      var parsed :- ParseFields(c, s, fields, reg);
      Ok((Obj(parsed.0), parsed.1))
    case Other => Ok((Undefined, c))
  }

  /** The keys of an object or of an object schema, in order. */
  function Keys<T>(fields: seq<(string, T)>): (r: seq<string>)
    ensures |r| == |fields|
  {
    seq(|fields|, i requires 0 <= i < |fields| => fields[i].0)
  }

  /** The trailing fields `fs` of the object schema `parent`, parsed in
      order, each from the cursor the previous one left. */
  function ParseFields(c: Cursor, parent: Schema, fs: seq<(string, Schema)>, reg: Registry)
    : (r: Result<(seq<(string, Value)>, Cursor)>)
    requires parent.Group? && |fs| <= |parent.fields| && fs == parent.fields[|parent.fields| - |fs|..]
    ensures r.Ok? ==> |r.value.0| == |fs| && forall i :: 0 <= i < |fs| ==> r.value.0[i].0 == fs[i].0
    decreases parent, |fs|
  {
    if fs == [] then Ok(([], c))
    else
      assert fs[0] == parent.fields[|parent.fields| - |fs|];
      var first :- ParseAttribute(c, fs[0].1, reg);
      var rest :- ParseFields(first.1, parent, fs[1..], reg);
      Ok(([(fs[0].0, first.0)] + rest.0, rest.1))
  }

  /** The registry `parse` uses: the base registry, then each caller
      registry in order, each overriding the names it defines. */
  function Merge(regs: seq<Registry>): (r: Registry)
    ensures forall n :: n in r <==> n in Base || exists i :: 0 <= i < |regs| && n in regs[i]
    ensures forall n, i :: 0 <= i < |regs| && n in regs[i] && (forall j :: i < j < |regs| ==> n !in regs[j])
              ==> r[n] == regs[i][n]
  {
    MergeEntries(regs);
    MergeInto(Base, regs)
  }

  lemma MergeEntries(regs: seq<Registry>)
    ensures forall n :: n in MergeInto(Base, regs) <==> n in Base || exists i :: 0 <= i < |regs| && n in regs[i]
    ensures forall n, i :: 0 <= i < |regs| && n in regs[i] && (forall j :: i < j < |regs| ==> n !in regs[j])
              ==> MergeInto(Base, regs)[n] == regs[i][n]
  {
    forall n {
      MergeIntoEntries(Base, regs, n);
    }
  }

  function MergeInto(acc: Registry, regs: seq<Registry>): (r: Registry)
    decreases |regs|
  {
    if regs == [] then acc else MergeInto(acc + regs[0], regs[1..])
  }

  /** `parse`: a fresh cursor at the start of the buffer, the merged
      registry, and the value the schema yields. */
  function Parse(buffer: seq<Byte>, s: Schema, regs: seq<Registry>): (r: Result<Value>)
    ensures Plain(s, Merge(regs)) ==> (r.Ok? <==> Size(s, Merge(regs)) <= |buffer|)
    ensures s.Group? && r.Ok? ==> r.value.Obj? && Keys(r.value.fields) == Keys(s.fields)
    ensures s.Other? ==> r == Ok(Undefined)
  {
    PlainParse(New(buffer), s, Merge(regs));
    var parsed :- ParseAttribute(New(buffer), s, Merge(regs));
    Ok(parsed.0)
  }

  /** A merged registry defines a name exactly when the accumulator or one
      of the registries does; the last registry defining it decides its
      entry, and the accumulator's entry survives when none does. */
  lemma {:induction false} MergeIntoEntries(acc: Registry, regs: seq<Registry>, n: string)
    ensures n in MergeInto(acc, regs) <==> n in acc || exists i :: 0 <= i < |regs| && n in regs[i]
    ensures (forall i :: 0 <= i < |regs| ==> n !in regs[i]) && n in acc ==> MergeInto(acc, regs)[n] == acc[n]
    ensures forall i :: 0 <= i < |regs| && n in regs[i] && (forall j :: i < j < |regs| ==> n !in regs[j])
              ==> MergeInto(acc, regs)[n] == regs[i][n]
    decreases |regs|
  {
    if regs != [] {
      MergeIntoEntries(acc + regs[0], regs[1..], n);
      assert forall i :: 0 < i < |regs| ==> regs[i] == regs[1..][i - 1];
    }
  }

  /** In the registry `parse` uses, a caller's entry overrides the base
      entry and every earlier caller's entry of the same name. */
  lemma LaterRegistryWins(regs: seq<Registry>, i: nat, n: string)
    requires i < |regs| && n in regs[i]
    requires forall j :: i < j < |regs| ==> n !in regs[j]
    ensures n in Merge(regs) && Merge(regs)[n] == regs[i][n]
  {
    MergeIntoEntries(Base, regs, n);
  }

  /** A base name no caller redefines keeps its base reader; a name neither
      the base nor any caller defines stays undefined. */
  lemma BaseEntryKept(regs: seq<Registry>, n: string)
    requires forall j :: 0 <= j < |regs| ==> n !in regs[j]
    ensures n in Merge(regs) <==> n in Base
    ensures n in Base ==> Merge(regs)[n] == Base[n]
  {
    MergeIntoEntries(Base, regs, n);
  }

  /** An unregistered name yields `undefined` and leaves the cursor where
      it was. */
  lemma UnregisteredName(c: Cursor, n: string, reg: Registry)
    requires n !in reg
    ensures ParseAttribute(c, Name(n), reg) == Ok((Undefined, c))
  {
  }

  /** A name registered to an integer reader yields that reader's number
      and moves the cursor by its width. */
  lemma RegisteredName(c: Cursor, n: string, reg: Registry, k: IntReader)
    requires n in reg && reg[n] == Int(k)
    ensures ParseAttribute(c, Name(n), reg).Ok? <==> c.pos + k.width <= |c.buf|
    ensures ParseAttribute(c, Name(n), reg).Ok? ==>
      ParseAttribute(c, Name(n), reg).value == (Num(Read(c, k).value.0), c.(pos := c.pos + k.width))
  {
  }

  /** A schema built from names only, each unregistered or registered to
      an integer reader: what it reads depends on nothing but the cursor. */
  predicate Plain(s: Schema, reg: Registry)
    decreases s, if s.Group? then |s.fields| + 1 else 0
  {
    match s
    case Name(n) => n in reg ==> reg[n].Int?
    case Func(_) => false
    case Group(fields) => PlainFields(s, fields, reg)
    case Other => true
  }

  predicate PlainFields(parent: Schema, fs: seq<(string, Schema)>, reg: Registry)
    requires parent.Group? && |fs| <= |parent.fields| && fs == parent.fields[|parent.fields| - |fs|..]
    decreases parent, |fs|
  {
    fs != [] ==>
      assert fs[0] == parent.fields[|parent.fields| - |fs|];
      Plain(fs[0].1, reg) && PlainFields(parent, fs[1..], reg)
  }

  /** The number of bytes a plain schema reads: the widths of its
      registered names, summed over every field. */
  function Size(s: Schema, reg: Registry): nat
    decreases s, if s.Group? then |s.fields| + 1 else 0
  {
    match s
    case Name(n) => if n in reg && reg[n].Int? then reg[n].k.width else 0
    case Func(_) => 0
    case Group(fields) => SizeFields(s, fields, reg)
    case Other => 0
  }

  function SizeFields(parent: Schema, fs: seq<(string, Schema)>, reg: Registry): nat
    requires parent.Group? && |fs| <= |parent.fields| && fs == parent.fields[|parent.fields| - |fs|..]
    decreases parent, |fs|
  {
    if fs == [] then 0
    else
      assert fs[0] == parent.fields[|parent.fields| - |fs|];
      Size(fs[0].1, reg) + SizeFields(parent, fs[1..], reg)
  }

  /** A plain schema succeeds exactly when the buffer holds its size in
      bytes from the position on, and then it moves the cursor by exactly
      that size and touches nothing else: each reader advances by its
      width, and the fields of an object read one after another. */
  lemma {:induction false} ParseConsumes(c: Cursor, s: Schema, reg: Registry)
    requires Plain(s, reg)
    ensures ParseAttribute(c, s, reg).Ok? <==> c.pos + Size(s, reg) <= |c.buf|
    ensures ParseAttribute(c, s, reg).Ok? ==> ParseAttribute(c, s, reg).value.1 == c.(pos := c.pos + Size(s, reg))
    decreases s, if s.Group? then |s.fields| + 1 else 0
  {
    match s
    case Name(n) =>
    case Func(_) =>
    case Group(fields) =>
      ParseFieldsConsumes(c, s, fields, reg);
    case Other =>
  }

  lemma PlainParse(c: Cursor, s: Schema, reg: Registry)
    ensures Plain(s, reg) ==> (ParseAttribute(c, s, reg).Ok? <==> c.pos + Size(s, reg) <= |c.buf|)
  {
    if Plain(s, reg) {
      ParseConsumes(c, s, reg);
    }
  }

  lemma {:induction false} ParseFieldsConsumes(c: Cursor, parent: Schema, fs: seq<(string, Schema)>, reg: Registry)
    requires parent.Group? && |fs| <= |parent.fields| && fs == parent.fields[|parent.fields| - |fs|..]
    requires PlainFields(parent, fs, reg)
    ensures ParseFields(c, parent, fs, reg).Ok? <==> c.pos + SizeFields(parent, fs, reg) <= |c.buf|
    ensures ParseFields(c, parent, fs, reg).Ok? ==>
      ParseFields(c, parent, fs, reg).value.1 == c.(pos := c.pos + SizeFields(parent, fs, reg))
    decreases parent, |fs|
  {
    if fs != [] {
      assert fs[0] == parent.fields[|parent.fields| - |fs|];
      ParseConsumes(c, fs[0].1, reg);
      var first := ParseAttribute(c, fs[0].1, reg);
      if first.Ok? {
        ParseFieldsConsumes(first.value.1, parent, fs[1..], reg);
      }
    }
  }

  /** `parse` of a base name with no caller registry is the name's reader
      applied at the start of the buffer. */
  lemma ParseBaseName(buffer: seq<Byte>, n: string, k: IntReader)
    requires n in Base && Base[n] == Int(k)
    ensures Parse(buffer, Name(n), []).Ok? <==> k.width <= |buffer|
    ensures Parse(buffer, Name(n), []).Ok? ==> Parse(buffer, Name(n), []) == Ok(Num(Read(New(buffer), k).value.0))
  {
    assert Merge([]) == Base;
  }

  /** `parse` of a base name over a buffer long enough for it: the number
      its reader decodes from the first bytes. */
  lemma ParseBaseValue(buffer: seq<Byte>, n: string, k: IntReader)
    requires n in Base && Base[n] == Int(k) && k.width <= |buffer|
    ensures Parse(buffer, Name(n), [])
         == Ok(Num(var u := if k.le then LeValue(buffer[..k.width]) else BeValue(buffer[..k.width]);
                   if k.signed then ToSigned(u, k.width) else u))
  {
    ParseBaseName(buffer, n, k);
    ReadValue(New(buffer), k);
    assert New(buffer).buf[0..k.width] == buffer[..k.width];
  }

  /** The one-byte names: `u8` reads the byte, `i8` its two's-complement
      view. */
  lemma ByteNames(x: Byte)
    ensures Parse([x], Name("u8"), []) == Ok(Num(x))
    ensures Parse([x], Name("i8"), []) == Ok(Num(ToSigned(x, 1)))
  {
    assert [x][..1] == [x];
    SingleByteValue(x);
    ParseBaseValue([x], "u8", U8);
    ParseBaseValue([x], "i8", I8);
  }

  /** The two-byte names: without a suffix the first byte is the high one,
      with `le` the low one; `i` names read two's-complement. */
  lemma WordNames(x: Byte, y: Byte)
    ensures Parse([x, y], Name("u16"), []) == Ok(Num(256 * x + y))
    ensures Parse([x, y], Name("u16le"), []) == Ok(Num(x + 256 * y))
    ensures Parse([x, y], Name("i16"), []) == Ok(Num(ToSigned(256 * x + y, 2)))
    ensures Parse([x, y], Name("i16le"), []) == Ok(Num(ToSigned(x + 256 * y, 2)))
  {
    assert [x, y][..2] == [x, y];
    BeValueTwo([x, y]);
    LeValueTwo([x, y]);
    ParseBaseValue([x, y], "u16", U16);
    ParseBaseValue([x, y], "u16le", U16le);
    ParseBaseValue([x, y], "i16", I16);
    ParseBaseValue([x, y], "i16le", I16le);
  }

  /** The four-byte names without a suffix: the first byte is the high one. */
  lemma LongBigNames(a: Byte, b: Byte, c: Byte, d: Byte)
    ensures Parse([a, b, c, d], Name("u32"), []) == Ok(Num(0x100_0000 * a + 0x1_0000 * b + 0x100 * c + d))
    ensures Parse([a, b, c, d], Name("i32"), []) == Ok(Num(ToSigned(0x100_0000 * a + 0x1_0000 * b + 0x100 * c + d, 4)))
  {
    assert [a, b, c, d][..4] == [a, b, c, d];
    BeValueFour([a, b, c, d]);
    ParseBaseValue([a, b, c, d], "u32", U32);
    ParseBaseValue([a, b, c, d], "i32", I32);
  }

  /** The four-byte `le` names: the first byte is the low one. */
  lemma LongLittleNames(a: Byte, b: Byte, c: Byte, d: Byte)
    ensures Parse([a, b, c, d], Name("u32le"), []) == Ok(Num(a + 0x100 * b + 0x1_0000 * c + 0x100_0000 * d))
    ensures Parse([a, b, c, d], Name("i32le"), []) == Ok(Num(ToSigned(a + 0x100 * b + 0x1_0000 * c + 0x100_0000 * d, 4)))
  {
    assert [a, b, c, d][..4] == [a, b, c, d];
    LeValueFour([a, b, c, d]);
    ParseBaseValue([a, b, c, d], "u32le", U32le);
    ParseBaseValue([a, b, c, d], "i32le", I32le);
  }

  /** 4 read in one byte and in two bytes of either order. */
  lemma UnsignedVectors()
    ensures Parse([4], Name("u8"), []) == Ok(Num(4))
    ensures Parse([0, 4], Name("u16"), []) == Ok(Num(4))
    ensures Parse([4, 0], Name("u16le"), []) == Ok(Num(4))
  {
    hide Parse, ParseAttribute;
    ByteNames(4);
    WordNames(0, 4);
    WordNames(4, 0);
  }

  /** 4 read in four bytes of either order. */
  lemma UnsignedLongVectors()
    ensures Parse([0, 0, 0, 4], Name("u32"), []) == Ok(Num(4))
    ensures Parse([4, 0, 0, 0], Name("u32le"), []) == Ok(Num(4))
  {
    hide Parse, ParseAttribute;
    LongBigNames(0, 0, 0, 4);
    LongLittleNames(4, 0, 0, 0);
  }

  /** Big-endian readings: 0x12 0x34 is 0x1234. */
  lemma BigEndianVectors()
    ensures Parse([0x12, 0x34], Name("u16"), []) == Ok(Num(0x1234))
    ensures Parse([0x12, 0x34, 0x56, 0x78], Name("u32"), []) == Ok(Num(0x1234_5678))
  {
    hide Parse, ParseAttribute;
    WordNames(0x12, 0x34);
    LongBigNames(0x12, 0x34, 0x56, 0x78);
  }

  /** `i8` maps 255 to -1, 128 to -128 and 127 to itself. */
  lemma SignedByteVectors()
    ensures Parse([255], Name("i8"), []) == Ok(Num(-1))
    ensures Parse([128], Name("i8"), []) == Ok(Num(-128))
    ensures Parse([127], Name("i8"), []) == Ok(Num(127))
  {
    hide Parse, ParseAttribute;
    ByteNames(255);
    ByteNames(128);
    ByteNames(127);
  }

  /** 0xFFFE, in either byte order, reads signed as -2. */
  lemma SignedWordVectors()
    ensures Parse([255, 254], Name("i16"), []) == Ok(Num(-2))
    ensures Parse([254, 255], Name("i16le"), []) == Ok(Num(-2))
  {
    hide Parse, ParseAttribute;
    WordNames(255, 254);
    WordNames(254, 255);
  }

  /** 0xFFFFFFFE, in either byte order, reads signed as -2. */
  lemma SignedLongVectors()
    ensures Parse([255, 255, 255, 254], Name("i32"), []) == Ok(Num(-2))
    ensures Parse([254, 255, 255, 255], Name("i32le"), []) == Ok(Num(-2))
  {
    hide Parse, ParseAttribute;
    LongBigNames(255, 255, 255, 254);
    LongLittleNames(254, 255, 255, 255);
  }

  /** Reading past the end of the buffer fails out of `parse`: `u8` on no
      bytes, `u32` on one. */
  lemma Underrun()
    ensures Parse([], Name("u8"), []).Err?
    ensures Parse([1], Name("u32"), []).Err?
  {
    ParseBaseName([], "u8", U8);
    ParseBaseName([1], "u32", U32);
  }

  /** One step of an object: the first remaining field reads from the
      cursor, the rest from where it stopped. */
  lemma FieldStep(c: Cursor, parent: Schema, fs: seq<(string, Schema)>, reg: Registry,
                  v: Value, c1: Cursor, rest: seq<(string, Value)>, c2: Cursor)
    requires parent.Group? && 0 < |fs| <= |parent.fields| && fs == parent.fields[|parent.fields| - |fs|..]
    requires ParseAttribute(c, fs[0].1, reg) == Ok((v, c1))
    requires ParseFields(c1, parent, fs[1..], reg) == Ok((rest, c2))
    ensures ParseFields(c, parent, fs, reg) == Ok(([(fs[0].0, v)] + rest, c2))
  {
    var r := ParseFields(c, parent, fs, reg);
    assert r.Ok? && r.value.1 == c2 && r.value.0 == [(fs[0].0, v)] + rest;
  }

  /** An object fails as soon as one of its fields fails: the first
      remaining one, or a later one after the first has read. */
  lemma FieldFails(c: Cursor, parent: Schema, fs: seq<(string, Schema)>, reg: Registry)
    requires parent.Group? && 0 < |fs| <= |parent.fields| && fs == parent.fields[|parent.fields| - |fs|..]
    requires ParseAttribute(c, fs[0].1, reg).Err?
          || ParseFields(ParseAttribute(c, fs[0].1, reg).value.1, parent, fs[1..], reg).Err?
    ensures ParseFields(c, parent, fs, reg).Err?
  {
  }

  /** An object schema fails when its fields do. */
  lemma GroupFails(c: Cursor, s: Schema, reg: Registry)
    requires s.Group? && ParseFields(c, s, s.fields, reg).Err?
    ensures ParseAttribute(c, s, reg).Err?
  {
  }

  /** An object schema yields the object of its parsed fields. */
  lemma GroupStep(c: Cursor, s: Schema, reg: Registry, vs: seq<(string, Value)>, c1: Cursor)
    requires s.Group? && ParseFields(c, s, s.fields, reg) == Ok((vs, c1))
    ensures ParseAttribute(c, s, reg) == Ok((Obj(vs), c1))
  {
    var r := ParseAttribute(c, s, reg);
    assert r.Ok? && r.value.0 == Obj(vs) && r.value.1 == c1;
  }

  /** An object schema of two fields whose parts read one after the other
      yields the object of the two values, keys in schema order. */
  lemma TwoFields(s: Schema, reg: Registry, c0: Cursor, v0: Value, c1: Cursor, v1: Value, c2: Cursor)
    requires s.Group? && |s.fields| == 2
    requires ParseAttribute(c0, s.fields[0].1, reg) == Ok((v0, c1))
    requires ParseAttribute(c1, s.fields[1].1, reg) == Ok((v1, c2))
    ensures ParseAttribute(c0, s, reg) == Ok((Obj([(s.fields[0].0, v0), (s.fields[1].0, v1)]), c2))
  {
    var fs := s.fields;
    assert fs[1..][1..] == [];
    FieldStep(c1, s, fs[1..], reg, v1, c2, [], c2);
    assert [(fs[1].0, v1)] + [] == [(fs[1].0, v1)];
    FieldStep(c0, s, fs, reg, v0, c1, [(fs[1].0, v1)], c2);
    assert [(fs[0].0, v0)] + [(fs[1].0, v1)] == [(fs[0].0, v0), (fs[1].0, v1)];
    GroupStep(c0, s, reg, [(fs[0].0, v0), (fs[1].0, v1)], c2);
  }

  /** The same for an object schema of four fields. */
  lemma FourFields(s: Schema, reg: Registry, c0: Cursor, v0: Value, c1: Cursor, v1: Value, c2: Cursor,
                   v2: Value, c3: Cursor, v3: Value, c4: Cursor)
    requires s.Group? && |s.fields| == 4
    requires ParseAttribute(c0, s.fields[0].1, reg) == Ok((v0, c1))
    requires ParseAttribute(c1, s.fields[1].1, reg) == Ok((v1, c2))
    requires ParseAttribute(c2, s.fields[2].1, reg) == Ok((v2, c3))
    requires ParseAttribute(c3, s.fields[3].1, reg) == Ok((v3, c4))
    ensures ParseAttribute(c0, s, reg)
         == Ok((Obj([(s.fields[0].0, v0), (s.fields[1].0, v1), (s.fields[2].0, v2), (s.fields[3].0, v3)]), c4))
  {
    var fs := s.fields;
    var k0, k1, k2, k3 := fs[0].0, fs[1].0, fs[2].0, fs[3].0;
    assert fs[3..][1..] == [];
    FieldStep(c3, s, fs[3..], reg, v3, c4, [], c4);
    var r3 := [(k3, v3)];
    assert [(k3, v3)] + [] == r3;
    assert fs[2..][1..] == fs[3..];
    FieldStep(c2, s, fs[2..], reg, v2, c3, r3, c4);
    var r2 := [(k2, v2)] + r3;
    assert fs[1..][1..] == fs[2..];
    FieldStep(c1, s, fs[1..], reg, v1, c2, r2, c4);
    var r1 := [(k1, v1)] + r2;
    FieldStep(c0, s, fs, reg, v0, c1, r1, c4);
    var r0 := [(k0, v0)] + r1;
    assert r0 == [(k0, v0), (k1, v1), (k2, v2), (k3, v3)];
    GroupStep(c0, s, reg, r0, c4);
  }

  /** Nested objects share one cursor: `{val: {val2: 'i8'}, val2: 'i8'}`
      over the bytes 4, 255 reads 4 into the inner object and -1 into the
      outer one. */
  lemma NestedObjects()
    ensures Parse([4, 255], Group([("val", Group([("val2", Name("i8"))])), ("val2", Name("i8"))]), [])
         == Ok(Obj([("val", Obj([("val2", Num(4))])), ("val2", Num(-1))]))
  {
    assert Merge([]) == Base;
    var inner := Group([("val2", Name("i8"))]);
    var outer := Group([("val", inner), ("val2", Name("i8"))]);
    var c0 := New([4, 255]);
    var c1 := c0.(pos := 1);
    var c2 := c0.(pos := 2);
    assert "i8" in Base && Base["i8"] == Int(I8);
    ReadOneByte(c0, I8);
    ReadOneByte(c1, I8);
    RegisteredName(c0, "i8", Base, I8);
    RegisteredName(c1, "i8", Base, I8);
    hide ParseAttribute, ParseFields;
    assert inner.fields[1..] == [];
    FieldStep(c0, inner, inner.fields, Base, Num(4), c1, [], c1);
    assert [("val2", Num(4))] + [] == [("val2", Num(4))];
    GroupStep(c0, inner, Base, [("val2", Num(4))], c1);
    TwoFields(outer, Base, c0, Obj([("val2", Num(4))]), c1, Num(-1), c2);
  }

  /** With an empty registry every name is unregistered: the object comes
      back with all its keys, each `undefined`, and nothing is read. */
  lemma EmptyRegistry()
    ensures ParseAttribute(New([1, 2, 3]), Group([("nested", Group([("x", Name("u8")), ("y", Name("u8"))])), ("z", Name("u8"))]), map[])
         == Ok((Obj([("nested", Obj([("x", Undefined), ("y", Undefined)])), ("z", Undefined)]), New([1, 2, 3])))
  {
    var c := New([1, 2, 3]);
    var inner := Group([("x", Name("u8")), ("y", Name("u8"))]);
    var outer := Group([("nested", inner), ("z", Name("u8"))]);
    var none: Registry := map[];
    assert inner.fields[1..][1..] == [];
    FieldStep(c, inner, inner.fields[1..], none, Undefined, c, [], c);
    assert [("y", Undefined)] + [] == [("y", Undefined)];
    FieldStep(c, inner, inner.fields, none, Undefined, c, [("y", Undefined)], c);
    assert [("x", Undefined)] + [("y", Undefined)] == [("x", Undefined), ("y", Undefined)];
    GroupStep(c, inner, none, [("x", Undefined), ("y", Undefined)], c);
    assert outer.fields[1..][1..] == [];
    FieldStep(c, outer, outer.fields[1..], none, Undefined, c, [], c);
    assert [("z", Undefined)] + [] == [("z", Undefined)];
    FieldStep(c, outer, outer.fields, none, Obj([("x", Undefined), ("y", Undefined)]), c, [("z", Undefined)], c);
    assert [("nested", Obj([("x", Undefined), ("y", Undefined)]))] + [("z", Undefined)]
        == [("nested", Obj([("x", Undefined), ("y", Undefined)])), ("z", Undefined)];
    GroupStep(c, outer, none, [("nested", Obj([("x", Undefined), ("y", Undefined)])), ("z", Undefined)], c);
  }
}
