/** The symbol-art decoder of src/helpers/SarParser.ts. A payload is an
    8-byte header (author, layer count, height, width, sound), then 16
    bytes per layer, then the name as little-endian UTF-16 code units.

    The class describes a layer with a schema (`pointSchema`,
    `layerSchema`) that the schema interpreter reads; its only caller
    (`json` in src/index.ts) passes the base registry. The decoder here
    reads the same bytes in the same order with the base readers directly,
    and `LayerSchemaReads` shows that interpreting `LayerSchema` under the
    base registry (or any registry with the same `u8` and `u32le`) yields
    exactly the object the typed layer describes. */
module SarParser {
  import opened Outcome
  import opened Bytes
  import opened BitOps
  import opened ByteCursor
  import opened Registry
  import opened Schema
  import opened Document

  /** The object `layerSchema.props` returns, key for key. */
  datatype Props = Props(
    visibility: bool,
    id: int,
    colorA: int, colorR: int, colorG: int, colorB: int,
    colorX: int, colorY: int, colorZ: int)

  /** `!(w >> 31)`: bit 31 of the 32-bit word is clear. */
  predicate Visible(w: int) {
    Field(w, 31, 1) == 0
  }

  /** The bit fields of the two property words: in the first, r, g and b
      take 6 bits each from bit 0 up, alpha 3 bits from bit 18, the symbol
      10 bits from bit 21 and visibility the top bit; in the second, x, y
      and z take 6 bits each from bit 0 up and the rest is ignored. */
  function UnpackProps(w1: int, w2: int): (p: Props)
    ensures 0 <= p.id < 1024 && 0 <= p.colorA < 8
    ensures 0 <= p.colorR < 64 && 0 <= p.colorG < 64 && 0 <= p.colorB < 64
    ensures 0 <= p.colorX < 64 && 0 <= p.colorY < 64 && 0 <= p.colorZ < 64
  {
    Pow2Values();
    Props(
      visibility := Visible(w1),
      id := Field(w1, 21, 10),
      colorA := Field(w1, 18, 3),
      colorR := Field(w1, 0, 6),
      colorG := Field(w1, 6, 6),
      colorB := Field(w1, 12, 6),
      colorX := Field(w2, 0, 6),
      colorY := Field(w2, 6, 6),
      colorZ := Field(w2, 12, 6))
  }

  /** `!(w >> 31)` is true exactly when the 32-bit signed view of `w` is
      not negative: the arithmetic shift leaves 0 or -1. */
  lemma VisibleIsSignClear(w: int)
    ensures Visible(w) <==> ToInt32(w) >= 0
  {
    WrapKeepsField(w, 31, 1);
    Pow2Values();
    var t := ToInt32(w);
    if t < 0 {
      DivModUnique(t, Pow2(31), -1, t + Pow2(31));
    } else {
      DivModUnique(t, Pow2(31), 0, t);
    }
  }

  /** A layer as `parseSar` assembles it from the corners and the props. */
  function ToLayer(position: Corners, p: Props): (l: Layer)
    ensures l.position == position && l.visible == p.visibility && l.symbol == p.id
    ensures l.a == p.colorA && l.r == p.colorR && l.g == p.colorG && l.b == p.colorB
    ensures l.x == p.colorX && l.y == p.colorY && l.z == p.colorZ
  {
    Layer(p.id, p.visibility, position, p.colorA, p.colorR, p.colorG, p.colorB, p.colorX, p.colorY, p.colorZ)
  }

  /** The reference reading of the 16-byte layer record at `at`: four
      corners of two unsigned bytes each, then two little-endian property
      words. */
  function DecodeLayer(buf: seq<Byte>, at: nat): (l: Layer)
    requires at + 16 <= |buf|
    ensures LayerInRange(l)
  {
    ToLayer(
      Corners(Point(buf[at], buf[at + 1]), Point(buf[at + 2], buf[at + 3]),
              Point(buf[at + 4], buf[at + 5]), Point(buf[at + 6], buf[at + 7])),
      UnpackProps(Le32At(buf, at + 8), Le32At(buf, at + 12)))
  }

  /** A layer is visible exactly when the top bit of its last property
      byte, the top bit of the first little-endian word, is clear. */
  lemma DecodedVisibility(buf: seq<Byte>, at: nat)
    requires at + 16 <= |buf|
    ensures DecodeLayer(buf, at).visible <==> buf[at + 11] < 128
  {
    Pow2Values();
    var w := Le32At(buf, at + 8);
    var top := buf[at + 11];
    var low: int := w - 0x100_0000 * (top as int);
    DivModUnique(w, Pow2(31), top / 128, 0x100_0000 * (top % 128) + low);
  }

  /** `pointSchema`: two unsigned bytes, x then y. */
  const PointSchema: Schema := Group([("x", Name("u8")), ("y", Name("u8"))])

  /** The corner schema inside `layerSchema`, in file order. */
  const CornersSchema: Schema := Group([
    ("topLeft", PointSchema), ("bottomLeft", PointSchema),
    ("topRight", PointSchema), ("bottomRight", PointSchema)])

  /** `layerSchema`: the corners, then the property function. */
  const LayerSchema: Schema := Group([("points", CornersSchema), ("props", Func(PropsReader))])

  /** The integer a bitwise operator sees for a parsed value: a number is
      itself, `true` is 1, and `false`, `undefined` and objects (NaN) are 0. */
  function Operand(v: Value): int {
    match v
    case Num(n) => n
    case Bool(b) => if b then 1 else 0
    case _ => 0
  }

  /** `layerSchema.props`: two `u32le` reads through the registry, then the
      bit fields of the two words. */
  function PropsReader(c: Cursor, reg: Registry): (r: Result<(Value, Cursor)>)
    ensures LayerNames(reg) ==> (r.Ok? <==> c.pos + 8 <= |c.buf|)
    ensures LayerNames(reg) && r.Ok? ==>
      r.value == (PropsValue(UnpackProps(Le32At(c.buf, c.pos), Le32At(c.buf, c.pos + 4))), c.(pos := c.pos + 8))
  {
    WordRead(c, reg);
    var v1 :- ParseAttribute(c, Name("u32le"), reg);
    WordRead(v1.1, reg);
    var v2 :- ParseAttribute(v1.1, Name("u32le"), reg);
    Ok((PropsValue(UnpackProps(Operand(v1.0), Operand(v2.0))), v2.1))
  }

  /** Under a registry whose `u32le` is the little-endian word reader, the
      name reads the four bytes at the position. */
  lemma WordRead(c: Cursor, reg: Registry)
    ensures LayerNames(reg) ==> (ParseAttribute(c, Name("u32le"), reg).Ok? <==> c.pos + 4 <= |c.buf|)
    ensures LayerNames(reg) && ParseAttribute(c, Name("u32le"), reg).Ok? ==>
      ParseAttribute(c, Name("u32le"), reg).value == (Num(Le32At(c.buf, c.pos)), c.(pos := c.pos + 4))
  {
    if LayerNames(reg) {
      RegisteredName(c, "u32le", reg, U32le);
      if c.pos + 4 <= |c.buf| {
        ReadValue(c, U32le);
        Le32AtValue(c.buf, c.pos);
      }
    }
  }

  function PointValue(p: Point): Value {
    Obj([("x", Num(p.x)), ("y", Num(p.y))])
  }

  function CornersValue(cs: Corners): Value {
    Obj([("topLeft", PointValue(cs.topLeft)), ("bottomLeft", PointValue(cs.bottomLeft)),
         ("topRight", PointValue(cs.topRight)), ("bottomRight", PointValue(cs.bottomRight))])
  }

  function PropsValue(p: Props): Value {
    Obj([("visibility", Bool(p.visibility)), ("id", Num(p.id)), ("colorA", Num(p.colorA)),
         ("colorR", Num(p.colorR)), ("colorG", Num(p.colorG)), ("colorB", Num(p.colorB)),
         ("colorX", Num(p.colorX)), ("colorY", Num(p.colorY)), ("colorZ", Num(p.colorZ))])
  }

  /** The object `layerSchema` yields for a layer. */
  function LayerValue(l: Layer): Value {
    Obj([("points", CornersValue(l.position)),
         ("props", PropsValue(Props(l.visible, l.symbol, l.a, l.r, l.g, l.b, l.x, l.y, l.z)))])
  }

  /** One corner: two `u8` reads. */
  function ReadPoint(c: Cursor): (r: Result<(Point, Cursor)>)
    ensures r.Ok? <==> c.pos + 2 <= |c.buf|
    ensures r.Ok? ==> r.value == (Point(c.buf[c.pos], c.buf[c.pos + 1]), c.(pos := c.pos + 2))
  {
    var x :- Read(c, U8);
    ReadOneByte(c, U8);
    var y :- Read(x.1, U8);
    ReadOneByte(x.1, U8);
    Ok((Point(x.0, y.0), y.1))
  }

  /** The four corners, 8 bytes. */
  function ReadCorners(c: Cursor): (r: Result<(Corners, Cursor)>)
    ensures r.Ok? <==> c.pos + 8 <= |c.buf|
    ensures r.Ok? ==> r.value.1 == c.(pos := c.pos + 8)
    ensures r.Ok? ==> r.value.0 == Corners(
      Point(c.buf[c.pos], c.buf[c.pos + 1]), Point(c.buf[c.pos + 2], c.buf[c.pos + 3]),
      Point(c.buf[c.pos + 4], c.buf[c.pos + 5]), Point(c.buf[c.pos + 6], c.buf[c.pos + 7]))
  {
    var tl :- ReadPoint(c);
    var bl :- ReadPoint(tl.1);
    var tr :- ReadPoint(bl.1);
    var br :- ReadPoint(tr.1);
    Ok((Corners(tl.0, bl.0, tr.0, br.0), br.1))
  }

  /** The two property words, 8 bytes, unpacked. */
  function ReadProps(c: Cursor): (r: Result<(Props, Cursor)>)
    ensures r.Ok? <==> c.pos + 8 <= |c.buf|
    ensures r.Ok? ==> r.value.1 == c.(pos := c.pos + 8)
    ensures r.Ok? ==> r.value.0 == UnpackProps(Le32At(c.buf, c.pos), Le32At(c.buf, c.pos + 4))
  {
    var w1 :- Read(c, U32le);
    ReadValue(c, U32le);
    Le32AtValue(c.buf, c.pos);
    var w2 :- Read(w1.1, U32le);
    ReadValue(w1.1, U32le);
    Le32AtValue(c.buf, c.pos + 4);
    Ok((UnpackProps(w1.0, w2.0), w2.1))
  }

  /** One layer: the corners, then the properties, 16 bytes in all; its
      value is the reference reading of those bytes. */
  function ReadLayer(c: Cursor): (r: Result<(Layer, Cursor)>)
    ensures r.Ok? <==> c.pos + 16 <= |c.buf|
    ensures r.Ok? ==> r.value.0 == DecodeLayer(c.buf, c.pos) && r.value.1 == c.(pos := c.pos + 16)
  {
    var corners :- ReadCorners(c);
    var props :- ReadProps(corners.1);
    Ok((ToLayer(corners.0, props.0), props.1))
  }

  /** A registry whose `u8` and `u32le` entries are the base readers: all
      the layer schema looks up. The base registry is one. */
  predicate LayerNames(reg: Registry) {
    "u8" in reg && reg["u8"] == Int(U8) && "u32le" in reg && reg["u32le"] == Int(U32le)
  }

  lemma BaseLayerNames()
    ensures LayerNames(Base)
  {
  }

  /** `pointSchema` reads two bytes into `{x, y}`, and fails when fewer
      remain. */
  lemma PointSchemaReads(c: Cursor, reg: Registry)
    requires LayerNames(reg)
    ensures ParseAttribute(c, PointSchema, reg).Ok? <==> c.pos + 2 <= |c.buf|
    ensures ParseAttribute(c, PointSchema, reg).Ok? ==>
      ParseAttribute(c, PointSchema, reg).value == (PointValue(Point(c.buf[c.pos], c.buf[c.pos + 1])), c.(pos := c.pos + 2))
  {
    var fs := PointSchema.fields;
    RegisteredName(c, "u8", reg, U8);
    if c.pos + 2 <= |c.buf| {
      var c1 := c.(pos := c.pos + 1);
      ReadOneByte(c, U8);
      ReadOneByte(c1, U8);
      RegisteredName(c1, "u8", reg, U8);
      TwoFields(PointSchema, reg, c, Num(c.buf[c.pos]), c1, Num(c.buf[c.pos + 1]), c.(pos := c.pos + 2));
    } else {
      if c.pos + 1 <= |c.buf| {
        var c1 := c.(pos := c.pos + 1);
        RegisteredName(c1, "u8", reg, U8);
        FieldFails(c1, PointSchema, fs[1..], reg);
      }
      FieldFails(c, PointSchema, fs, reg);
      GroupFails(c, PointSchema, reg);
    }
  }

  /** The corner schema reads eight bytes and nothing else. */
  lemma CornersPlain(reg: Registry)
    requires LayerNames(reg)
    ensures Plain(CornersSchema, reg) && Size(CornersSchema, reg) == 8
  {
    var ps := PointSchema.fields;
    assert ps[1..][1..] == [];
    assert PlainFields(PointSchema, ps[1..], reg);
    assert SizeFields(PointSchema, ps[1..], reg) == 1;
    var fs := CornersSchema.fields;
    assert fs[1..][1..][1..][1..] == [];
    assert PlainFields(CornersSchema, fs[1..][1..][1..], reg);
    assert PlainFields(CornersSchema, fs[1..][1..], reg);
    assert PlainFields(CornersSchema, fs[1..], reg);
    assert SizeFields(CornersSchema, fs[1..][1..][1..], reg) == 2;
    assert SizeFields(CornersSchema, fs[1..][1..], reg) == 4;
    assert SizeFields(CornersSchema, fs[1..], reg) == 6;
  }

  /** An object schema of four point schemas over eight available bytes
      yields the four points in order. */
  lemma FourPoints(s: Schema, c: Cursor, reg: Registry)
    requires LayerNames(reg)
    requires s.Group? && |s.fields| == 4 && c.pos + 8 <= |c.buf|
    requires s.fields[0].1 == PointSchema && s.fields[1].1 == PointSchema
    requires s.fields[2].1 == PointSchema && s.fields[3].1 == PointSchema
    ensures ParseAttribute(c, s, reg) == Ok((Obj([
      (s.fields[0].0, PointValue(Point(c.buf[c.pos], c.buf[c.pos + 1]))),
      (s.fields[1].0, PointValue(Point(c.buf[c.pos + 2], c.buf[c.pos + 3]))),
      (s.fields[2].0, PointValue(Point(c.buf[c.pos + 4], c.buf[c.pos + 5]))),
      (s.fields[3].0, PointValue(Point(c.buf[c.pos + 6], c.buf[c.pos + 7])))]), c.(pos := c.pos + 8)))
  {
    hide *;
    var c2, c4, c6 := c.(pos := c.pos + 2), c.(pos := c.pos + 4), c.(pos := c.pos + 6);
    PointSchemaReads(c, reg);
    PointSchemaReads(c2, reg);
    PointSchemaReads(c4, reg);
    PointSchemaReads(c6, reg);
    FourFields(s, reg,
      c, PointValue(Point(c.buf[c.pos], c.buf[c.pos + 1])), c2,
      PointValue(Point(c.buf[c.pos + 2], c.buf[c.pos + 3])), c4,
      PointValue(Point(c.buf[c.pos + 4], c.buf[c.pos + 5])), c6,
      PointValue(Point(c.buf[c.pos + 6], c.buf[c.pos + 7])), c.(pos := c.pos + 8));
  }

  /** The corner schema reads eight bytes into the four corner objects, in
      file order, and fails when fewer remain. */
  lemma CornersSchemaReads(c: Cursor, reg: Registry)
    requires LayerNames(reg)
    ensures ParseAttribute(c, CornersSchema, reg).Ok? <==> c.pos + 8 <= |c.buf|
    ensures ParseAttribute(c, CornersSchema, reg).Ok? ==>
      ParseAttribute(c, CornersSchema, reg).value == (CornersValue(Corners(
        Point(c.buf[c.pos], c.buf[c.pos + 1]), Point(c.buf[c.pos + 2], c.buf[c.pos + 3]),
        Point(c.buf[c.pos + 4], c.buf[c.pos + 5]), Point(c.buf[c.pos + 6], c.buf[c.pos + 7]))), c.(pos := c.pos + 8))
  {
    CornersPlain(reg);
    ParseConsumes(c, CornersSchema, reg);
    if c.pos + 8 <= |c.buf| {
      FourPoints(CornersSchema, c, reg);
    }
  }

  /** The two fields of the layer schema: the corner schema, then the
      property function. */
  lemma LayerParts(c: Cursor, reg: Registry)
    ensures ParseAttribute(c, LayerSchema.fields[0].1, reg) == ParseAttribute(c, CornersSchema, reg)
    ensures ParseAttribute(c, LayerSchema.fields[1].1, reg) == PropsReader(c, reg)
  {
  }

  /** The object of a layer assembled from corners and props is the object
      of the corners next to the object of the props. */
  lemma LayerValueParts(position: Corners, p: Props)
    ensures LayerValue(ToLayer(position, p)) == Obj([("points", CornersValue(position)), ("props", PropsValue(p))])
  {
  }

  /** `layerSchema`: it succeeds exactly when the typed reader does, and
      then yields the object of the layer that reader decodes and the same
      cursor. */
  lemma LayerSchemaReads(c: Cursor, reg: Registry)
    requires LayerNames(reg)
    ensures ParseAttribute(c, LayerSchema, reg).Ok? <==> ReadLayer(c).Ok?
    ensures ParseAttribute(c, LayerSchema, reg).Ok? ==>
      ParseAttribute(c, LayerSchema, reg).value == (LayerValue(ReadLayer(c).value.0), ReadLayer(c).value.1)
  {
    var fs := LayerSchema.fields;
    LayerParts(c, reg);
    CornersSchemaReads(c, reg);
    if c.pos + 8 <= |c.buf| {
      var c8 := c.(pos := c.pos + 8);
      LayerParts(c8, reg);
      var corners := Corners(
        Point(c.buf[c.pos], c.buf[c.pos + 1]), Point(c.buf[c.pos + 2], c.buf[c.pos + 3]),
        Point(c.buf[c.pos + 4], c.buf[c.pos + 5]), Point(c.buf[c.pos + 6], c.buf[c.pos + 7]));
      if c.pos + 16 <= |c.buf| {
        var p := UnpackProps(Le32At(c.buf, c.pos + 8), Le32At(c.buf, c.pos + 12));
        TwoFields(LayerSchema, reg, c, CornersValue(corners), c8, PropsValue(p), c.(pos := c.pos + 16));
        LayerValueParts(corners, p);
      } else {
        FieldFails(c8, LayerSchema, fs[1..], reg);
        FieldFails(c, LayerSchema, fs, reg);
        GroupFails(c, LayerSchema, reg);
      }
    } else {
      FieldFails(c, LayerSchema, fs, reg);
      GroupFails(c, LayerSchema, reg);
    }
  }

  /** The reference reading of `n` consecutive layer records from `at`. */
  function DecodeLayers(buf: seq<Byte>, at: nat, n: nat): (ls: seq<Layer>)
    requires at + 16 * n <= |buf|
    ensures |ls| == n
    decreases n
  {
    if n == 0 then [] else [DecodeLayer(buf, at)] + DecodeLayers(buf, at + 16, n - 1)
  }

  /** Layer `i` of the reference reading is the record at `at + 16 i`. */
  lemma {:induction false} DecodeLayersIndex(buf: seq<Byte>, at: nat, n: nat, i: nat)
    requires at + 16 * n <= |buf| && i < n
    ensures DecodeLayers(buf, at, n)[i] == DecodeLayer(buf, at + 16 * i)
    decreases n
  {
    hide DecodeLayer;
    if i > 0 {
      DecodeLayersIndex(buf, at + 16, n - 1, i - 1);
    }
  }

  /** `n` layers one after another: the reference reading of the records
      from the position. */
  function ReadLayers(c: Cursor, n: nat): (r: Result<(seq<Layer>, Cursor)>)
    ensures r.Ok? <==> c.pos + 16 * n <= |c.buf|
    ensures r.Err? ==> r.error == OutOfRange
    ensures r.Ok? ==> r.value.0 == DecodeLayers(c.buf, c.pos, n) && r.value.1 == c.(pos := c.pos + 16 * n)
    decreases n
  {
    hide DecodeLayer, ReadLayer;
    if n == 0 then Ok(([], c))
    else
      match ReadLayer(c)
      case Err(e) => Err(e)
      case Ok(first) =>
        match ReadLayers(first.1, n - 1)
        case Err(e) => Err(e)
        case Ok(rest) =>
          assert DecodeLayers(c.buf, c.pos, n) == [first.0] + DecodeLayers(c.buf, c.pos + 16, n - 1);
          Ok(([first.0] + rest.0, rest.1))
  }


  /** The name loop: up to `attempts` `u16le` reads; the first read that
      runs past the end is caught and ends the loop. */
  function ReadName(c: Cursor, attempts: nat): (r: seq<CodeUnit>)
    ensures |r| == if attempts <= (|c.buf| - c.pos) / 2 then attempts else (|c.buf| - c.pos) / 2
    ensures forall i :: 0 <= i < |r| ==> r[i] == Le16At(c.buf, c.pos + 2 * i)
    decreases attempts
  {
    hide Read;
    if attempts == 0 then []
    else
      match Read(c, U16le)
      case Err(_) => []
      case Ok(unit) =>
        ReadValue(c, U16le);
        Le16AtValue(c.buf, c.pos);
        var rest := ReadName(unit.1, attempts - 1);
        assert forall i :: 1 <= i < |rest| + 1 ==> ([unit.0] + rest)[i] == rest[i - 1];
        [unit.0] + rest
  }

  /** The name: one attempt per started pair of remaining bytes, so a
      trailing odd byte costs one failed, caught read and is dropped. */
  function NameUnits(c: Cursor): (r: seq<CodeUnit>)
    ensures |r| == (|c.buf| - c.pos) / 2
    ensures forall i :: 0 <= i < |r| ==> r[i] == Le16At(c.buf, c.pos + 2 * i)
  {
    ReadName(c, (|c.buf| - c.pos + 1) / 2)
  }

  /** The header fields, in file order. */
  datatype Header = Header(authorId: int, layerCount: nat, height: int, width: int, sound: int)

  /** The 8-byte header: a `u32le` author, then `u8` layer count, height,
      width and sound. */
  function ReadHeader(c: Cursor): (r: Result<(Header, Cursor)>)
    ensures r.Ok? <==> c.pos + 8 <= |c.buf|
    ensures r.Err? ==> r.error == OutOfRange
    ensures r.Ok? ==> r.value == (Header(Le32At(c.buf, c.pos), c.buf[c.pos + 4], c.buf[c.pos + 5],
                                         c.buf[c.pos + 6], c.buf[c.pos + 7]), c.(pos := c.pos + 8))
  {
    var author :- Read(c, U32le);
    ReadValue(c, U32le);
    Le32AtValue(c.buf, c.pos);
    var count :- Read(author.1, U8);
    ReadOneByte(author.1, U8);
    var height :- Read(count.1, U8);
    ReadOneByte(count.1, U8);
    var width :- Read(height.1, U8);
    ReadOneByte(height.1, U8);
    var sound :- Read(width.1, U8);
    ReadOneByte(width.1, U8);
    Ok((Header(author.0, count.0, height.0, width.0, sound.0), sound.1))
  }

  /** `parseSar`: the header, the declared number of layers, and the rest
      of the buffer as the name. Running out of bytes in the header or the
      layers fails; nothing there is caught. */
  function ParseSar(c: Cursor): (r: Result<Art>)
    ensures r.Ok? <==> c.pos + 8 <= |c.buf| && c.pos + 8 + 16 * (c.buf[c.pos + 4] as int) <= |c.buf|
    ensures r.Err? ==> r.error == OutOfRange
    ensures r.Ok? ==>
      && r.value.authorId == Le32At(c.buf, c.pos)
      && |r.value.layers| == c.buf[c.pos + 4]
      && r.value.height == c.buf[c.pos + 5]
      && r.value.width == c.buf[c.pos + 6]
      && r.value.sound == Numeric(c.buf[c.pos + 7])
    ensures r.Ok? ==> r.value.layers == DecodeLayers(c.buf, c.pos + 8, c.buf[c.pos + 4])
    ensures r.Ok? ==> var start := c.pos + 8 + 16 * |r.value.layers|;
      |r.value.name| == (|c.buf| - start) / 2
      && forall i :: 0 <= i < |r.value.name| ==> r.value.name[i] == Le16At(c.buf, start + 2 * i)
  {
    hide DecodeLayer;
    var header :- ReadHeader(c);
    var h := header.0;
    var layers :- ReadLayers(header.1, h.layerCount);
    Ok(Art(h.authorId, NameUnits(layers.1), Numeric(h.sound), h.height, h.width, layers.0))
  }
}
