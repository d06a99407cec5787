/** The `json` setter followed by the `json` getter of src/index.ts: the
    decoder of src/helpers/SarParser.ts reads back every document whose
    fields fit the widths the format gives them, except that the sound
    comes back as the number the encoder stored. Packed layers are read
    back field by field, the author and the name unit by unit. */
module JsonRoundTrip {
  import opened Outcome
  import opened Bytes
  import opened BitOps
  import opened ByteCursor
  import opened Document
  import opened SarParser
  import opened SymbolArt

  /** The encoder's masks and shifts on a number, as plain remainders. */
  lemma EncoderFields(v: int)
    ensures Field(v, 0, 2) == v % 4 && Field(v, 2, 4) == (v / 4) % 16
    ensures Field(v, 0, 4) == v % 16 && Field(v, 4, 2) == (v / 16) % 4
    ensures Field(v, 0, 3) == v % 8 && Field(v, 3, 7) == (v / 8) % 128
  {
    Pow2Values();
    assert Pow2(0) == 1;
  }

  /** OR of `q << k`, a byte, with a number below `2^k` is their sum. */
  lemma OrBytePlus(q: nat, lo: nat, k: nat)
    requires q * Pow2(k) < 256 && lo < Pow2(k) && lo < 256
    ensures OrByte(q * Pow2(k), lo) == q * Pow2(k) + lo
  {
    DivModUnique(q * Pow2(k), Pow2(k), q, 0);
    hide *;
    assert Lo8(q * Pow2(k)) == q * Pow2(k) && Lo8(lo) == lo;
    OrDisjoint(q * Pow2(k), lo, k);
    assert OrByte(q * Pow2(k), lo) == Or(Lo8(q * Pow2(k)), Lo8(lo));
  }

  /** The sixteen bytes of an in-range layer, each as a plain sum of the
      pieces of fields it holds: the corners as they are, then the two
      property words cut into bytes. */
  lemma LayerBytesValues(l: Layer)
    requires LayerInRange(l)
    ensures var b := LayerBytes(l);
      && b[0] == l.position.topLeft.x && b[1] == l.position.topLeft.y
      && b[2] == l.position.bottomLeft.x && b[3] == l.position.bottomLeft.y
      && b[4] == l.position.topRight.x && b[5] == l.position.topRight.y
      && b[6] == l.position.bottomRight.x && b[7] == l.position.bottomRight.y
      && b[8] == (l.g % 4) * 64 + l.r
      && b[9] == (l.b % 16) * 16 + l.g / 4
      && b[10] == (l.symbol % 8) * 32 + l.a * 4 + l.b / 16
      && b[11] == (if l.visible then 0 else 128) + l.symbol / 8
      && b[12] == (l.y % 4) * 64 + l.x
      && b[13] == (l.z % 16) * 16 + l.y / 4
      && b[14] == l.z / 16
      && b[15] == 0
  {
    CornerBytes(l);
    PropertyBytes(l);
  }

  lemma CornerBytes(l: Layer)
    requires LayerInRange(l)
    ensures var b := LayerBytes(l);
      && b[0] == l.position.topLeft.x && b[1] == l.position.topLeft.y
      && b[2] == l.position.bottomLeft.x && b[3] == l.position.bottomLeft.y
      && b[4] == l.position.topRight.x && b[5] == l.position.topRight.y
      && b[6] == l.position.bottomRight.x && b[7] == l.position.bottomRight.y
  {
    hide Field, OrByte, Or, Lo8, Pow2;
    var p := l.position;
    assert PointInRange(p.topLeft) && PointInRange(p.bottomLeft) && PointInRange(p.topRight) && PointInRange(p.bottomRight);
    LowByte(p.topLeft.x);
    LowByte(p.topLeft.y);
    LowByte(p.bottomLeft.x);
    LowByte(p.bottomLeft.y);
    LowByte(p.topRight.x);
    LowByte(p.topRight.y);
    LowByte(p.bottomRight.x);
    LowByte(p.bottomRight.y);
  }

  lemma PropertyBytes(l: Layer)
    requires LayerInRange(l)
    ensures var b := LayerBytes(l);
      && b[8] == (l.g % 4) * 64 + l.r
      && b[9] == (l.b % 16) * 16 + l.g / 4
      && b[10] == (l.symbol % 8) * 32 + l.a * 4 + l.b / 16
      && b[11] == (if l.visible then 0 else 128) + l.symbol / 8
      && b[12] == (l.y % 4) * 64 + l.x
      && b[13] == (l.z % 16) * 16 + l.y / 4
      && b[14] == l.z / 16
      && b[15] == 0
  {
    hide Field, OrByte, Or, Lo8, Pow2;
    LowPair(l.g, l.r);
    MidPair(l.b, l.g);
    AlphaByte(l.symbol, l.a, l.b);
    HiddenByte(if l.visible then 0 else 1, l.symbol);
    LowPair(l.y, l.x);
    MidPair(l.z, l.y);
    TopPair(l.z);
  }

  /** A byte is its own low byte. */
  lemma LowByte(v: int)
    requires IsByte(v)
    ensures Lo8(v) == v
  {
  }

  /** `((u & 3) << 6) | lo`, for a 6-bit `lo`. */
  lemma LowPair(u: int, lo: int)
    requires 0 <= lo < 64
    ensures OrByte(Field(u, 0, 2) * 64, lo) == (u % 4) * 64 + lo
  {
    hide *;
    EncoderFields(u);
    Pow2Values();
    OrBytePlus(u % 4, lo, 6);
  }

  /** `((u & 15) << 4) | ((w >> 2) & 15)`, for a 6-bit `w`. */
  lemma MidPair(u: int, w: int)
    requires 0 <= w < 64
    ensures OrByte(Field(u, 0, 4) * 16, Field(w, 2, 4)) == (u % 16) * 16 + w / 4
  {
    hide *;
    EncoderFields(u);
    EncoderFields(w);
    Pow2Values();
    OrBytePlus(u % 16, w / 4, 4);
  }

  /** `((symbol & 7) << 5) | (a << 2) | ((b >> 4) & 3)`, for a 3-bit `a` and a
      6-bit `b`. */
  lemma AlphaByte(symbol: int, a: int, b: int)
    requires 0 <= a < 8 && 0 <= b < 64
    ensures OrByte(OrByte(Field(symbol, 0, 3) * 32, a * 4), Field(b, 4, 2)) == (symbol % 8) * 32 + a * 4 + b / 16
  {
    hide *;
    EncoderFields(symbol);
    EncoderFields(b);
    Pow2Values();
    OrBytePlus(symbol % 8, a * 4, 5);
    OrBytePlus((symbol % 8) * 8 + a, b / 16, 2);
  }

  /** `(hidden << 7) | ((symbol >> 3) & 127)`, for a 10-bit `symbol`. */
  lemma HiddenByte(hidden: int, symbol: int)
    requires 0 <= hidden <= 1 && 0 <= symbol < 1024
    ensures OrByte(hidden * 128, Field(symbol, 3, 7)) == hidden * 128 + symbol / 8
  {
    hide *;
    EncoderFields(symbol);
    Pow2Values();
    OrBytePlus(hidden, symbol / 8, 7);
  }

  /** `(z >> 4) & 3`, for a 6-bit `z`. */
  lemma TopPair(z: int)
    requires 0 <= z < 64
    ensures Lo8(Field(z, 4, 2)) == z / 16
  {
    hide *;
    EncoderFields(z);
  }

  /** The first property word of an in-range layer: red, green and blue in
      6 bits each, alpha in 3, the symbol in 10, and the hidden bit. */
  function PropsWord(l: Layer): int {
    l.r + 64 * (l.g + 64 * (l.b + 64 * (l.a + 8 * (l.symbol + 1024 * (if l.visible then 0 else 1)))))
  }

  /** The second property word: x, y and z in 6 bits each. */
  function ColorWord(l: Layer): int {
    l.x + 64 * (l.y + 64 * l.z)
  }

  /** The packed bytes of an in-range layer hold its two property words
      in little-endian order. */
  lemma LayerWords(buf: seq<Byte>, at: nat, l: Layer)
    requires LayerInRange(l) && at + 16 <= |buf| && buf[at..at + 16] == LayerBytes(l)
    ensures Le32At(buf, at + 8) == PropsWord(l) && Le32At(buf, at + 12) == ColorWord(l)
  {
    LayerBytesValues(l);
    var b := LayerBytes(l);
    assert buf[at + 8] == b[8] && buf[at + 9] == b[9] && buf[at + 10] == b[10] && buf[at + 11] == b[11];
    assert buf[at + 12] == b[12] && buf[at + 13] == b[13] && buf[at + 14] == b[14] && buf[at + 15] == b[15];
  }

  /** The decoder's bit fields of the two words give back the layer's
      properties. */
  lemma UnpackWords(l: Layer)
    requires LayerInRange(l)
    ensures UnpackProps(PropsWord(l), ColorWord(l)) == Props(l.visible, l.symbol, l.a, l.r, l.g, l.b, l.x, l.y, l.z)
  {
    Pow2Values();
    assert Pow2(0) == 1;
    var v := if l.visible then 0 else 1;
    var w := PropsWord(l);
    FieldOf(w, 0, 6, 0, l.r, l.g + 64 * (l.b + 64 * (l.a + 8 * (l.symbol + 1024 * v))));
    FieldOf(w, 6, 6, l.r, l.g, l.b + 64 * (l.a + 8 * (l.symbol + 1024 * v)));
    FieldOf(w, 12, 6, l.r + 64 * l.g, l.b, l.a + 8 * (l.symbol + 1024 * v));
    FieldOf(w, 18, 3, l.r + 64 * l.g + 0x1000 * l.b, l.a, l.symbol + 1024 * v);
    FieldOf(w, 21, 10, l.r + 64 * l.g + 0x1000 * l.b + 0x4_0000 * l.a, l.symbol, v);
    FieldOf(w, 31, 1, l.r + 64 * l.g + 0x1000 * l.b + 0x4_0000 * l.a + 0x20_0000 * l.symbol, v, 0);
    var x := ColorWord(l);
    FieldOf(x, 0, 6, 0, l.x, l.y + 64 * l.z);
    FieldOf(x, 6, 6, l.x, l.y, l.z);
    FieldOf(x, 12, 6, l.x + 64 * l.y, l.z, 0);
  }

  /** Decoding the packed bytes of an in-range layer gives the layer
      back. */
  lemma LayerRoundTrip(buf: seq<Byte>, at: nat, l: Layer)
    requires LayerInRange(l) && at + 16 <= |buf| && buf[at..at + 16] == LayerBytes(l)
    ensures DecodeLayer(buf, at) == l
  {
    LayerWords(buf, at, l);
    UnpackWords(l);
    LayerBytesValues(l);
    var b := LayerBytes(l);
    assert buf[at] == b[0] && buf[at + 1] == b[1] && buf[at + 2] == b[2] && buf[at + 3] == b[3];
    assert buf[at + 4] == b[4] && buf[at + 5] == b[5] && buf[at + 6] == b[6] && buf[at + 7] == b[7];
    var d := DecodeLayer(buf, at);
    assert d.position == l.position;
  }

  /** The decoder reads packed in-range layers back. */
  lemma PackedLayers(buf: seq<Byte>, at: nat, ls: seq<Layer>)
    requires RecordsAt(buf, at, ls)
    requires forall i :: 0 <= i < |ls| ==> LayerInRange(ls[i])
    ensures DecodeLayers(buf, at, |ls|) == ls
  {
    hide DecodeLayer, LayerBytes;
    forall i | 0 <= i < |ls|
      ensures DecodeLayers(buf, at, |ls|)[i] == ls[i]
    {
      DecodeLayersIndex(buf, at, |ls|, i);
      LayerRoundTrip(buf, at + 16 * i, ls[i]);
    }
  }

  /** The decoder's name units over packed name bytes are the name. */
  lemma PackedName(buf: seq<Byte>, at: nat, name: seq<CodeUnit>)
    requires UnitsAt(buf, at, name)
    ensures forall i :: 0 <= i < |name| ==> Le16At(buf, at + 2 * i) == name[i]
  {
  }

  /** The packed header of an in-range document holds its fields
      unchanged: nothing is cut by the byte and word widths. */
  lemma PackedHeader(art: Art)
    requires ArtInRange(art)
    ensures var p := Pack(art);
      && |p| == 8 + 16 * |art.layers| + 2 * |art.name|
      && Le32At(p, 0) == art.authorId
      && p[4] == |art.layers| && p[5] == art.height && p[6] == art.width
      && p[7] == SoundByte(art.sound)
  {
    hide Pack, HeaderBytes;
    var p := Pack(art);
    var h := HeaderBytes(art);
    assert p[..8] == h;
    assert p[0] == h[0] && p[1] == h[1] && p[2] == h[2] && p[3] == h[3];
    assert p[4] == h[4] && p[5] == h[5] && p[6] == h[6] && p[7] == h[7];
    assert art.authorId % TwoTo32 == art.authorId;
  }

  /** Setting the document and reading it back gives the document, for
      every document the format holds without loss; only the sound comes
      back as the number the setter stored for it. */
  lemma JsonRoundTrip(s: State, art: Art)
    requires ArtInRange(art)
    ensures Json(SetJson(s, art)) == Ok(art.(sound := Numeric(SoundByte(art.sound))))
  {
    hide DecodeLayer, LayerBytes, LayersBytes, NameBytes, HeaderBytes, ParseSar, Pack, RecordsAt, UnitsAt, SetJson;
    var p := Pack(art);
    var n := |art.layers|;
    PackedHeader(art);
    assert SetJson(s, art).decrypted == p;
    var r := ParseSar(New(p));
    assert r.Ok?;
    PackedLayers(p, 8, art.layers);
    PackedName(p, 8 + 16 * n, art.name);
    assert r.value.name == art.name;
    assert r.value.layers == art.layers;
  }

  /** The whole file path: a document set on one object, written out as a
      container and loaded into any object keyed the same way, reads back
      as that document. */
  lemma FileRoundTrip(s: State, t: State, art: Art)
    requires ArtInRange(art) && t.cipher == s.cipher
    ensures Load(t, Data(SetJson(s, art))).Ok?
    ensures Json(Load(t, Data(SetJson(s, art))).value) == Ok(art.(sound := Numeric(SoundByte(art.sound))))
  {
    LoadData(SetJson(s, art), t);
    JsonRoundTrip(t, art);
  }

  /** Red is not masked before it is packed: a red of 70, one bit wider
      than its field, reads back as red 6 with the spilled bit in
      green. */
  lemma RedSpills()
    ensures var l := Layer(0, true, Corners(Point(0, 0), Point(0, 0), Point(0, 0), Point(0, 0)), 0, 70, 0, 0, 0, 0, 0);
      var d := DecodeLayer(LayerBytes(l), 0);
      d.r == 6 && d.g == 1
  {
    var l := Layer(0, true, Corners(Point(0, 0), Point(0, 0), Point(0, 0), Point(0, 0)), 0, 70, 0, 0, 0, 0, 0);
    var m := l.(r := 6, g := 1);
    assert LayerInRange(m);
    LayerBytesValues(m);
    EncoderFields(0);
    assert LayerBytes(l) == LayerBytes(m);
    LayerRoundTrip(LayerBytes(l), 0, m);
  }
}
