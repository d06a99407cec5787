/** The `SymbolArt` class of src/index.ts: the `.sar` container around a
    payload, and the conversions between the payload and the document.

    A container is the three bytes "sar", a flag byte, and the payload
    encrypted with Blowfish under a fixed four-byte key. With the flag
    0x84 the payload is also XOR-masked and compressed; with 0x04 it is
    stored as it is. The class keeps the cipher and the current payload
    (`decrypted`); here that state is a value, and each accessor is a
    function of it. */
module SymbolArt {
  import opened Outcome
  import opened Bytes
  import opened BitOps
  import opened ByteCursor
  import opened Document
  import opened SarParser
  import Blowfish
  import Prs

  /** The file magic, "sar" as character codes. */
  const Magic: seq<Byte> := [0x73, 0x61, 0x72]

  /** The Blowfish key every container is encrypted under. */
  const Key: seq<Byte> := [0x09, 0x07, 0xC1, 0x2B]

  const Compressed: Byte := 0x84
  const NotCompressed: Byte := 0x04

  /** The byte the compressed path XORs every payload byte with. */
  const Mask: Byte := 0x95

  /** The object's state: the keyed cipher and the current payload. */
  datatype State = State(cipher: Blowfish.Cipher, decrypted: seq<Byte>)

  /** The constructor: the cipher keyed with `Key`, and an empty payload.
      The Blowfish initial tables are not part of this model, so they are
      a parameter. */
  function Init(tables: Blowfish.Cipher): (s: State)
    ensures s.cipher == Blowfish.Expand(Key, tables) && s.decrypted == []
  {
    State(Blowfish.Expand(Key, tables), [])
  }

  /** `appendBuffer`: a new buffer holding the first, then the second. */
  function AppendBuffer(first: seq<Byte>, second: seq<Byte>): (r: seq<Byte>)
    ensures |r| == |first| + |second|
    ensures r[..|first|] == first && r[|first|..] == second
  {
    first + second
  }

  /** The `data` getter: the magic and the stored flag, then the payload
      encrypted whole block by whole block. The source encrypts the
      payload buffer in place; here the state is left as it was. */
  function Data(s: State): (r: seq<Byte>)
    ensures |r| == 4 + |s.decrypted|
    ensures r[..3] == Magic && r[3] == NotCompressed
    ensures r[4..] == Blowfish.Encrypt(s.cipher, s.decrypted)
  {
    AppendBuffer(Magic + [NotCompressed], Blowfish.Encrypt(s.cipher, s.decrypted))
  }

  /** A new object's file is the bare header: magic and plain flag, with
      nothing to encrypt; loading it gives an empty payload back. */
  lemma InitData(tables: Blowfish.Cipher)
    ensures Data(Init(tables)) == Magic + [NotCompressed]
    ensures Load(Init(tables), Data(Init(tables))) == Ok(Init(tables))
  {
    var d := Data(Init(tables));
    assert d[..3] == Magic && d[3] == NotCompressed && |d| == 4;
    assert d[4..] == [];
  }

  /** `source.map(v => v ^ 0x95)`: every byte XORed with the mask. */
  function XorAll(s: seq<Byte>, k: Byte): (r: seq<Byte>)
    ensures |r| == |s|
    ensures forall i :: 0 <= i < |s| ==> r[i] == Xor(s[i], k)
  {
    seq(|s|, i requires 0 <= i < |s| => XorByte(s[i], k))
  }

  /** Masking twice with the same byte gives the bytes back. */
  lemma XorAllTwice(s: seq<Byte>, k: Byte)
    ensures XorAll(XorAll(s, k), k) == s
  {
    var t := XorAll(XorAll(s, k), k);
    forall i | 0 <= i < |s|
      ensures t[i] == s[i]
    {
      XorTwice(s[i], k);
    }
  }

  /** The `data` setter. The file must start with the magic and carry one
      of the two flags; the payload is then everything after the flag,
      decrypted. With the compressed flag the decrypted bytes, including
      the tail the cipher leaves alone, are XOR-masked and decompressed,
      and a malformed compressed stream fails. */
  function Load(s: State, file: seq<Byte>): (r: Result<State>)
    ensures r.Err? && r.error == NotSar <==> |file| < 3 || file[..3] != Magic
    ensures r.Err? && r.error == InvalidFlag
        <==> |file| >= 3 && file[..3] == Magic && (|file| == 3 || (file[3] != Compressed && file[3] != NotCompressed))
    ensures r.Err? ==> r.error in {NotSar, InvalidFlag, OutOfRange}
    ensures r.Ok? ==> r.value.cipher == s.cipher
    ensures |file| >= 4 && file[..3] == Magic && file[3] == NotCompressed
        ==> r == Ok(s.(decrypted := Blowfish.Decrypt(s.cipher, file[4..])))
    ensures |file| >= 4 && file[..3] == Magic && file[3] == Compressed
        ==> r.Ok? == Prs.Decompress(XorAll(Blowfish.Decrypt(s.cipher, file[4..]), Mask)).Ok?
            && (r.Ok? ==> r.value.decrypted == Prs.Decompress(XorAll(Blowfish.Decrypt(s.cipher, file[4..]), Mask)).value)
  {
    if |file| < 3 || file[..3] != Magic then Err(NotSar)
    else if |file| == 3 || (file[3] != Compressed && file[3] != NotCompressed) then Err(InvalidFlag)
    else
      var source := Blowfish.Decrypt(s.cipher, file[4..]);
      if file[3] == Compressed then
        var payload :- Prs.Decompress(XorAll(source, Mask));
        Ok(s.(decrypted := payload))
      else Ok(s.(decrypted := source))
  }

  /** Reading a container back: loading what the getter produced restores
      the payload, on any object keyed the same way. */
  lemma LoadData(s: State, t: State)
    requires t.cipher == s.cipher
    ensures Load(t, Data(s)) == Ok(t.(decrypted := s.decrypted))
  {
    var d := Data(s);
    assert d[4..] == Blowfish.Encrypt(s.cipher, s.decrypted);
    Blowfish.RoundTrip(s.cipher, s.decrypted);
  }

  /** The `json` getter: the payload parsed from its start with the base
      registry. */
  function Json(s: State): (r: Result<Art>)
    ensures r.Ok? <==> 8 <= |s.decrypted| && 8 + 16 * (s.decrypted[4] as int) <= |s.decrypted|
    ensures r.Err? ==> r.error == OutOfRange
  {
    ParseSar(New(s.decrypted))
  }

  /** `Sounds[data.sound] || 1`: the number of a sound name, and 1 for
      anything else, including the numbers the decoder yields. */
  function SoundByte(sound: Sound): (r: Byte)
    ensures 1 <= r <= 11
    ensures sound.Named? && sound.name in Sounds ==> r == Sounds[sound.name]
    ensures !(sound.Named? && sound.name in Sounds) ==> r == 1
  {
    if sound.Named? && sound.name in Sounds then Sounds[sound.name] else 1
  }

  /** `(v >> lo) & 0xff`: the shift works on the 32-bit wrap of `v`, but
      the byte it takes lies in the low 32 bits, so the wrap does not
      change it. */
  function ByteOf(v: int, lo: nat): (r: Byte)
    requires lo <= 24
    ensures r == Field(v, lo, 8)
  {
    Pow2Values();
    WrapKeepsField(v, lo, 8);
    Field(ToInt32(v), lo, 8)
  }

  /** The four bytes the setter writes for an author, read back in
      little-endian order, give the author modulo 2^32. */
  lemma AuthorBytes(v: int)
    ensures ByteOf(v, 0) + 0x100 * ByteOf(v, 8) + 0x1_0000 * ByteOf(v, 16) + 0x100_0000 * ByteOf(v, 24)
         == v % TwoTo32
  {
    Pow2Values();
    assert Pow2(0) == 1;
    var u := v % TwoTo32;
    assert ToInt32(u) == ToInt32(v) by {
      assert u % TwoTo32 == u;
    }
    hide Field, ToInt32, ByteOf, Pow2;
    var b0, q1 := u % 256, u / 256;
    var b1, q2 := q1 % 256, q1 / 256;
    var b2, b3 := q2 % 256, q2 / 256;
    FieldOf(u, 0, 8, 0, b0, q1);
    FieldOf(u, 8, 8, b0, b1, q2);
    FieldOf(u, 16, 8, b0 + 0x100 * b1, b2, b3);
    FieldOf(u, 24, 8, b0 + 0x100 * b1 + 0x1_0000 * b2, b3, 0);
    WrapKeepsField(u, 0, 8);
    WrapKeepsField(u, 8, 8);
    WrapKeepsField(u, 16, 8);
    WrapKeepsField(u, 24, 8);
    WrapKeepsField(v, 0, 8);
    WrapKeepsField(v, 8, 8);
    WrapKeepsField(v, 16, 8);
    WrapKeepsField(v, 24, 8);
  }

  /** The two bytes the setter writes for a code unit give the unit
      back. */
  lemma UnitBytes(u: CodeUnit)
    ensures Lo8(u) + 0x100 * ByteOf(u, 8) == u
  {
    Pow2Values();
    FieldOf(u, 8, 8, u % 256, u / 256, 0);
  }

  /** The eight header bytes the `json` setter writes: the author in
      little-endian order, then the layer count, height, width and sound,
      each cut to its low byte. */
  function HeaderBytes(art: Art): (r: seq<Byte>)
    ensures |r| == 8
    ensures r[0] as int + 0x100 * r[1] as int + 0x1_0000 * r[2] as int + 0x100_0000 * r[3] as int
         == art.authorId % TwoTo32
    ensures r[4] == |art.layers| % 256 && r[5] == art.height % 256 && r[6] == art.width % 256
    ensures r[7] == SoundByte(art.sound)
  {
    AuthorBytes(art.authorId);
    hide *;
    [ByteOf(art.authorId, 0), ByteOf(art.authorId, 8), ByteOf(art.authorId, 16), ByteOf(art.authorId, 24),
     Lo8(|art.layers|), Lo8(art.height), Lo8(art.width), SoundByte(art.sound)]
  }

  /** The sixteen bytes the `json` setter writes for a layer: the corner
      coordinates cut to bytes; then the first property word, red, green,
      blue, alpha, symbol and the hidden bit, packed into four bytes; then
      x, y and z into three; then a zero. Red, alpha and x are not masked
      before they are combined, so a value too wide for its field spills
      into the next one. */
  function LayerBytes(l: Layer): (r: seq<Byte>)
    ensures |r| == 16
  {
    var p := l.position;
    [Lo8(p.topLeft.x), Lo8(p.topLeft.y), Lo8(p.bottomLeft.x), Lo8(p.bottomLeft.y),
     Lo8(p.topRight.x), Lo8(p.topRight.y), Lo8(p.bottomRight.x), Lo8(p.bottomRight.y),
     OrByte(Field(l.g, 0, 2) * 64, l.r),
     OrByte(Field(l.b, 0, 4) * 16, Field(l.g, 2, 4)),
     OrByte(OrByte(Field(l.symbol, 0, 3) * 32, l.a * 4), Field(l.b, 4, 2)),
     OrByte((if l.visible then 0 else 1) * 128, Field(l.symbol, 3, 7)),
     OrByte(Field(l.y, 0, 2) * 64, l.x),
     OrByte(Field(l.z, 0, 4) * 16, Field(l.y, 2, 4)),
     Lo8(Field(l.z, 4, 2)),
     0]
  }

  /** From index `at` on, `r` holds the records of `layers`, sixteen
      bytes each. */
  predicate RecordsAt(r: seq<Byte>, at: nat, layers: seq<Layer>) {
    at + 16 * |layers| <= |r|
    && forall i :: 0 <= i < |layers| ==> r[at + 16 * i .. at + 16 * i + 16] == LayerBytes(layers[i])
  }

  /** The layer records, one after another. */
  function LayersBytes(ls: seq<Layer>): (r: seq<Byte>)
    ensures |r| == 16 * |ls|
    ensures RecordsAt(r, 0, ls)
  {
    if ls == [] then []
    else
      var rest := LayersBytes(ls[1..]);
      var r := LayerBytes(ls[0]) + rest;
      assert forall i :: 1 <= i < |ls| ==> r[16 * i .. 16 * i + 16] == rest[16 * (i - 1) .. 16 * (i - 1) + 16];
      r
  }

  /** From index `at` on, `r` holds the code units of `name`, two bytes
      each, low byte first. */
  predicate UnitsAt(r: seq<Byte>, at: nat, name: seq<CodeUnit>) {
    at + 2 * |name| <= |r|
    && forall i :: 0 <= i < |name| ==> r[at + 2 * i] as int + 0x100 * r[at + 2 * i + 1] as int == name[i]
  }

  /** Units held after a prefix are held, shifted, in the whole. */
  lemma UnitsShift(a: seq<Byte>, b: seq<Byte>, at: nat, name: seq<CodeUnit>)
    requires UnitsAt(b, at, name)
    ensures UnitsAt(a + b, |a| + at, name)
  {
    forall i | 0 <= i < |name|
      ensures (a + b)[|a| + at + 2 * i] == b[at + 2 * i] && (a + b)[|a| + at + 2 * i + 1] == b[at + 2 * i + 1]
    {
    }
  }

  /** A first unit followed by the rest of the units. */
  lemma UnitsCons(r: seq<Byte>, at: nat, name: seq<CodeUnit>)
    requires |name| > 0 && at + 2 <= |r| && r[at] as int + 0x100 * r[at + 1] as int == name[0]
    requires UnitsAt(r, at + 2, name[1..])
    ensures UnitsAt(r, at, name)
  {
    forall i | 1 <= i < |name|
      ensures r[at + 2 * i] as int + 0x100 * r[at + 2 * i + 1] as int == name[i]
    {
      assert at + 2 * i == at + 2 + 2 * (i - 1);
      assert name[i] == name[1..][i - 1];
    }
  }

  /** The name, each code unit as its low byte, then its high byte. */
  function NameBytes(name: seq<CodeUnit>): (r: seq<Byte>)
    ensures |r| == 2 * |name|
    ensures UnitsAt(r, 0, name)
  {
    if name == [] then []
    else
      var head := [Lo8(name[0]), ByteOf(name[0], 8)];
      var rest := NameBytes(name[1..]);
      UnitBytes(name[0]);
      UnitsShift(head, rest, 0, name[1..]);
      UnitsCons(head + rest, 0, name);
      head + rest
  }

  /** The payload the `json` setter builds: the eight header bytes, then
      layer `i`'s record at `8 + 16 i`, then the name's units. */
  function Pack(art: Art): (r: seq<Byte>)
    ensures |r| == 8 + 16 * |art.layers| + 2 * |art.name|
    ensures r[..8] == HeaderBytes(art)
    ensures RecordsAt(r, 8, art.layers)
    ensures UnitsAt(r, 8 + 16 * |art.layers|, art.name)
  {
    hide *;
    var h, ls, n := HeaderBytes(art), LayersBytes(art.layers), NameBytes(art.name);
    UnitsShift(h + ls, n, 0, art.name);
    RecordsShift(h, ls, n, art.layers);
    assert (h + ls + n)[..8] == h;
    h + ls + n
  }

  /** Layer records held in `ls` are held, shifted, in `a + ls + b`. */
  lemma RecordsShift(a: seq<Byte>, ls: seq<Byte>, b: seq<Byte>, layers: seq<Layer>)
    requires RecordsAt(ls, 0, layers)
    ensures RecordsAt(a + ls + b, |a|, layers)
  {
    hide LayerBytes;
    forall i | 0 <= i < |layers|
      ensures (a + ls + b)[|a| + 16 * i .. |a| + 16 * i + 16] == LayerBytes(layers[i])
    {
      assert (a + ls + b)[|a| + 16 * i .. |a| + 16 * i + 16] == ls[16 * i .. 16 * i + 16];
    }
  }

  /** The `json` setter: the packed document becomes the payload. */
  function SetJson(s: State, art: Art): (r: State)
    ensures r.cipher == s.cipher && r.decrypted == Pack(art)
  {
    s.(decrypted := Pack(art))
  }

  /** What the name `Sounds` is bound to inside src/index.ts: nothing
      (`undefined`), or a table of sound numbers. */
  datatype SoundsBinding = Unbound | Bound(table: map<string, Byte>)

  /** src/index.ts:7 imports the sound table as the module's default
      export, but src/interfaces/SoundType.ts exports it by name only,
      so the default import binds nothing. */
  const DefaultImport: SoundsBinding := Unbound

  /** The import the file evidently means, `import { Sounds }`. */
  const NamedImport: SoundsBinding := Bound(Sounds)

  /** `Sounds[data.sound] || 1` under a given binding: indexing
      `undefined` throws, and a missing or zero entry gives 1. */
  function SoundLookup(sounds: SoundsBinding, sound: Sound): (r: Result<Byte>)
    ensures r.Err? <==> sounds.Unbound?
    ensures r.Err? ==> r.error == TypeError
    ensures sounds == NamedImport ==> r == Ok(SoundByte(sound))
  {
    match sounds
    case Unbound => Err(TypeError)
    case Bound(table) =>
      if sound.Named? && sound.name in table && table[sound.name] != 0
      then Ok(table[sound.name]) else Ok(1)
  }

  /** The `json` setter with the sound byte looked up through `sounds`:
      the lookup happens before the payload is replaced, so when it throws
      the object keeps its old payload and the setter fails. */
  function SetJsonWith(s: State, art: Art, sounds: SoundsBinding): (r: Result<State>)
    ensures r.Err? <==> sounds.Unbound?
    ensures r.Ok? ==> r.value.cipher == s.cipher && |r.value.decrypted| == |Pack(art)|
    ensures r.Ok? ==> r.value.decrypted[..7] == Pack(art)[..7] && r.value.decrypted[8..] == Pack(art)[8..]
    ensures r.Ok? ==> r.value.decrypted[7] == SoundLookup(sounds, art.sound).value
  {
    var b :- SoundLookup(sounds, art.sound);
    Ok(s.(decrypted := Pack(art)[7 := b]))
  }

  /** As written, the setter fails on every document: the sound lookup
      reads a property of the unbound default import. */
  lemma DefaultImportFails(s: State, art: Art)
    ensures SetJsonWith(s, art, DefaultImport) == Err(TypeError)
  {
  }

  /** With the named import the setter is `SetJson`: the payload becomes
      the packed document. */
  lemma NamedImportSetsJson(s: State, art: Art)
    ensures SetJsonWith(s, art, NamedImport) == Ok(SetJson(s, art))
  {
    hide Pack, HeaderBytes, SoundByte, SoundLookup;
    var p := Pack(art);
    assert p[7] == p[..8][7] == SoundByte(art.sound);
    assert p[7 := p[7]] == p;
  }
}
