/** The symbol-art document the codec decodes to and encodes from:
    src/interfaces/SymbolArtInterface.ts, src/interfaces/LayerInterface.ts
    and the sound names of src/interfaces/SoundType.ts. Numbers are
    integers; the name is a sequence of UTF-16 code units. */
module Document {
  import opened Bytes

  /** A corner of a layer's quad. */
  datatype Point = Point(x: int, y: int)

  /** The four corners, in the order the file stores them. */
  datatype Corners = Corners(topLeft: Point, bottomLeft: Point, topRight: Point, bottomRight: Point)

  /** One layer: the symbol drawn, whether it is shown, where, its colour
      (red, green, blue, alpha) and the three further colour components
      x, y and z. */
  datatype Layer = Layer(
    symbol: int,
    visible: bool,
    position: Corners,
    a: int, r: int, g: int, b: int,
    x: int, y: int, z: int)

  /** The sound effect: the decoder yields the stored number; the encoder
      expects one of the names. */
  datatype Sound = Numeric(n: int) | Named(name: string)

  /** A UTF-16 code unit, what `charCodeAt` returns. */
  type CodeUnit = u: int | 0 <= u < 0x1_0000

  /** A symbol art. The interface also declares a `layerCount` field, but
      the decoder never sets it and the encoder counts the layers instead,
      so it is not part of the document here. */
  datatype Art = Art(
    authorId: int,
    name: seq<CodeUnit>,
    sound: Sound,
    height: int,
    width: int,
    layers: seq<Layer>)

  /** The sound names and the numbers the file stores for them. */
  const Sounds: map<string, Byte> := map[
    "None" := 1, "Normal" := 2, "Joy" := 3, "Anger" := 4, "Sorrow" := 5,
    "Anxiety" := 6, "Surprised" := 7, "Doubt" := 8, "Whistle" := 9,
    "Shy" := 10, "Success" := 11]

  predicate IsByte(v: int) {
    0 <= v < 256
  }

  /** A corner whose coordinates fit in the byte each one is stored in. */
  predicate PointInRange(p: Point) {
    IsByte(p.x) && IsByte(p.y)
  }

  /** A layer each of whose fields fits the bits the file gives it: 8 per
      coordinate, 10 for the symbol, 3 for alpha, 6 for every other
      colour component. */
  predicate LayerInRange(l: Layer) {
    PointInRange(l.position.topLeft) && PointInRange(l.position.bottomLeft)
    && PointInRange(l.position.topRight) && PointInRange(l.position.bottomRight)
    && 0 <= l.symbol < 1024 && 0 <= l.a < 8
    && 0 <= l.r < 64 && 0 <= l.g < 64 && 0 <= l.b < 64
    && 0 <= l.x < 64 && 0 <= l.y < 64 && 0 <= l.z < 64
  }

  /** A document the file format holds without loss: a 32-bit unsigned
      author, byte-sized height, width and layer count, and layers in
      range. */
  predicate ArtInRange(art: Art) {
    0 <= art.authorId < 0x1_0000_0000 && IsByte(art.height) && IsByte(art.width)
    && |art.layers| < 256
    && forall i :: 0 <= i < |art.layers| ==> LayerInRange(art.layers[i])
  }
}
