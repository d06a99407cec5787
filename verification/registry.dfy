/** The registry of named primitive readers, src/helpers/BaseRegistry.ts
    and src/interfaces/RegistryInterface.ts: a registry maps a name to a
    function that reads one value from the cursor. The base registry holds
    the ten integer readers; its four floating-point readers are not part
    of this model. */
module Registry {
  import opened Outcome
  import opened Bytes
  import opened ByteCursor

  /** The JavaScript values the schema interpreter produces: `undefined`,
      numbers (only integers arise here), booleans, and plain objects whose
      keys are listed in insertion order. */
  datatype Value =
    | Undefined
    | Num(n: int)
    | Bool(b: bool)
    | Obj(fields: seq<(string, Value)>)

  /** A primitive integer reader: its width in bytes, its byte order and
      whether it reads two's-complement. */
  datatype IntReader = IntReader(width: Width, le: bool, signed: bool)

  /** A registry entry: one of the integer readers, or any other function
      of the cursor a caller supplies in its own registry. */
  datatype Reader =
    | Int(k: IntReader)
    | Custom(f: Cursor -> Result<(Value, Cursor)>)

  type Registry = map<string, Reader>

  /** What an integer reader returns: the cursor's unsigned or signed read
      of its width and order. */
  function Read(c: Cursor, k: IntReader): (r: Result<(int, Cursor)>)
    ensures r.Ok? <==> c.pos + k.width <= |c.buf|
    ensures r.Err? ==> r.error == OutOfRange
    ensures r.Ok? ==> r.value.1 == c.(pos := c.pos + k.width)
    ensures r.Ok? ==> r.value.0 % Pow256(k.width)
                      == (if k.le then LeValue(c.buf[c.pos..c.pos + k.width])
                          else BeValue(c.buf[c.pos..c.pos + k.width]))
    ensures r.Ok? && k.signed ==> -(Half(k.width) as int) <= r.value.0 < Half(k.width)
    ensures r.Ok? && !k.signed ==> 0 <= r.value.0 < Pow256(k.width)
  {
    if k.signed then ReadInt(c, k.width, k.le)
    else
      var u :- ReadUint(c, k.width, k.le);
      Ok((u.0 as int, u.1))
  }

  /** A registry entry applied to the cursor; integer readers yield numbers. */
  function Apply(e: Reader, c: Cursor): Result<(Value, Cursor)>
  {
    match e
    case Int(k) =>
      var v :- Read(c, k);
      Ok((Num(v.0), v.1))
    case Custom(f) => f(c)
  }

  const U8: IntReader := IntReader(1, false, false)
  const U16: IntReader := IntReader(2, false, false)
  const U32: IntReader := IntReader(4, false, false)
  const U16le: IntReader := IntReader(2, true, false)
  const U32le: IntReader := IntReader(4, true, false)
  const I8: IntReader := IntReader(1, false, true)
  const I16: IntReader := IntReader(2, false, true)
  const I32: IntReader := IntReader(4, false, true)
  const I16le: IntReader := IntReader(2, true, true)
  const I32le: IntReader := IntReader(4, true, true)

  /** The base registry: the names without a suffix read big-endian, the
      `le` names little-endian; `u` is unsigned, `i` two's-complement. */
  const Base: Registry := map[
    "u8" := Int(U8), "u16" := Int(U16), "u32" := Int(U32),
    "u16le" := Int(U16le), "u32le" := Int(U32le),
    "i8" := Int(I8), "i16" := Int(I16), "i32" := Int(I32),
    "i16le" := Int(I16le), "i32le" := Int(I32le)]

  /** A one-byte reader returns the byte at the position, or its
      two's-complement view. */
  lemma ReadOneByte(c: Cursor, k: IntReader)
    requires k.width == 1 && c.pos < |c.buf|
    ensures Read(c, k) == Ok((if k.signed then ToSigned(c.buf[c.pos], 1) else c.buf[c.pos], c.(pos := c.pos + 1)))
  {
    ReadByte(c, k.le);
  }

  /** The number a reader returns, from the bytes it covers. */
  lemma ReadValue(c: Cursor, k: IntReader)
    requires c.pos + k.width <= |c.buf|
    ensures Read(c, k).Ok?
    ensures Read(c, k).value.0
         == (var u := if k.le then LeValue(c.buf[c.pos..c.pos + k.width]) else BeValue(c.buf[c.pos..c.pos + k.width]);
             if k.signed then ToSigned(u, k.width) else u)
  {
  }
}
