/** The older twin of the byte cursor, src/BinaryUtility.ts: the same four
    pieces of state (buffer, position, bit counter, cached value) behind
    property-style accessors. Its operations are defined here on their own
    and then shown to agree with the cursor's, so every cursor property
    carries over. */
module BinaryUtility {
  import opened Outcome
  import opened Bytes
  import ByteCursor

  /** Buffer, position, counter and cached value, as in the cursor. */
  type Utility = ByteCursor.Cursor

  /** The integer accessors the class offers, each a getter and a setter.
      There is no 16-bit signed pair and no little-endian 8-bit pair. */
  datatype Accessor = Int8 | Uint8 | Uint16 | Uint16L | Int32 | Int32L | Uint32 | Uint32L
  {
    function Size(): Width {
      match this
      case Int8 | Uint8 => 1
      case Uint16 | Uint16L => 2
      case Int32 | Int32L | Uint32 | Uint32L => 4
    }

    predicate LittleEndian() {
      this == Uint16L || this == Int32L || this == Uint32L
    }

    predicate Signed() {
      this == Int8 || this == Int32 || this == Int32L
    }
  }

  /** `getBuffer`: the bytes before the position. */
  function GetBuffer(u: Utility): (r: seq<Byte>)
    ensures |r| == u.pos && r <= u.buf
  {
    u.buf[..u.pos]
  }

  /** `length`: the byte length of the underlying view, i.e. the capacity. */
  function Length(u: Utility): (r: nat)
    ensures |GetBuffer(u)| <= r && GetBuffer(u) == u.buf[..u.pos] && r == |u.buf|
  {
    |u.buf|
  }

  /** The `offset` setter: a relative move that must stay in [0, capacity]. */
  function SetOffset(u: Utility, v: int): (r: Result<Utility>)
    ensures r.Ok? <==> 0 <= u.pos + v <= |u.buf|
    ensures r.Ok? ==> r.value == u.(pos := u.pos + v)
    ensures r.Err? ==> r.error == OutOfRange
  {
    if u.pos + v > |u.buf| || u.pos + v < 0 then Err(OutOfRange)
    else Ok(u.(pos := u.pos + v))
  }

  /** Hands out the low bit of the cached value as a boolean and shifts. */
  function Shift(u: Utility): (r: (bool, Utility))
    requires u.bitCounter > 0
  {
    (u.bitValue % 2 != 0, u.(bitCounter := u.bitCounter - 1, bitValue := u.bitValue / 2))
  }

  /** The `bit` getter: with the counter at zero, the byte at the position
      is loaded (a read past the end throws) and the position moves by one. */
  function GetBit(u: Utility): (r: Result<(bool, Utility)>)
    ensures r.Ok? <==> u.bitCounter > 0 || u.pos < |u.buf|
    ensures r.Ok? ==> r.value.1.buf == u.buf
    ensures r.Ok? && u.bitCounter == 0 ==>
      (r.value.0 <==> u.buf[u.pos] % 2 == 1) && r.value.1.pos == u.pos + 1 && r.value.1.bitCounter == 7
    ensures r.Ok? && u.bitCounter > 0 ==>
      (r.value.0 <==> u.bitValue % 2 == 1) && r.value.1.pos == u.pos && r.value.1.bitCounter == u.bitCounter - 1
  {
    if u.bitCounter == 0 then
      if u.pos >= |u.buf| then Err(OutOfRange)
      else
        // `offset = 1` cannot fail once the byte at the position exists
        var moved := SetOffset(u.(bitValue := u.buf[u.pos]), 1).value;
        Ok(Shift(moved.(bitCounter := 8)))
    else
      Ok(Shift(u))
  }

  /** An integer getter: the bytes [position, position + size) in the
      accessor's order, two's-complement for the signed ones; a read past
      the end throws before the position moves. */
  function Get(u: Utility, a: Accessor): (r: Result<(int, Utility)>)
    ensures r.Ok? <==> u.pos + a.Size() <= |u.buf|
    ensures r.Ok? ==> r.value.1 == u.(pos := u.pos + a.Size())
    ensures r.Ok? && a.Signed() ==> -(Half(a.Size()) as int) <= r.value.0 < Half(a.Size())
    ensures r.Ok? && !a.Signed() ==> 0 <= r.value.0 < Pow256(a.Size())
  {
    var w := a.Size();
    if u.pos + w > |u.buf| then Err(OutOfRange)
    else
      var bytes := u.buf[u.pos..u.pos + w];
      var unsigned := if a.LittleEndian() then LeValue(bytes) else BeValue(bytes);
      var v := if a.Signed() then ToSigned(unsigned, w) else unsigned;
      Ok((v, SetOffset(u, w).value))
  }

  /** `addPadding`: when `adding` bytes do not fit, a buffer of twice the
      length replaces the old one, holding the old bytes then zeros. */
  function AddPadding(u: Utility, adding: nat): (r: Utility)
    ensures u.pos + adding > |u.buf| ==> |r.buf| == 2 * |u.buf|
    ensures u.pos + adding <= |u.buf| ==> r == u
    ensures r.buf[..|u.buf|] == u.buf
    ensures r.pos == u.pos && r.bitCounter == u.bitCounter && r.bitValue == u.bitValue
  {
    if u.pos + adding > |u.buf| then
      u.(buf := seq(2 * |u.buf|, i requires 0 <= i < 2 * |u.buf| => if i < |u.buf| then u.buf[i] else 0))
    else u
  }

  /** An integer setter: pad, store the value modulo 2^(8 * size) in the
      accessor's order, then move past it. */
  function Set(u: Utility, a: Accessor, v: int): (r: Result<Utility>)
    ensures r.Ok? <==> u.pos + a.Size() <= 2 * |u.buf|
    ensures r.Ok? ==> r.value.pos == u.pos + a.Size()
    ensures r.Ok? ==> r.value.buf[u.pos..u.pos + a.Size()] == ByteCursor.Encoding(v, a.Size(), a.LittleEndian())
    ensures r.Ok? ==> r.value.buf[..u.pos] == u.buf[..u.pos]
  {
    var w := a.Size();
    var p := AddPadding(u, w);
    if p.pos + w > |p.buf| then Err(OutOfRange)
    else
      var e := ByteCursor.Encoding(v, w, a.LittleEndian());
      var stored := p.buf[..p.pos] + e + p.buf[p.pos + w..];
      assert stored[p.pos..p.pos + w] == e;
      assert stored[..p.pos] == p.buf[..p.pos];
      Ok(SetOffset(p.(buf := stored), w).value)
  }

  /** The `offset` setter is the cursor's relative seek. */
  lemma SetOffsetIsSeek(u: Utility, v: int)
    ensures SetOffset(u, v) == ByteCursor.Seek(u, v)
  {
  }

  /** `addPadding` grows exactly as the cursor's `extendIfNeeded`. */
  lemma AddPaddingIsExtend(u: Utility, adding: nat)
    ensures AddPadding(u, adding) == ByteCursor.Extend(u, adding)
  {
    var a := AddPadding(u, adding);
    var e := ByteCursor.Extend(u, adding);
    if u.pos + adding > |u.buf| {
      assert a.buf == e.buf by {
        forall i | 0 <= i < |a.buf|
          ensures a.buf[i] == e.buf[i]
        {
          if i < |u.buf| {
            assert e.buf[i] == e.buf[..|u.buf|][i];
          }
        }
      }
    }
  }

  /** The `bit` getter hands out the same bits as the cursor's `readBit`,
      as booleans, and leaves the same state behind. */
  lemma GetBitIsReadBit(u: Utility)
    ensures GetBit(u).Ok? <==> ByteCursor.ReadBit(u).Ok?
    ensures GetBit(u).Ok? ==>
      (GetBit(u).value.0 <==> ByteCursor.ReadBit(u).value.0 == 1)
      && GetBit(u).value.1 == ByteCursor.ReadBit(u).value.1
  {
  }

  /** Each getter reads what the cursor's read of the same width, order and
      signedness reads, and moves the position identically. */
  lemma GetIsRead(u: Utility, a: Accessor)
    ensures Get(u, a).Ok? <==> ByteCursor.ReadUint(u, a.Size(), a.LittleEndian()).Ok?
    ensures Get(u, a).Ok? && a.Signed() ==>
      Get(u, a).value == ByteCursor.ReadInt(u, a.Size(), a.LittleEndian()).value
    ensures Get(u, a).Ok? && !a.Signed() ==>
      Get(u, a).value.0 == ByteCursor.ReadUint(u, a.Size(), a.LittleEndian()).value.0
      && Get(u, a).value.1 == ByteCursor.ReadUint(u, a.Size(), a.LittleEndian()).value.1
  {
  }

  /** Each setter stores what the cursor's write of the same width and
      order stores. */
  lemma SetIsWrite(u: Utility, a: Accessor, v: int)
    ensures Set(u, a, v) == ByteCursor.Write(u, a.Size(), a.LittleEndian(), v)
  {
    AddPaddingIsExtend(u, a.Size());
  }

  /** A setter followed by `offset = -size` and the getter of the same
      accessor returns the value modulo 2^(8 * size), two's-complement for
      the signed accessors, and ends where the setter ended. */
  lemma SetThenGet(u: Utility, a: Accessor, v: int)
    requires Set(u, a, v).Ok?
    ensures SetOffset(Set(u, a, v).value, -(a.Size() as int)).Ok?
    ensures Get(SetOffset(Set(u, a, v).value, -(a.Size() as int)).value, a)
         == Ok((if a.Signed() then ToSigned(v % Pow256(a.Size()), a.Size()) else v % Pow256(a.Size()),
                Set(u, a, v).value))
  {
    var w := a.Size();
    var le := a.LittleEndian();
    SetIsWrite(u, a, v);
    ByteCursor.WriteThenRead(u, w, le, v);
    var back := SetOffset(Set(u, a, v).value, -(w as int)).value;
    GetIsRead(back, a);
  }

  /** A signed setter and getter of the same accessor round-trip every
      value in the accessor's signed range; an unsigned pair every value in
      its unsigned range. */
  lemma SetThenGetInRange(u: Utility, a: Accessor, v: int)
    requires Set(u, a, v).Ok?
    requires if a.Signed() then -(Half(a.Size()) as int) <= v < Half(a.Size()) else 0 <= v < Pow256(a.Size())
    ensures SetOffset(Set(u, a, v).value, -(a.Size() as int)).Ok?
    ensures Get(SetOffset(Set(u, a, v).value, -(a.Size() as int)).value, a) == Ok((v, Set(u, a, v).value))
  {
    var w := a.Size();
    SetThenGet(u, a, v);
    if a.Signed() {
      ByteCursor.SignedRoundTrip(v, w);
    } else {
      DivModUnique(v, Pow256(w), 0, v);
    }
  }

  /** One byte written through `uint8` on a buffer of non-zero length. */
  lemma SetByte(u: Utility, b: Byte)
    requires |u.buf| > 0
    ensures Set(u, Uint8, b).Ok?
    ensures GetBuffer(Set(u, Uint8, b).value) == GetBuffer(u) + [b]
    ensures Length(Set(u, Uint8, b).value) == if u.pos + 1 > |u.buf| then 2 * |u.buf| else |u.buf|
  {
    SetIsWrite(u, Uint8, b);
    ByteCursor.WriteByte(u, b);
  }

  /** `length` is the capacity, not the position: three one-byte writes into
      a one-byte buffer leave the position at 3 and the length at 4. */
  lemma LengthIsCapacity()
    ensures Set(ByteCursor.New([0]), Uint8, 7).Ok?
    ensures Set(Set(ByteCursor.New([0]), Uint8, 7).value, Uint8, 8).Ok?
    ensures Set(Set(Set(ByteCursor.New([0]), Uint8, 7).value, Uint8, 8).value, Uint8, 9).Ok?
    ensures Length(Set(Set(Set(ByteCursor.New([0]), Uint8, 7).value, Uint8, 8).value, Uint8, 9).value) == 4
    ensures GetBuffer(Set(Set(Set(ByteCursor.New([0]), Uint8, 7).value, Uint8, 8).value, Uint8, 9).value) == [7, 8, 9]
  {
    hide Set, AddPadding, ByteCursor.Encoding, SetOffset;
    var u0 := ByteCursor.New([0]);
    SetByte(u0, 7);
    var u1 := Set(u0, Uint8, 7).value;
    assert GetBuffer(u1) == [7] && |u1.buf| == 1 && u1.pos == 1;
    SetByte(u1, 8);
    var u2 := Set(u1, Uint8, 8).value;
    assert GetBuffer(u2) == [7, 8] && |u2.buf| == 2 && u2.pos == 2;
    SetByte(u2, 9);
  }
}
