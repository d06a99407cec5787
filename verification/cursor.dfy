/** The byte cursor of src/helpers/Cursor.ts: a growable byte buffer with a
    position, a cached byte for bit reads, and 8/16/32-bit integer reads and
    writes in either byte order. The class mutates itself; here every
    operation takes a cursor value and returns the next one. */
module ByteCursor {
  import opened Outcome
  import opened Bytes

  datatype CursorState = CursorState(
    buf: seq<Byte>,      // the whole buffer; its length is the capacity
    pos: nat,           // the read/write position
    bitCounter: nat,    // bits of `bitValue` not yet handed out
    bitValue: Byte)      // the cached byte, shifted right once per bit read

  /** A cursor never stands past the end of its buffer. */
  type Cursor = c: CursorState | c.pos <= |c.buf| && c.bitCounter <= 8
    witness CursorState([], 0, 0, 0)

  /** A cursor over `buf`, at position 0, with no cached bits. */
  function New(buf: seq<Byte>): (c: Cursor)
    ensures c.buf == buf && c.pos == 0 && c.bitCounter == 0
  {
    CursorState(buf, 0, 0, 0)
  }

  /** The capacity of the buffer the constructor allocates when given none. */
  const DefaultCapacity: nat := 64

  /** With no buffer given, 64 zero bytes. */
  function NewDefault(): (c: Cursor)
    ensures |c.buf| == DefaultCapacity && c.pos == 0 && c.bitCounter == 0
    ensures AllZero(c.buf)
  {
    New(seq(DefaultCapacity, _ => 0))
  }

  /** Relative seek: it succeeds exactly when the new position lies in
      [0, capacity]; a failing seek leaves the caller with the old cursor. */
  function Seek(c: Cursor, offset: int): (r: Result<Cursor>)
    ensures r.Ok? <==> 0 <= c.pos + offset <= |c.buf|
    ensures r.Ok? ==> r.value.pos == c.pos + offset
    ensures r.Ok? ==> r.value.buf == c.buf && r.value.bitCounter == c.bitCounter && r.value.bitValue == c.bitValue
  {
    if c.pos + offset > |c.buf| || c.pos + offset < 0 then Err(OutOfRange)
    else Ok(c.(pos := c.pos + offset))
  }

  /** The lowest bit of a byte, as the number `v & 1`. */
  function Bit(v: Byte): (r: nat)
    ensures r < 2
  {
    v % 2
  }

  /** Hands out the lowest cached bit and shifts the cache. */
  function TakeBit(c: Cursor): (r: (nat, Cursor))
    requires c.bitCounter > 0
    ensures r.0 < 2 && r.1.buf == c.buf && r.1.pos == c.pos && r.1.bitCounter == c.bitCounter - 1
  {
    (Bit(c.bitValue), c.(bitCounter := c.bitCounter - 1, bitValue := c.bitValue / 2))
  }

  /** One bit, least significant first. With no cached bits left, the byte
      at the position is loaded (failing at the end of the buffer) and the
      position advances by one; otherwise the position does not move. */
  function ReadBit(c: Cursor): (r: Result<(nat, Cursor)>)
    ensures c.bitCounter == 0 ==> (r.Ok? <==> c.pos < |c.buf|)
    ensures c.bitCounter > 0 ==> r.Ok?
    ensures r.Ok? ==> r.value.0 < 2 && r.value.1.buf == c.buf
    ensures r.Ok? && c.bitCounter == 0 ==>
      r.value.0 == Bit(c.buf[c.pos]) && r.value.1.pos == c.pos + 1
      && r.value.1.bitCounter == 7 && r.value.1.bitValue == c.buf[c.pos] / 2
    ensures r.Ok? && c.bitCounter > 0 ==> r.value.1.pos == c.pos && r.value.1.bitCounter == c.bitCounter - 1
  {
    if c.bitCounter == 0 then
      if c.pos + 1 > |c.buf| then Err(OutOfRange)
      else
        // the byte is loaded, then `seek(1)`, which cannot fail here
        Ok(TakeBit(c.(pos := c.pos + 1, bitCounter := 8, bitValue := c.buf[c.pos])))
    else
      Ok(TakeBit(c))
  }

  /** `n` successive bit reads. */
  function ReadBits(c: Cursor, n: nat): (r: Result<(seq<nat>, Cursor)>)
    ensures r.Ok? ==> |r.value.0| == n
    decreases n
  {
    if n == 0 then Ok(([], c))
    else
      var first :- ReadBit(c);
      var rest :- ReadBits(first.1, n - 1);
      Ok(([first.0] + rest.0, rest.1))
  }

  /** The `n` lowest bits of `v`, least significant first. */
  function LowBits(v: Byte, n: nat): (r: seq<nat>)
    ensures |r| == n
  {
    if n == 0 then [] else [Bit(v)] + LowBits(v / 2, n - 1)
  }

  /** The bit pattern 10101010 is handed out as 0,1,0,1,0,1,0,1. */
  lemma AlternatingBits()
    ensures LowBits(0xAA, 8) == [0, 1, 0, 1, 0, 1, 0, 1]
  {
    assert LowBits(0x01, 1) == [1];
    assert LowBits(0x02, 2) == [0, 1];
    assert LowBits(0x05, 3) == [1, 0, 1];
    assert LowBits(0x0A, 4) == [0, 1, 0, 1];
    assert LowBits(0x15, 5) == [1, 0, 1, 0, 1];
    assert LowBits(0x2A, 6) == [0, 1, 0, 1, 0, 1];
    assert LowBits(0x55, 7) == [1, 0, 1, 0, 1, 0, 1];
  }

  /** Bit reads served from the cache hand out its lowest bits in order. */
  lemma {:induction false} ReadCachedBits(c: Cursor, n: nat)
    requires n <= c.bitCounter
    ensures ReadBits(c, n).Ok?
    ensures ReadBits(c, n).value.0 == LowBits(c.bitValue, n)
    ensures ReadBits(c, n).value.1.pos == c.pos && ReadBits(c, n).value.1.bitCounter == c.bitCounter - n
    decreases n
  {
    if n > 0 {
      assert ReadBit(c) == Ok(TakeBit(c));
      ReadCachedBits(TakeBit(c).1, n - 1);
    }
  }

  /** Eight bit reads from an empty cache hand out the byte at the position
      least significant bit first, advance the position by one and empty the
      cache again, so the ninth read loads the next byte. */
  lemma ReadBitsLsbFirst(c: Cursor)
    requires c.bitCounter == 0 && c.pos < |c.buf|
    ensures ReadBits(c, 8).Ok?
    ensures ReadBits(c, 8).value.0 == LowBits(c.buf[c.pos], 8)
    ensures ReadBits(c, 8).value.1.pos == c.pos + 1 && ReadBits(c, 8).value.1.bitCounter == 0
  {
    var b := c.buf[c.pos];
    var c1 := ReadBit(c).value.1;
    ReadCachedBits(c1, 7);
  }

  /** A `w`-byte unsigned read decodes the bytes [pos, pos + w) in the
      requested order and advances by `w`; it fails when they do not all
      lie inside the buffer. */
  function ReadUint(c: Cursor, w: Width, le: bool): (r: Result<(nat, Cursor)>)
    ensures r.Ok? <==> c.pos + w <= |c.buf|
    ensures r.Ok? ==> r.value.0 < Pow256(w) && r.value.1 == c.(pos := c.pos + w)
    ensures r.Ok? ==> r.value.0 == (if le then LeValue(c.buf[c.pos..c.pos + w]) else BeValue(c.buf[c.pos..c.pos + w]))
  {
    if c.pos + w > |c.buf| then Err(OutOfRange)
    else
      var bytes := c.buf[c.pos..c.pos + w];
      var value := if le then LeValue(bytes) else BeValue(bytes);
      Ok((value, c.(pos := c.pos + w)))
  }

  /** A one-byte read returns the byte at the position. */
  lemma ReadByte(c: Cursor, le: bool)
    requires c.pos < |c.buf|
    ensures ReadUint(c, 1, le) == Ok((c.buf[c.pos], c.(pos := c.pos + 1)))
  {
    assert c.buf[c.pos..c.pos + 1] == [c.buf[c.pos]];
    SingleByteValue(c.buf[c.pos]);
  }

  /** A fresh default cursor has written nothing, and every read that
      fits in its 64 bytes yields 0 in either byte order. */
  lemma DefaultReadsZero(w: Width, le: bool)
    ensures Contents(NewDefault()) == []
    ensures ReadUint(NewDefault(), w, le) == Ok((0, NewDefault().(pos := w)))
  {
    var c := NewDefault();
    assert AllZero(c.buf[..w]);
    ZeroValue(c.buf[..w]);
  }

  /** The bytes before the position: what has been written so far. */
  function Contents(c: Cursor): (r: seq<Byte>)
    ensures |r| == c.pos
  {
    c.buf[..c.pos]
  }

  /** A `w`-byte signed read: the two's-complement view of the same bytes. */
  function ReadInt(c: Cursor, w: Width, le: bool): (r: Result<(int, Cursor)>)
    ensures r.Ok? <==> ReadUint(c, w, le).Ok?
    ensures r.Ok? ==> -(Half(w) as int) <= r.value.0 < Half(w)
    ensures r.Ok? ==> r.value.0 % Pow256(w) == ReadUint(c, w, le).value.0
    ensures r.Ok? ==> r.value.1 == ReadUint(c, w, le).value.1
  {
    var u :- ReadUint(c, w, le);
    Ok((ToSigned(u.0, w), u.1))
  }

  /** Growth before a write: when `adding` bytes do not fit, the capacity
      doubles once, the old bytes are kept and the new ones are zero. */
  function Extend(c: Cursor, adding: nat): (r: Cursor)
    ensures c.pos + adding > |c.buf| ==> |r.buf| == 2 * |c.buf|
    ensures c.pos + adding <= |c.buf| ==> r == c
    ensures r.buf[..|c.buf|] == c.buf
    ensures forall i :: |c.buf| <= i < |r.buf| ==> r.buf[i] == 0
    ensures r.pos == c.pos && r.bitCounter == c.bitCounter && r.bitValue == c.bitValue
  {
    if c.pos + adding > |c.buf| then c.(buf := c.buf + seq(|c.buf|, _ => 0)) else c
  }

  /** The encoding a `w`-byte write stores for `v`: `v` modulo 2^(8w), in
      the requested order. Signed and unsigned writes store the same bytes. */
  function Encoding(v: int, w: Width, le: bool): (r: seq<Byte>)
    ensures |r| == w
  {
    if le then LeBytes(v, w) else BeBytes(v, w)
  }

  /** A `w`-byte write: grow once if needed, then store the encoding at
      [pos, pos + w) and advance by `w`. Because growth only doubles, the
      write fails when even twice the capacity is too small; in particular
      a cursor of capacity 0 can never be written. */
  function Write(c: Cursor, w: Width, le: bool, v: int): (r: Result<Cursor>)
    ensures r.Ok? <==> c.pos + w <= 2 * |c.buf|
    ensures r.Err? ==> r.error == OutOfRange
    ensures r.Ok? ==> r.value.pos == c.pos + w
    ensures r.Ok? ==> |r.value.buf| == (if c.pos + w > |c.buf| then 2 * |c.buf| else |c.buf|)
    ensures r.Ok? ==> r.value.buf[c.pos..c.pos + w] == Encoding(v, w, le)
    ensures r.Ok? ==> r.value.buf[..c.pos] == c.buf[..c.pos]
    ensures r.Ok? ==> r.value.bitCounter == c.bitCounter && r.value.bitValue == c.bitValue
  {
    var e := Extend(c, w);
    if e.pos + w > |e.buf| then Err(OutOfRange)
    else
      var stored := e.buf[..e.pos] + Encoding(v, w, le) + e.buf[e.pos + w..];
      assert stored[e.pos..e.pos + w] == Encoding(v, w, le);
      assert stored[..e.pos] == e.buf[..e.pos];
      Ok(e.(buf := stored, pos := e.pos + w))
  }

  /** Outside the bytes it stores, a write keeps the old bytes and fills
      the grown part of the buffer with zeros. */
  lemma WriteKeepsOtherBytes(c: Cursor, w: Width, le: bool, v: int, i: nat)
    requires Write(c, w, le, v).Ok?
    requires i < |Write(c, w, le, v).value.buf| && !(c.pos <= i < c.pos + w)
    ensures Write(c, w, le, v).value.buf[i] == if i < |c.buf| then c.buf[i] else 0
  {
    var e := Extend(c, w);
    var stored := e.buf[..e.pos] + Encoding(v, w, le) + e.buf[e.pos + w..];
    assert Write(c, w, le, v).value.buf == stored;
    hide Write, Encoding;
    assert e.buf[i] == if i < |c.buf| then c.buf[i] else 0 by {
      if i < |c.buf| {
        assert e.buf[..|c.buf|][i] == e.buf[i];
      }
    }
    if i < c.pos {
      assert stored[i] == e.buf[..e.pos][i];
    } else {
      assert stored[i] == e.buf[e.pos + w..][i - e.pos - w];
    }
  }

  /** Reading back what a write stored: the unsigned read returns `v`
      modulo 2^(8w), the signed read its two's-complement view, and both
      leave the cursor where the write left it. */
  lemma WriteThenRead(c: Cursor, w: Width, le: bool, v: int)
    requires Write(c, w, le, v).Ok?
    ensures Seek(Write(c, w, le, v).value, -(w as int)).Ok?
    ensures ReadUint(Seek(Write(c, w, le, v).value, -(w as int)).value, w, le)
         == Ok((v % Pow256(w), Write(c, w, le, v).value))
    ensures ReadInt(Seek(Write(c, w, le, v).value, -(w as int)).value, w, le)
         == Ok((ToSigned(v % Pow256(w), w), Write(c, w, le, v).value))
  {
    hide Write, Seek, ReadUint, LeValue, BeValue, LeBytes, BeBytes;
    var c1 := Write(c, w, le, v).value;
    var c2 := Seek(c1, -(w as int)).value;
    var bytes := c2.buf[c2.pos..c2.pos + w];
    assert bytes == Encoding(v, w, le);
    var value := if le then LeValue(bytes) else BeValue(bytes);
    assert value == v % Pow256(w) by {
      if le {
        LeRoundTrip(v, w);
      } else {
        BeRoundTrip(v, w);
      }
    }
    assert c2.(pos := c2.pos + w) == c1;
    assert ReadUint(c2, w, le) == Ok((value, c1));
  }

  /** A value inside the signed range of its width survives a signed
      write-then-read unchanged. */
  lemma SignedRoundTrip(v: int, w: Width)
    requires -(Half(w) as int) <= v < Half(w)
    ensures ToSigned(v % Pow256(w), w) == v
  {
    var p := Pow256(w);
    DivModUnique(p, 2, 128 * Pow256(w - 1), 0);
    if v >= 0 {
      DivModUnique(v, p, 0, v);
    } else {
      DivModUnique(v, p, -1, v + p);
    }
  }

  /** Successive single-byte writes, as a loop over `writeUint8` does. */
  function WriteBytes(c: Cursor, bs: seq<Byte>): (r: Result<Cursor>)
    decreases |bs|
  {
    if bs == [] then Ok(c)
    else
      var c1 :- Write(c, 1, false, bs[0]);
      WriteBytes(c1, bs[1..])
  }

  /** On a cursor of non-zero capacity, single-byte writes never fail: the
      bytes land at the old position in order, the position advances by
      their number, earlier bytes are kept and the capacity only grows. */
  lemma {:induction false} WriteBytesSucceed(c: Cursor, bs: seq<Byte>)
    requires |c.buf| > 0
    ensures WriteBytes(c, bs).Ok?
    ensures WriteBytes(c, bs).value.pos == c.pos + |bs|
    ensures WriteBytes(c, bs).value.buf[..c.pos + |bs|] == c.buf[..c.pos] + bs
    ensures |WriteBytes(c, bs).value.buf| >= |c.buf|
    decreases |bs|
  {
    if bs == [] {
      assert c.buf[..c.pos] + bs == c.buf[..c.pos];
    } else {
      var c1 := WriteBytesStep(c, bs);
      WriteBytesSucceed(c1, bs[1..]);
      PrefixStep(c.buf[..c.pos], bs);
    }
  }

  /** The first write of a non-empty byte sequence, on a cursor of
      non-zero capacity. */
  lemma WriteBytesStep(c: Cursor, bs: seq<Byte>) returns (c1: Cursor)
    requires |c.buf| > 0 && bs != []
    ensures WriteBytes(c, bs) == WriteBytes(c1, bs[1..])
    ensures c1.pos == c.pos + 1 && |c1.buf| >= |c.buf|
    ensures c1.buf[..c1.pos] == c.buf[..c.pos] + [bs[0]]
  {
    WriteByte(c, bs[0]);
    c1 := Write(c, 1, false, bs[0]).value;
  }

  lemma PrefixStep(a: seq<Byte>, bs: seq<Byte>)
    requires bs != []
    ensures (a + [bs[0]]) + bs[1..] == a + bs
  {
    assert bs == [bs[0]] + bs[1..];
  }

  /** A one-byte write on a cursor of non-zero capacity never fails and
      appends the byte to the contents, never shrinking the buffer. */
  lemma WriteByte(c: Cursor, b: Byte)
    requires |c.buf| > 0
    ensures Write(c, 1, false, b).Ok?
    ensures Write(c, 1, false, b).value.pos == c.pos + 1
    ensures Write(c, 1, false, b).value.buf[..c.pos + 1] == c.buf[..c.pos] + [b]
    ensures Contents(Write(c, 1, false, b).value) == Contents(c) + [b]
    ensures |Write(c, 1, false, b).value.buf| >= |c.buf|
  {
    var c1 := Write(c, 1, false, b).value;
    assert Encoding(b, 1, false) == [b] by {
      SingleByteBytes(b);
    }
    assert c1.buf[c.pos] == c1.buf[c.pos..c.pos + 1][0];
    PrefixExtend(c1.buf, c.pos);
  }

  lemma PrefixExtend<T>(s: seq<T>, i: nat)
    requires i < |s|
    ensures s[..i + 1] == s[..i] + [s[i]]
  {
  }

  /** Ten single-byte writes into a one-byte cursor end at position 10 in a
      buffer that has grown past its original capacity. */
  lemma TenWritesIntoOneByte()
    ensures WriteBytes(New([0]), [0, 1, 2, 3, 4, 5, 6, 7, 8, 9]).Ok?
    ensures WriteBytes(New([0]), [0, 1, 2, 3, 4, 5, 6, 7, 8, 9]).value.pos == 10
    ensures |WriteBytes(New([0]), [0, 1, 2, 3, 4, 5, 6, 7, 8, 9]).value.buf| > 1
  {
    hide WriteBytes, Write;
    WriteBytesSucceed(New([0]), [0, 1, 2, 3, 4, 5, 6, 7, 8, 9]);
  }
}
