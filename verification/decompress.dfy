/** The PRS decompressor of src/helpers/Decompress.ts. A control bit stream
    (read least significant bit first, one byte at a time) is interleaved
    with data bytes: bit 1 is a literal byte; bits 0 1 are a long copy (or
    the end marker); bits 0 0 are a short copy. Output goes to a growing
    write cursor, and a copy re-reads bytes already written, one at a time,
    so a copy may overlap the bytes it produces. */
module Prs {
  import opened Outcome
  import opened Bytes
  import opened ByteCursor

  /** Input still to be read, in bits: every command reads at least one. */
  function Remaining(c: Cursor): nat {
    8 * (|c.buf| - c.pos) + c.bitCounter
  }

  datatype Command =
    | Literal(b: Byte)
    | Copy(offset: int, size: nat)   // offset is negative: a distance back
    | End

  /** The largest distance a long copy can reach back. */
  const LongReach: int := 0x2000

  /** Decodes one command. A long copy holds a little-endian 16-bit word
      `f`: zero ends the stream; otherwise the distance is `f >> 3` with
      every higher bit set (`| -0x2000`), and the size is `(f & 7) + 2`, or,
      when `f & 7` is zero, the next byte plus 10. A short copy holds two
      bits `a`, `b` (size `2a + b + 2`) and a signed byte whose value with
      every bit above the low 8 set (`| -0x100`) is the distance. */
  function ReadCommand(c: Cursor): (r: Result<(Command, Cursor)>)
    ensures r.Ok? ==> r.value.1.buf == c.buf && Remaining(r.value.1) < Remaining(c)
    ensures r.Ok? && r.value.0.Copy? ==>
      -LongReach <= r.value.0.offset <= -1 && 2 <= r.value.0.size <= 265
    ensures r.Err? ==> r.error == OutOfRange
    ensures ReadBit(c).Err? ==> r.Err?
    ensures ReadBit(c).Ok? && ReadBit(c).value.0 == 1 ==>
      var f := ReadBit(c).value.1;
      (r.Ok? <==> f.pos < |c.buf|)
      && (r.Ok? ==> r.value == (Literal(c.buf[f.pos]), f.(pos := f.pos + 1)))
    ensures ReadBit(c).Ok? && ReadBit(c).value.0 == 0 ==>
      var f := ReadBit(c).value.1;
      r == if ReadBit(f).Err? then Err(OutOfRange)
           else if ReadBit(f).value.0 == 1 then LongCopy(ReadBit(f).value.1)
           else ShortCopy(ReadBit(f).value.1)
  {
    var flag :- ReadBit(c);
    if flag.0 == 1 then
      var lit :- ReadUint(flag.1, 1, false);
      ReadByte(flag.1, false);
      Ok((Literal(lit.0), lit.1))
    else
      var long :- ReadBit(flag.1);
      if long.0 == 1 then LongCopy(long.1) else ShortCopy(long.1)
  }

  /** The rest of a long copy (or of the end marker), after its two flag
      bits. */
  function LongCopy(c: Cursor): (r: Result<(Command, Cursor)>)
    ensures r.Ok? ==> r.value.1.buf == c.buf && Remaining(r.value.1) < Remaining(c)
    ensures r.Ok? && r.value.0.Copy? ==>
      -LongReach <= r.value.0.offset <= -1 && 2 <= r.value.0.size <= 265
    ensures r.Err? ==> r.error == OutOfRange
    ensures r.Ok? <==> (c.pos + 2 <= |c.buf|
      && (Le16At(c.buf, c.pos) != 0 && Le16At(c.buf, c.pos) % 8 == 0 ==> c.pos + 3 <= |c.buf|))
    ensures r.Ok? ==> (r.value.0.End? <==> Le16At(c.buf, c.pos) == 0) && !r.value.0.Literal?
    ensures r.Ok? && r.value.0.End? ==> r.value.1 == c.(pos := c.pos + 2)
    ensures r.Ok? && r.value.0.Copy? ==>
      r.value.0.offset == Le16At(c.buf, c.pos) / 8 - LongReach
      && (Le16At(c.buf, c.pos) % 8 == 0 ==>
            r.value.0.size == c.buf[c.pos + 2] as int + 10 && r.value.1 == c.(pos := c.pos + 3))
      && (Le16At(c.buf, c.pos) % 8 != 0 ==>
            r.value.0.size == Le16At(c.buf, c.pos) % 8 + 2 && r.value.1 == c.(pos := c.pos + 2))
  {
    var f :- ReadUint(c, 2, true);
    Le16AtValue(c.buf, c.pos);
    if f.0 == 0 then Ok((End, f.1))
    else
      // f >> 3 is below 0x2000, so OR-ing in -0x2000 subtracts 0x2000
      var offset := f.0 / 8 - LongReach;
      if f.0 % 8 == 0 then
        var n :- ReadUint(f.1, 1, false);
        ReadByte(f.1, false);
        Ok((Copy(offset, n.0 + 10), n.1))
      else
        Ok((Copy(offset, f.0 % 8 + 2), f.1))
  }

  /** The rest of a short copy, after its two flag bits. */
  function ShortCopy(c: Cursor): (r: Result<(Command, Cursor)>)
    ensures r.Ok? ==> r.value.1.buf == c.buf && Remaining(r.value.1) < Remaining(c)
    ensures r.Ok? ==> r.value.0.Copy? && -0x100 <= r.value.0.offset <= -1 && 2 <= r.value.0.size <= 5
    ensures r.Err? ==> r.error == OutOfRange
    ensures r.Ok? <==> (ReadBit(c).Ok? && ReadBit(ReadBit(c).value.1).Ok?
      && ReadBit(ReadBit(c).value.1).value.1.pos < |c.buf|)
    ensures r.Ok? ==>
      var a := ReadBit(c).value;
      var b := ReadBit(a.1).value;
      r.value.0.size == 2 * a.0 + b.0 + 2 && r.value.0.offset == c.buf[b.1.pos] as int - 0x100
      && r.value.1 == b.1.(pos := b.1.pos + 1)
  {
    var a :- ReadBit(c);
    var b :- ReadBit(a.1);
    // the two bits do not overlap, so `b | (a << 1)` is `2a + b`
    var size := 2 * a.0 + b.0 + 2;
    var s :- ReadInt(b.1, 1, false);
    ReadByte(b.1, false);
    // a negative byte already has every higher bit set; a non-negative
    // one loses 0x100
    var offset := if s.0 < 0 then s.0 else s.0 - 0x100;
    Ok((Copy(offset, size), s.1))
  }

  /** One step of a copy, as the loop body does it: refuse a positive
      offset, seek back by the distance, read a byte, seek forward to where
      the writing stopped and write the byte there. In effect: write the
      byte found `-offset` places back. */
  function CopyByte(c: Cursor, offset: int): (r: Result<Cursor>)
    ensures offset > 0 ==> r == Err(PositiveOffset(offset))
    ensures offset <= 0 ==> (r.Ok? <==> 0 <= c.pos + offset < |c.buf| && c.pos + 1 <= 2 * |c.buf|)
    ensures offset <= 0 && r.Err? ==> r.error == OutOfRange
    ensures r.Ok? ==> r == Write(c, 1, false, c.buf[c.pos + offset])
  {
    if offset > 0 then Err(PositiveOffset(offset))
    else
      var at :- Seek(c, offset);
      var read :- ReadUint(at, 1, false);
      ReadByte(at, false);
      // seek(-1) then seek(-offset) return to the write position and
      // cannot fail
      var back := Seek(Seek(read.1, -1).value, -offset).value;
      assert back == c;
      Write(back, 1, false, read.0)
  }

  /** The copy loop: `size` single-byte copies at the same offset. */
  function CopyBytes(c: Cursor, offset: int, size: nat): (r: Result<Cursor>)
    ensures offset <= 0 && r.Err? ==> r.error == OutOfRange
    decreases size
  {
    if size == 0 then Ok(c)
    else
      var c1 :- CopyByte(c, offset);
      CopyBytes(c1, offset, size - 1)
  }

  /** Reference semantics of a copy on the output itself: append `n`
      bytes, each equal to the byte `d` places before it. The source and
      the bytes being produced may overlap. */
  function CopyRef(out: seq<Byte>, d: nat, n: nat): (r: seq<Byte>)
    requires 0 < d <= |out|
    ensures |r| == |out| + n && r[..|out|] == out
    decreases n
  {
    if n == 0 then out
    else
      var next := out + [out[|out| - d]];
      var r := CopyRef(next, d, n - 1);
      assert r[..|out|] == r[..|next|][..|out|];
      r
  }

  /** Every byte a copy appends equals the byte `d` places before it. */
  lemma {:induction false} CopyRefRepeats(out: seq<Byte>, d: nat, n: nat, k: nat)
    requires 0 < d <= |out| && |out| <= k < |out| + n
    ensures CopyRef(out, d, n)[k] == CopyRef(out, d, n)[k - d]
    decreases n
  {
    var next := out + [out[|out| - d]];
    var r := CopyRef(out, d, n);
    assert r == CopyRef(next, d, n - 1);
    if k == |out| {
      assert r[k] == r[..|next|][k] == next[k];
      assert r[k - d] == r[..|out|][k - d];
    } else {
      CopyRefRepeats(next, d, n - 1, k);
    }
  }

  /** Copying through the write cursor does what the reference copy does
      to the bytes written so far, and fails exactly when the distance
      reaches back before the first byte. */
  lemma {:induction false} CopyBytesMatchesRef(c: Cursor, offset: int, size: nat)
    requires offset < 0 && |c.buf| > 0
    ensures CopyBytes(c, offset, size).Ok? <==> size == 0 || c.pos + offset >= 0
    ensures CopyBytes(c, offset, size).Err? ==> CopyBytes(c, offset, size).error == OutOfRange
    ensures CopyBytes(c, offset, size).Ok? && size > 0 ==>
      Contents(CopyBytes(c, offset, size).value) == CopyRef(Contents(c), -offset, size)
    ensures CopyBytes(c, offset, size).Ok? ==> |CopyBytes(c, offset, size).value.buf| > 0
    decreases size
  {
    if size > 0 {
      if c.pos + offset < 0 {
        CopyFirstByteFails(c, offset, size);
      } else {
        var c1 := CopyFirstByte(c, offset, size);
        CopyBytesMatchesRef(c1, offset, size - 1);
      }
    }
  }

  /** A copy reaching before the first byte fails on its first byte. */
  lemma CopyFirstByteFails(c: Cursor, offset: int, size: nat)
    requires offset < 0 && size > 0 && c.pos + offset < 0
    ensures CopyBytes(c, offset, size) == Err(OutOfRange)
  {
    assert CopyByte(c, offset) == Err(OutOfRange);
  }

  /** The first byte of a copy that stays inside the output appends the
      byte `-offset` places back, as the reference copy does first. */
  lemma CopyFirstByte(c: Cursor, offset: int, size: nat) returns (c1: Cursor)
    requires offset < 0 && size > 0 && c.pos + offset >= 0 && |c.buf| > 0
    ensures CopyBytes(c, offset, size) == CopyBytes(c1, offset, size - 1)
    ensures c1.pos == c.pos + 1 && |c1.buf| > 0
    ensures size > 1 ==> CopyRef(Contents(c), -offset, size) == CopyRef(Contents(c1), -offset, size - 1)
    ensures size == 1 ==> CopyRef(Contents(c), -offset, size) == Contents(c1)
  {
    var b := c.buf[c.pos + offset];
    WriteByte(c, b);
    c1 := CopyByte(c, offset).value;
    var out := Contents(c);
    assert b == out[|out| - -offset];
  }

  /** The decompressor's main loop: decode commands until the end marker,
      writing literals and copies to the write cursor. */
  function Run(rc: Cursor, wc: Cursor): (r: Result<Cursor>)
    ensures r.Err? ==> r.error == OutOfRange
    decreases Remaining(rc)
  {
    var step :- ReadCommand(rc);
    match step.0
    case End => Ok(wc)
    case Literal(b) =>
      var w :- Write(wc, 1, false, b);
      Run(step.1, w)
    case Copy(offset, size) =>
      var w :- CopyBytes(wc, offset, size);
      Run(step.1, w)
  }

  /** Reference decoder over the output bytes themselves, with no write
      cursor: literals are appended, copies follow `CopyRef`, and a copy
      reaching before the first byte is an error. */
  function Decode(rc: Cursor, out: seq<Byte>): (r: Result<seq<Byte>>)
    ensures r.Ok? ==> out <= r.value
    ensures r.Err? ==> r.error == OutOfRange
    decreases Remaining(rc)
  {
    var step :- ReadCommand(rc);
    match step.0
    case End => Ok(out)
    case Literal(b) => Decode(step.1, out + [b])
    case Copy(offset, size) =>
      if |out| + offset < 0 then Err(OutOfRange)
      else Decode(step.1, CopyRef(out, -offset, size))
  }

  /** The cursor-based loop and the reference decoder agree on every
      input, success and failure alike, as long as the write cursor has
      room to grow. */
  lemma {:induction false} RunMatchesDecode(rc: Cursor, wc: Cursor)
    requires |wc.buf| > 0
    ensures Run(rc, wc).Ok? <==> Decode(rc, Contents(wc)).Ok?
    ensures Run(rc, wc).Ok? ==> Contents(Run(rc, wc).value) == Decode(rc, Contents(wc)).value
    decreases Remaining(rc)
  {
    var cmd := ReadCommand(rc);
    if cmd.Ok? {
      var step := cmd.value;
      match step.0
      case End =>
      case Literal(b) =>
        LiteralStep(rc, wc, b);
        RunMatchesDecode(step.1, Write(wc, 1, false, b).value);
      case Copy(offset, size) =>
        CopyStepRun(rc, wc, offset, size);
        CopyStepDecode(rc, Contents(wc), offset, size);
        CopyBytesMatchesRef(wc, offset, size);
        if wc.pos + offset >= 0 {
          RunMatchesDecode(step.1, CopyBytes(wc, offset, size).value);
        }
    }
  }

  lemma LiteralStep(rc: Cursor, wc: Cursor, b: Byte)
    requires |wc.buf| > 0
    requires ReadCommand(rc).Ok? && ReadCommand(rc).value.0 == Literal(b)
    ensures Write(wc, 1, false, b).Ok?
    ensures Run(rc, wc) == Run(ReadCommand(rc).value.1, Write(wc, 1, false, b).value)
    ensures Decode(rc, Contents(wc)) == Decode(ReadCommand(rc).value.1, Contents(wc) + [b])
    ensures Contents(Write(wc, 1, false, b).value) == Contents(wc) + [b]
    ensures |Write(wc, 1, false, b).value.buf| > 0
  {
    WriteByte(wc, b);
  }

  lemma CopyStepRun(rc: Cursor, wc: Cursor, offset: int, size: nat)
    requires |wc.buf| > 0
    requires ReadCommand(rc).Ok? && ReadCommand(rc).value.0 == Copy(offset, size)
    ensures wc.pos + offset < 0 ==> Run(rc, wc).Err?
    ensures wc.pos + offset >= 0 ==>
      CopyBytes(wc, offset, size).Ok?
      && Run(rc, wc) == Run(ReadCommand(rc).value.1, CopyBytes(wc, offset, size).value)
  {
    CopyBytesMatchesRef(wc, offset, size);
  }

  lemma CopyStepDecode(rc: Cursor, out: seq<Byte>, offset: int, size: nat)
    requires ReadCommand(rc).Ok? && ReadCommand(rc).value.0 == Copy(offset, size)
    ensures |out| + offset < 0 ==> Decode(rc, out).Err?
    ensures |out| + offset >= 0 ==>
      Decode(rc, out) == Decode(ReadCommand(rc).value.1, CopyRef(out, -offset, size))
  {
  }

  /** Decompression: run the loop from a fresh read cursor over the input
      and a fresh write cursor of the default capacity, and return the
      bytes written. The only failure is reading or seeking out of range:
      the decoded offsets are never positive. */
  function Decompress(input: seq<Byte>): (r: Result<seq<Byte>>)
    ensures r.Err? ==> r.error == OutOfRange
  {
    var w :- Run(New(input), NewDefault());
    Ok(Contents(w))
  }

  /** Decompression is the reference decoder started on empty output. */
  lemma DecompressIsDecode(input: seq<Byte>)
    ensures Decompress(input) == Decode(New(input), [])
  {
    RunMatchesDecode(New(input), NewDefault());
    assert Contents(NewDefault()) == [];
  }
}
