/** Worked examples of the PRS decompressor of src/helpers/Decompress.ts,
    taken from its test file, each carried out command by command on the
    reference decoder `Prs.Decode` (which `Prs.DecompressIsDecode` shows
    equal to the decompressor). */
module PrsVectors {
  import opened Outcome
  import opened Bytes
  import opened ByteCursor
  import opened Prs

  /** A literal command: flag bit 1, then the byte itself. */
  lemma DecodeLiteral(c: Cursor, c1: Cursor, out: seq<Byte>)
    requires ReadBit(c) == Ok((1, c1)) && c1.pos < |c1.buf|
    ensures Decode(c, out) == Decode(c1.(pos := c1.pos + 1), out + [c1.buf[c1.pos]])
  {
    assert ReadCommand(c) == Ok((Literal(c1.buf[c1.pos]), c1.(pos := c1.pos + 1)));
    hide ReadCommand, CopyRef;
  }

  /** A short copy: flag bits 0 0, the two size bits, then the distance
      byte. */
  lemma DecodeShort(c: Cursor, c1: Cursor, c2: Cursor, c3: Cursor, c4: Cursor, a: nat, b: nat, out: seq<Byte>)
    requires ReadBit(c) == Ok((0, c1)) && ReadBit(c1) == Ok((0, c2))
    requires ReadBit(c2) == Ok((a, c3)) && ReadBit(c3) == Ok((b, c4))
    requires c4.pos < |c4.buf| && 0x100 - c4.buf[c4.pos] <= |out|
    ensures Decode(c, out)
         == Decode(c4.(pos := c4.pos + 1), CopyRef(out, 0x100 - c4.buf[c4.pos] as int, 2 * a + b + 2))
  {
    hide *;
    ShortCommand(c, c1, c2, c3, c4, a, b);
    CopyStepDecode(c, out, c4.buf[c4.pos] as int - 0x100, 2 * a + b + 2);
  }

  lemma ShortCommand(c: Cursor, c1: Cursor, c2: Cursor, c3: Cursor, c4: Cursor, a: nat, b: nat)
    requires ReadBit(c) == Ok((0, c1)) && ReadBit(c1) == Ok((0, c2))
    requires ReadBit(c2) == Ok((a, c3)) && ReadBit(c3) == Ok((b, c4))
    requires c4.pos < |c4.buf|
    ensures ReadCommand(c) == Ok((Copy(c4.buf[c4.pos] as int - 0x100, 2 * a + b + 2), c4.(pos := c4.pos + 1)))
  {
    assert ReadCommand(c) == ShortCopy(c2);
  }

  /** The command behind flag bits 0 1: a long copy or the end marker. */
  lemma LongCommand(c: Cursor, c1: Cursor, c2: Cursor)
    requires ReadBit(c) == Ok((0, c1)) && ReadBit(c1) == Ok((1, c2))
    ensures ReadCommand(c) == LongCopy(c2)
  {
  }

  /** The long copies and the end marker, from the word after the flag
      bits. */
  lemma LongCopyWord(c2: Cursor)
    requires c2.pos + 2 <= |c2.buf|
    ensures Le16At(c2.buf, c2.pos) == 0 ==> LongCopy(c2) == Ok((End, c2.(pos := c2.pos + 2)))
    ensures Le16At(c2.buf, c2.pos) % 8 != 0 ==>
      LongCopy(c2) == Ok((Copy(Le16At(c2.buf, c2.pos) / 8 - LongReach, Le16At(c2.buf, c2.pos) % 8 + 2),
                          c2.(pos := c2.pos + 2)))
    ensures Le16At(c2.buf, c2.pos) != 0 && Le16At(c2.buf, c2.pos) % 8 == 0 && c2.pos + 3 <= |c2.buf| ==>
      LongCopy(c2) == Ok((Copy(Le16At(c2.buf, c2.pos) / 8 - LongReach, c2.buf[c2.pos + 2] as int + 10),
                          c2.(pos := c2.pos + 3)))
  {
    hide *;
  }

  /** A long copy whose size sits in the low three bits of its word. */
  lemma DecodeLong(c: Cursor, c1: Cursor, c2: Cursor, out: seq<Byte>)
    requires ReadBit(c) == Ok((0, c1)) && ReadBit(c1) == Ok((1, c2))
    requires c2.pos + 2 <= |c2.buf| && Le16At(c2.buf, c2.pos) % 8 != 0
    requires LongReach - Le16At(c2.buf, c2.pos) / 8 <= |out|
    ensures Decode(c, out)
         == Decode(c2.(pos := c2.pos + 2),
                   CopyRef(out, LongReach - Le16At(c2.buf, c2.pos) / 8, Le16At(c2.buf, c2.pos) % 8 + 2))
  {
    var f := Le16At(c2.buf, c2.pos);
    hide *;
    LongCommandShort(c, c1, c2);
    CopyStepDecode(c, out, f / 8 - LongReach, f % 8 + 2);
  }

  lemma LongCommandShort(c: Cursor, c1: Cursor, c2: Cursor)
    requires ReadBit(c) == Ok((0, c1)) && ReadBit(c1) == Ok((1, c2))
    requires c2.pos + 2 <= |c2.buf| && Le16At(c2.buf, c2.pos) % 8 != 0
    ensures ReadCommand(c)
         == Ok((Copy(Le16At(c2.buf, c2.pos) / 8 - LongReach, Le16At(c2.buf, c2.pos) % 8 + 2), c2.(pos := c2.pos + 2)))
  {
    hide *;
    LongCommand(c, c1, c2);
    LongCopyWord(c2);
  }

  /** A long copy whose low three bits are zero: the size is in the next
      byte, plus 10. */
  lemma DecodeLongExtended(c: Cursor, c1: Cursor, c2: Cursor, out: seq<Byte>)
    requires ReadBit(c) == Ok((0, c1)) && ReadBit(c1) == Ok((1, c2))
    requires c2.pos + 3 <= |c2.buf| && Le16At(c2.buf, c2.pos) != 0 && Le16At(c2.buf, c2.pos) % 8 == 0
    requires LongReach - Le16At(c2.buf, c2.pos) / 8 <= |out|
    ensures Decode(c, out)
         == Decode(c2.(pos := c2.pos + 3),
                   CopyRef(out, LongReach - Le16At(c2.buf, c2.pos) / 8, c2.buf[c2.pos + 2] as int + 10))
  {
    var f := Le16At(c2.buf, c2.pos);
    hide *;
    LongCommand(c, c1, c2);
    LongCopyWord(c2);
    assert ReadCommand(c) == Ok((Copy(f / 8 - LongReach, c2.buf[c2.pos + 2] as int + 10), c2.(pos := c2.pos + 3)));
    CopyStepDecode(c, out, f / 8 - LongReach, c2.buf[c2.pos + 2] as int + 10);
  }

  /** A long copy reaching back further than the output goes fails. */
  lemma DecodeLongTooFar(c: Cursor, c1: Cursor, c2: Cursor, out: seq<Byte>)
    requires ReadBit(c) == Ok((0, c1)) && ReadBit(c1) == Ok((1, c2))
    requires c2.pos + 2 <= |c2.buf| && Le16At(c2.buf, c2.pos) % 8 != 0
    requires |out| < LongReach - Le16At(c2.buf, c2.pos) / 8
    ensures Decode(c, out) == Err(OutOfRange)
  {
    var f := Le16At(c2.buf, c2.pos);
    LongCommand(c, c1, c2);
    LongCopyWord(c2);
    hide ReadCommand, LongCopy, ShortCopy, ReadBit;
    assert ReadCommand(c) == Ok((Copy(f / 8 - LongReach, f % 8 + 2), c2.(pos := c2.pos + 2)));
  }

  /** The end marker: flag bits 0 1 and a zero word. */
  lemma DecodeEnd(c: Cursor, c1: Cursor, c2: Cursor, out: seq<Byte>)
    requires ReadBit(c) == Ok((0, c1)) && ReadBit(c1) == Ok((1, c2))
    requires c2.pos + 2 <= |c2.buf| && Le16At(c2.buf, c2.pos) == 0
    ensures Decode(c, out) == Ok(out)
  {
    LongCommand(c, c1, c2);
    LongCopyWord(c2);
    hide ReadCommand, LongCopy, ShortCopy, ReadBit;
    assert ReadCommand(c) == Ok((End, c2.(pos := c2.pos + 2)));
  }

  /** Each byte of `s` from index `from` on repeats the byte `d` places
      before it. */
  predicate Repeats(s: seq<Byte>, from: nat, d: nat)
    decreases |s| - from
  {
    from >= |s| || (from >= d && s[from] == s[from - d] && Repeats(s, from + 1, d))
  }

  /** A reference copy yields `expected` when `expected` continues the
      output and each of its new bytes repeats the byte `d` places back. */
  lemma {:induction false} CopyRefIs(out: seq<Byte>, d: nat, n: nat, expected: seq<Byte>)
    requires 0 < d <= |out| && |expected| == |out| + n && expected[..|out|] == out
    requires Repeats(expected, |out|, d)
    ensures CopyRef(out, d, n) == expected
    decreases n
  {
    if n > 0 {
      var next := out + [out[|out| - d]];
      assert expected[..|next|] == next;
      CopyRefIs(next, d, n - 1, expected);
    }
  }

  /** The literal vector: 0x05 holds the flag bits 1 (literal), then 0 1
      (long copy); the zero word that follows ends the stream. */
  lemma LiteralThenEnd()
    ensures Decompress([0x05, 0x69, 0x00, 0x00]) == Ok([0x69])
  {
    hide Decode, Decompress, ReadCommand;
    var buf: seq<Byte> := [0x05, 0x69, 0x00, 0x00];
    var c1 := CursorState(buf, 1, 7, 2);
    var c2 := CursorState(buf, 2, 7, 2);
    assert ReadBit(New(buf)) == Ok((1, c1));
    DecodeLiteral(New(buf), c1, []);
    assert ReadBit(c2) == Ok((0, CursorState(buf, 2, 6, 1)));
    assert ReadBit(CursorState(buf, 2, 6, 1)) == Ok((1, CursorState(buf, 2, 5, 0)));
    DecodeEnd(c2, CursorState(buf, 2, 6, 1), CursorState(buf, 2, 5, 0), [0x69]);
    assert [] + [0x69] == [0x69];
    DecompressIsDecode(buf);
  }

  /** An empty stream and a stream cut short after a literal flag fail. */
  lemma TruncatedStreams()
    ensures Decompress([]).Err?
    ensures Decompress([0x05]).Err?
  {
    DecompressIsDecode([]);
    DecompressIsDecode([0x05]);
    var c1 := CursorState([0x05], 1, 7, 2);
    assert ReadBit(New([0x05])) == Ok((1, c1));
  }

  /** A short copy reaching 255 bytes back before anything was written
      fails. */
  lemma CopyBeforeStart()
    ensures Decompress([0x00, 0x01, 0x01, 0x00]).Err?
  {
    var buf: seq<Byte> := [0x00, 0x01, 0x01, 0x00];
    var c0 := New(buf);
    var c1 := CursorState(buf, 1, 7, 0);
    var c2 := CursorState(buf, 1, 6, 0);
    var c3 := CursorState(buf, 1, 5, 0);
    var c4 := CursorState(buf, 1, 4, 0);
    assert ReadBit(c0) == Ok((0, c1));
    assert ReadBit(c1) == Ok((0, c2));
    assert ReadBit(c2) == Ok((0, c3));
    assert ReadBit(c3) == Ok((0, c4));
    assert ReadCommand(c0) == Ok((Copy(1 - 0x100, 2), c4.(pos := 2)));
    assert Decode(c0, []).Err?;
    DecompressIsDecode(buf);
  }

  /** One control byte per literal, as in the multiple-literals vector:
      after the first literal the next two flag bits of 0x05 are 0 1, so
      the bytes 0x05 0x42 are read as a long copy reaching 6080 bytes back
      from an output of one byte, and decompression fails. */
  lemma SeparateFlagBytes()
    ensures Decompress([0x05, 0x41, 0x05, 0x42, 0x05, 0x43, 0x00, 0x00]) == Err(OutOfRange)
  {
    hide Decode, Decompress, ReadCommand;
    var buf: seq<Byte> := [0x05, 0x41, 0x05, 0x42, 0x05, 0x43, 0x00, 0x00];
    var c1 := CursorState(buf, 1, 7, 2);
    var c2 := CursorState(buf, 2, 7, 2);
    var c3 := CursorState(buf, 2, 6, 1);
    var c4 := CursorState(buf, 2, 5, 0);
    assert ReadBit(New(buf)) == Ok((1, c1));
    DecodeLiteral(New(buf), c1, []);
    assert ReadBit(c2) == Ok((0, c3));
    assert ReadBit(c3) == Ok((1, c4));
    assert Le16At(buf, 2) == 0x4205;
    DecodeLongTooFar(c2, c3, c4, [] + [0x41]);
    DecompressIsDecode(buf);
  }

  /** The three literals encoded as the format lays them out: one control
      byte, 0x17, carries the three literal flags 1 1 1 and the end flags
      0 1, and the three bytes follow it. */
  lemma ThreeLiterals()
    ensures Decompress([0x17, 0x41, 0x42, 0x43, 0x00, 0x00]) == Ok([0x41, 0x42, 0x43])
  {
    hide Decode, Decompress, ReadCommand;
    var buf: seq<Byte> := [0x17, 0x41, 0x42, 0x43, 0x00, 0x00];
    var c1 := CursorState(buf, 1, 7, 11);
    var c2 := CursorState(buf, 2, 6, 5);
    var c3 := CursorState(buf, 3, 5, 2);
    var c4 := CursorState(buf, 4, 4, 1);
    var c5 := CursorState(buf, 4, 3, 0);
    assert ReadBit(New(buf)) == Ok((1, c1));
    DecodeLiteral(New(buf), c1, []);
    assert ReadBit(c1.(pos := 2)) == Ok((1, c2));
    DecodeLiteral(c1.(pos := 2), c2, [0x41]);
    assert ReadBit(c2.(pos := 3)) == Ok((1, c3));
    DecodeLiteral(c2.(pos := 3), c3, [0x41, 0x42]);
    assert ReadBit(c3.(pos := 4)) == Ok((0, c4));
    assert ReadBit(c4) == Ok((1, c5));
    DecodeEnd(c3.(pos := 4), c4, c5, [0x41, 0x42, 0x43]);
    assert [] + [0x41] == [0x41];
    assert [0x41] + [0x42] == [0x41, 0x42];
    assert [0x41, 0x42] + [0x43] == [0x41, 0x42, 0x43];
    DecompressIsDecode(buf);
  }

  /** The bytes of the compressed vector's input, after the test XORs
      each of its listed bytes with 0x95. */
  function InputByte(i: nat): Byte {
    match i
    case 0 => 255 case 1 => 35 case 2 => 242 case 3 => 156
    case 4 => 0 case 5 => 1 case 6 => 128 case 7 => 193
    case 8 => 0 case 9 => 97 case 10 => 112 case 11 => 255
    case 12 => 144 case 13 => 144 case 14 => 252 case 15 => 253
    case 16 => 0 case 17 => 0 case 18 => 28 case 19 => 30
    case 20 => 0 case 21 => 161 case 22 => 120 case 23 => 250
    case 24 => 65 case 25 => 240 case 26 => 255 case 27 => 15
    case 28 => 2 case 29 => 0 case _ => 0
  }

  /** The bytes the compressed vector expands to: 25 bytes, then 0 and 65
      alternating. */
  function OutputByte(i: nat): Byte {
    match i
    case 0 => 35 case 1 => 242 case 2 => 156 case 3 => 0
    case 4 => 1 case 5 => 128 case 6 => 193 case 7 => 0
    case 8 => 112 case 9 => 112 case 10 => 112 case 11 => 144
    case 12 => 144 case 13 => 112 case 14 => 144 case 15 => 144
    case 16 => 0 case 17 => 0 case 18 => 28 case 19 => 30
    case 20 => 0 case 21 => 120 case 22 => 0 case 23 => 0
    case 24 => 65 case 25 => 0 case 26 => 65 case 27 => 0
    case 28 => 65 case 29 => 0 case 30 => 65 case 31 => 0
    case 32 => 65 case 33 => 0 case 34 => 65 case 35 => 0
    case 36 => 65 case 37 => 0 case 38 => 65 case 39 => 0
    case 40 => 65 case 41 => 0 case 42 => 65 case 43 => 0
    case 44 => 65 case 45 => 0 case 46 => 65 case 47 => 0
    case 48 => 65 case 49 => 0
    case _ => 0
  }

  function MaskedInput(): seq<Byte> {
    seq(31, i requires 0 <= i => InputByte(i))
  }

  function Expanded(): seq<Byte> {
    seq(50, i requires 0 <= i => OutputByte(i))
  }

  /** The input written out as the test lists it, after the mask. */
  lemma InputDisplay()
    ensures MaskedInput()
         == [255, 35, 242, 156, 0, 1, 128, 193, 0, 97, 112, 255, 144, 144, 252, 253,
             0, 0, 28, 30, 0, 161, 120, 250, 65, 240, 255, 15, 2, 0, 0]
  {
  }

  /** The expected output written out as the test lists it. */
  lemma OutputDisplay()
    ensures Expanded()
         == [35, 242, 156, 0, 1, 128, 193, 0, 112, 112, 112, 144, 144, 112, 144, 144,
             0, 0, 28, 30, 0, 120, 0, 0]
          + [65, 0, 65, 0, 65, 0, 65, 0, 65, 0, 65, 0, 65, 0, 65, 0, 65, 0, 65, 0,
             65, 0, 65, 0, 65, 0]
  {
    OutputHead();
    OutputTail();
    hide *;
    assert Expanded() == Expanded()[..24] + Expanded()[24..];
  }

  lemma OutputHead()
    ensures |Expanded()| == 50
    ensures Expanded()[..24]
         == [35, 242, 156, 0, 1, 128, 193, 0, 112, 112, 112, 144, 144, 112, 144, 144,
             0, 0, 28, 30, 0, 120, 0, 0]
  {
  }

  lemma OutputTail()
    ensures Expanded()[24..]
         == [65, 0, 65, 0, 65, 0, 65, 0, 65, 0, 65, 0, 65, 0, 65, 0, 65, 0, 65, 0,
             65, 0, 65, 0, 65, 0]
  {
  }

  /** Byte access to both vectors, so that the steps below can keep the
      vectors themselves hidden. */
  lemma VectorBytes()
    ensures |MaskedInput()| == 31 && forall i :: 0 <= i < 31 ==> MaskedInput()[i] == InputByte(i)
    ensures |Expanded()| == 50 && forall i :: 0 <= i < 50 ==> Expanded()[i] == OutputByte(i)
  {
  }

  /** One more byte of a prefix. */
  lemma Extend(s: seq<Byte>, k: nat)
    requires k < |s|
    ensures s[..k] + [s[k]] == s[..k + 1]
  {
  }

  /** The byte at `i` repeats the byte `d` places before it. */
  predicate RepeatsAt(s: seq<Byte>, i: nat, d: nat)
    requires i < |s|
  {
    d <= i && s[i] == s[i - d]
  }

  /** Pointwise repetition from `from` on is `Repeats`. */
  lemma {:induction false} RepeatsAll(s: seq<Byte>, from: nat, d: nat)
    requires forall i :: from <= i < |s| ==> RepeatsAt(s, i, d)
    ensures Repeats(s, from, d)
    decreases |s| - from
  {
    if from < |s| {
      assert RepeatsAt(s, from, d);
      RepeatsAll(s, from + 1, d);
    }
  }

  /** From index 25 on, the expected output repeats itself two bytes back. */
  lemma TailRepeats()
    ensures Repeats(Expanded()[..50], 25, 2)
  {
    VectorBytes();
    forall i | 25 <= i < 50
      ensures RepeatsAt(Expanded()[..50], i, 2)
    {
    }
    RepeatsAll(Expanded()[..50], 25, 2);
  }

  /** The decoder's cursor over the compressed vector: its position, the
      flag bits left in the cache, and the cache itself. */
  function At(pos: nat, bits: nat, cache: Byte): Cursor
    requires pos <= |MaskedInput()| && bits <= 8
  {
    CursorState(MaskedInput(), pos, bits, cache)
  }

  /** The compressed vector one or two commands at a time: each part
      takes the decoder from one cursor and output prefix to the next. */
  lemma VectorPart1()
    ensures Decode(At(0, 0, 0), Expanded()[..0])
         == Decode(At(3, 6, 63), Expanded()[..2])
  {
    VectorBytes();
    hide Decode, CopyRef, ReadCommand, LongCopy, ShortCopy, MaskedInput, Expanded;
    assert ReadBit(At(0, 0, 0)) == Ok((1, At(1, 7, 127)));
    DecodeLiteral(At(0, 0, 0), At(1, 7, 127), Expanded()[..0]);
    Extend(Expanded(), 0);
    assert ReadBit(At(2, 7, 127)) == Ok((1, At(2, 6, 63)));
    DecodeLiteral(At(2, 7, 127), At(2, 6, 63), Expanded()[..1]);
    Extend(Expanded(), 1);
  }

  lemma VectorPart2()
    ensures Decode(At(3, 6, 63), Expanded()[..2])
         == Decode(At(5, 4, 15), Expanded()[..4])
  {
    VectorBytes();
    hide Decode, CopyRef, ReadCommand, LongCopy, ShortCopy, MaskedInput, Expanded;
    assert ReadBit(At(3, 6, 63)) == Ok((1, At(3, 5, 31)));
    DecodeLiteral(At(3, 6, 63), At(3, 5, 31), Expanded()[..2]);
    Extend(Expanded(), 2);
    assert ReadBit(At(4, 5, 31)) == Ok((1, At(4, 4, 15)));
    DecodeLiteral(At(4, 5, 31), At(4, 4, 15), Expanded()[..3]);
    Extend(Expanded(), 3);
  }

  lemma VectorPart3()
    ensures Decode(At(5, 4, 15), Expanded()[..4])
         == Decode(At(7, 2, 3), Expanded()[..6])
  {
    VectorBytes();
    hide Decode, CopyRef, ReadCommand, LongCopy, ShortCopy, MaskedInput, Expanded;
    assert ReadBit(At(5, 4, 15)) == Ok((1, At(5, 3, 7)));
    DecodeLiteral(At(5, 4, 15), At(5, 3, 7), Expanded()[..4]);
    Extend(Expanded(), 4);
    assert ReadBit(At(6, 3, 7)) == Ok((1, At(6, 2, 3)));
    DecodeLiteral(At(6, 3, 7), At(6, 2, 3), Expanded()[..5]);
    Extend(Expanded(), 5);
  }

  lemma VectorPart4()
    ensures Decode(At(7, 2, 3), Expanded()[..6])
         == Decode(At(9, 0, 0), Expanded()[..8])
  {
    VectorBytes();
    hide Decode, CopyRef, ReadCommand, LongCopy, ShortCopy, MaskedInput, Expanded;
    assert ReadBit(At(7, 2, 3)) == Ok((1, At(7, 1, 1)));
    DecodeLiteral(At(7, 2, 3), At(7, 1, 1), Expanded()[..6]);
    Extend(Expanded(), 6);
    assert ReadBit(At(8, 1, 1)) == Ok((1, At(8, 0, 0)));
    DecodeLiteral(At(8, 1, 1), At(8, 0, 0), Expanded()[..7]);
    Extend(Expanded(), 7);
  }

  lemma VectorPart5()
    ensures Decode(At(9, 0, 0), Expanded()[..8])
         == Decode(At(11, 7, 48), Expanded()[..9])
  {
    VectorBytes();
    hide Decode, CopyRef, ReadCommand, LongCopy, ShortCopy, MaskedInput, Expanded;
    assert ReadBit(At(9, 0, 0)) == Ok((1, At(10, 7, 48)));
    DecodeLiteral(At(9, 0, 0), At(10, 7, 48), Expanded()[..8]);
    Extend(Expanded(), 8);
  }

  lemma VectorPart6()
    ensures Decode(At(11, 7, 48), Expanded()[..9])
         == Decode(At(12, 3, 3), Expanded()[..11])
  {
    VectorBytes();
    hide Decode, CopyRef, ReadCommand, LongCopy, ShortCopy, MaskedInput, Expanded;
    assert ReadBit(At(11, 7, 48)) == Ok((0, At(11, 6, 24)));
    assert ReadBit(At(11, 6, 24)) == Ok((0, At(11, 5, 12)));
    assert ReadBit(At(11, 5, 12)) == Ok((0, At(11, 4, 6)));
    assert ReadBit(At(11, 4, 6)) == Ok((0, At(11, 3, 3)));
    DecodeShort(At(11, 7, 48), At(11, 6, 24), At(11, 5, 12), At(11, 4, 6), At(11, 3, 3), 0, 0, Expanded()[..9]);
    CopyRefIs(Expanded()[..9], 1, 2, Expanded()[..11]);
  }

  lemma VectorPart7()
    ensures Decode(At(12, 3, 3), Expanded()[..11])
         == Decode(At(14, 1, 0), Expanded()[..13])
  {
    VectorBytes();
    hide Decode, CopyRef, ReadCommand, LongCopy, ShortCopy, MaskedInput, Expanded;
    assert ReadBit(At(12, 3, 3)) == Ok((1, At(12, 2, 1)));
    DecodeLiteral(At(12, 3, 3), At(12, 2, 1), Expanded()[..11]);
    Extend(Expanded(), 11);
    assert ReadBit(At(13, 2, 1)) == Ok((1, At(13, 1, 0)));
    DecodeLiteral(At(13, 2, 1), At(13, 1, 0), Expanded()[..12]);
    Extend(Expanded(), 12);
  }

  lemma VectorPart8()
    ensures Decode(At(14, 1, 0), Expanded()[..13])
         == Decode(At(16, 5, 31), Expanded()[..16])
  {
    VectorBytes();
    hide Decode, CopyRef, ReadCommand, LongCopy, ShortCopy, MaskedInput, Expanded;
    assert ReadBit(At(14, 1, 0)) == Ok((0, At(14, 0, 0)));
    assert ReadBit(At(14, 0, 0)) == Ok((0, At(15, 7, 126)));
    assert ReadBit(At(15, 7, 126)) == Ok((0, At(15, 6, 63)));
    assert ReadBit(At(15, 6, 63)) == Ok((1, At(15, 5, 31)));
    DecodeShort(At(14, 1, 0), At(14, 0, 0), At(15, 7, 126), At(15, 6, 63), At(15, 5, 31), 0, 1, Expanded()[..13]);
    CopyRefIs(Expanded()[..13], 3, 3, Expanded()[..16]);
  }

  lemma VectorPart9()
    ensures Decode(At(16, 5, 31), Expanded()[..16])
         == Decode(At(18, 3, 7), Expanded()[..18])
  {
    VectorBytes();
    hide Decode, CopyRef, ReadCommand, LongCopy, ShortCopy, MaskedInput, Expanded;
    assert ReadBit(At(16, 5, 31)) == Ok((1, At(16, 4, 15)));
    DecodeLiteral(At(16, 5, 31), At(16, 4, 15), Expanded()[..16]);
    Extend(Expanded(), 16);
    assert ReadBit(At(17, 4, 15)) == Ok((1, At(17, 3, 7)));
    DecodeLiteral(At(17, 4, 15), At(17, 3, 7), Expanded()[..17]);
    Extend(Expanded(), 17);
  }

  lemma VectorPart10()
    ensures Decode(At(18, 3, 7), Expanded()[..18])
         == Decode(At(20, 1, 1), Expanded()[..20])
  {
    VectorBytes();
    hide Decode, CopyRef, ReadCommand, LongCopy, ShortCopy, MaskedInput, Expanded;
    assert ReadBit(At(18, 3, 7)) == Ok((1, At(18, 2, 3)));
    DecodeLiteral(At(18, 3, 7), At(18, 2, 3), Expanded()[..18]);
    Extend(Expanded(), 18);
    assert ReadBit(At(19, 2, 3)) == Ok((1, At(19, 1, 1)));
    DecodeLiteral(At(19, 2, 3), At(19, 1, 1), Expanded()[..19]);
    Extend(Expanded(), 19);
  }

  lemma VectorPart11()
    ensures Decode(At(20, 1, 1), Expanded()[..20])
         == Decode(At(23, 7, 80), Expanded()[..22])
  {
    VectorBytes();
    hide Decode, CopyRef, ReadCommand, LongCopy, ShortCopy, MaskedInput, Expanded;
    assert ReadBit(At(20, 1, 1)) == Ok((1, At(20, 0, 0)));
    DecodeLiteral(At(20, 1, 1), At(20, 0, 0), Expanded()[..20]);
    Extend(Expanded(), 20);
    assert ReadBit(At(21, 0, 0)) == Ok((1, At(22, 7, 80)));
    DecodeLiteral(At(21, 0, 0), At(22, 7, 80), Expanded()[..21]);
    Extend(Expanded(), 21);
  }

  lemma VectorPart12()
    ensures Decode(At(23, 7, 80), Expanded()[..22])
         == Decode(At(24, 3, 5), Expanded()[..24])
  {
    VectorBytes();
    hide Decode, CopyRef, ReadCommand, LongCopy, ShortCopy, MaskedInput, Expanded;
    assert ReadBit(At(23, 7, 80)) == Ok((0, At(23, 6, 40)));
    assert ReadBit(At(23, 6, 40)) == Ok((0, At(23, 5, 20)));
    assert ReadBit(At(23, 5, 20)) == Ok((0, At(23, 4, 10)));
    assert ReadBit(At(23, 4, 10)) == Ok((0, At(23, 3, 5)));
    DecodeShort(At(23, 7, 80), At(23, 6, 40), At(23, 5, 20), At(23, 4, 10), At(23, 3, 5), 0, 0, Expanded()[..22]);
    CopyRefIs(Expanded()[..22], 6, 2, Expanded()[..24]);
  }

  lemma VectorPart13()
    ensures Decode(At(24, 3, 5), Expanded()[..24])
         == Decode(At(25, 2, 2), Expanded()[..25])
  {
    VectorBytes();
    hide Decode, CopyRef, ReadCommand, LongCopy, ShortCopy, MaskedInput, Expanded;
    assert ReadBit(At(24, 3, 5)) == Ok((1, At(24, 2, 2)));
    DecodeLiteral(At(24, 3, 5), At(24, 2, 2), Expanded()[..24]);
    Extend(Expanded(), 24);
  }

  lemma VectorPart14()
    ensures Decode(At(25, 2, 2), Expanded()[..25])
         == Decode(At(28, 0, 0), Expanded()[..50])
  {
    VectorBytes();
    hide Decode, CopyRef, ReadCommand, LongCopy, ShortCopy, MaskedInput, Expanded;
    assert ReadBit(At(25, 2, 2)) == Ok((0, At(25, 1, 1)));
    assert ReadBit(At(25, 1, 1)) == Ok((1, At(25, 0, 0)));
    assert Le16At(MaskedInput(), 25) == 65520;
    DecodeLongExtended(At(25, 2, 2), At(25, 1, 1), At(25, 0, 0), Expanded()[..25]);
    TailRepeats();
    CopyRefIs(Expanded()[..25], 2, 25, Expanded()[..50]);
  }

  lemma VectorPart15()
    ensures Decode(At(28, 0, 0), Expanded()[..50]) == Ok(Expanded())
  {
    VectorBytes();
    hide Decode, CopyRef, ReadCommand, LongCopy, ShortCopy, MaskedInput, Expanded;
    assert ReadBit(At(28, 0, 0)) == Ok((0, At(29, 7, 1)));
    assert ReadBit(At(29, 7, 1)) == Ok((1, At(29, 6, 0)));
    assert Le16At(MaskedInput(), 29) == 0;
    DecodeEnd(At(28, 0, 0), At(29, 7, 1), At(29, 6, 0), Expanded()[..50]);
    assert Expanded()[..50] == Expanded();
  }

  /** The parts chained, five at a time. */
  lemma VectorSteps1()
    ensures Decode(At(0, 0, 0), Expanded()[..0])
         == Decode(At(11, 7, 48), Expanded()[..9])
  {
    VectorPart1();
    VectorPart2();
    VectorPart3();
    VectorPart4();
    VectorPart5();
  }

  lemma VectorSteps2()
    ensures Decode(At(11, 7, 48), Expanded()[..9])
         == Decode(At(20, 1, 1), Expanded()[..20])
  {
    VectorPart6();
    VectorPart7();
    VectorPart8();
    VectorPart9();
    VectorPart10();
  }

  lemma VectorSteps3()
    ensures Decode(At(20, 1, 1), Expanded()[..20]) == Ok(Expanded())
  {
    VectorPart11();
    VectorPart12();
    VectorPart13();
    VectorPart14();
    VectorPart15();
  }

  /** The compressed vector expands to the 50 bytes the test expects. */
  lemma CompressedVector()
    ensures Decompress(MaskedInput()) == Ok(Expanded())
  {
    VectorSteps1();
    VectorSteps2();
    VectorSteps3();
    VectorBytes();
    assert New(MaskedInput()) == At(0, 0, 0);
    assert Expanded()[..0] == [];
    DecompressIsDecode(MaskedInput());
  }
}
