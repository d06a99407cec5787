# symbol-art-parser, modelled in Dafny

A model of the codec for Phantasy Star Online 2 symbol-art files (`.sar`),
with proofs about it. It covers reading and writing files and converting
between the file bytes and the symbol-art document.

The model has these layers. Each is a module in its own file:

- **`Bytes`, `BitOps`** (`bytes.dfy`, `bits.dfy`): the number
  representations the code relies on.
  - Little- and big-endian byte strings, as `DataView` reads and writes
    them.
  - Two's-complement views.
  - JavaScript's 32-bit wrap in front of `>>`, `&`, `|` and `^`. `|` and `^`
    are defined bit by bit on naturals.
- **`ByteCursor`** (`cursor.dfy`): `src/helpers/Cursor.ts`, a growable
  buffer with a position.
  - Bit reads come least significant bit first, through a one-byte cache.
  - Integer reads and writes are 1, 2 or 4 bytes wide, in either byte order.
  - Relative seeks are bounds-checked.
  - The capacity grows before a write by doubling exactly once.
- **`BinaryUtility`** (`binary_utility.dfy`): `src/BinaryUtility.ts`, the
  older twin of the cursor. It is defined on its own and proved to agree
  with the cursor accessor by accessor.
- **`Blowfish`** (`blowfish.dfy`): `src/helpers/Blowfish.ts`.
  - The 16-round block cipher over little-endian words.
  - Buffer encryption and decryption of whole 8-byte blocks, leaving a
    trailing partial block as it is.
  - The key schedule.
- **`Prs`** (`decompress.dfy`): `src/helpers/Decompress.ts`, the PRS
  decompressor.
  - A command decoder.
  - The copy loop through the write cursor.
  - A reference decoder that works on the output bytes themselves.
- **`Registry`, `Schema`** (`registry.dfy`, `schema.dfy`):
  `src/helpers/BaseRegistry.ts` and `src/helpers/AbstractParser.ts`.
  - Registries are merged left to right, and later registries win.
  - A schema is a name, an ordered object of schemas, or a reader function.
- **`Document`, `SarParser`** (`document.dfy`, `sar_parser.dfy`): the
  document interfaces and `src/helpers/SarParser.ts`.
  - The header.
  - The 16-byte layer records, read through `layerSchema` and its bit
    fields.
  - The name, as trailing little-endian UTF-16 code units.
- **`SymbolArt`, `JsonRoundTrip`** (`symbol_art.dfy`, `json_round_trip.dfy`):
  the `SymbolArt` class of `src/index.ts`.
  - The container: the magic, the flag, then the Blowfish payload, which is
    XOR-masked and compressed when flagged.
  - The `json` packer.
  - The proof that packing then parsing gives the document back.

Failures the code raises as exceptions are values of `Outcome.Result`.
- `OutOfRange`: a read, seek or write past the bounds.
- `NotSar`: a bad magic.
- `InvalidFlag`: a bad flag byte.
- `PositiveOffset`: the decompressor's guard.
- `TypeError`: a property read on `undefined`, as in the `json` setter's
  sound lookup (see Findings).

A class's state is a value, and each method is a function from the old
state to the new one.

Points where the code's behaviour is easy to mistake:

- **An unregistered schema name yields `undefined`.** `parseAttribute` looks
  the name up, finds `undefined`, and falls through its `switch` without
  reading (`src/helpers/AbstractParser.ts:50-81`).
- **The compressed path masks the decrypted bytes.** `decrypt` rewrites the
  sliced buffer in place, and the 0x95 mask is then applied to that same
  buffer (`src/index.ts:85-93`). So the mask sees the decrypted whole
  blocks and the untouched tail.
- **Layer corners are read as unsigned bytes.** `pointSchema` names `u8`
  for both coordinates (`src/helpers/SarParser.ts:15-18`).
- **Errors keep the code's kind.** A truncated compressed stream is a cursor
  range error (`src/helpers/Cursor.ts:57-61`). A copy offset is always
  negative by construction, so the positive-offset guard of the copy loop
  never fires (`src/helpers/Decompress.ts:50-55`).
- **The encoder does not mask red, alpha and the colour component `x`.** A
  value too wide for its field spills into the neighbouring field
  (`src/index.ts:137-144`, `JsonRoundTrip.RedSpills`).
- **A numeric sound is always stored as 1.** The decoder yields the sound as
  a number (`src/helpers/SarParser.ts:86-90`), and the encoder maps only
  sound names to numbers (`src/index.ts:125`).

## Model

| member | source | states |
|---|---|---|
| BitOps.ToInt32 | src/helpers/SarParser.ts:39-48 | the operand a bitwise operator sees: in [-2^31, 2^31) and congruent to the number modulo 2^32 |
| BitOps.WrapKeepsField | src/helpers/SarParser.ts:40-48 | a bit field inside the low 32 bits is the same whether taken from the number or from its 32-bit wrap, so `(v >> lo) & mask` needs no wrap |
| BitOps.OrBits | src/index.ts:137-145 | bit i of `a \| b` is set exactly when it is set in `a` or in `b` |
| BitOps.OrDisjoint | src/index.ts:137-145 | OR of a multiple of 2^k and a number below 2^k is their sum |
| BitOps.OrByte | src/index.ts:137-145 | the byte a `Uint8Array` stores for `a \| b`: each of its 8 bits is the OR of that bit of the two operands |
| BitOps.XorBits | src/index.ts:93 | bit i of `a ^ b` is set exactly when it is set in one operand only |
| BitOps.XorTwice | src/index.ts:93 | XOR with the same mask twice gives the number back |
| BitOps.XorByte | src/index.ts:93 | `v ^ k` on bytes: each of its 8 bits is set exactly when set in one operand only |
| BitOps.LowByteBits | src/index.ts:118-156 | the low 8 bits of a number are the bits of the byte `& 0xff` keeps |
| Bytes.ToSigned | src/helpers/Cursor.ts:83-110 | the signed read of a width: in [-2^(8w-1), 2^(8w-1)) and congruent to the unsigned value modulo 2^(8w) |
| Bytes.LeRoundTrip | src/helpers/Cursor.ts:147-162 | reading back the little-endian bytes a write stores for v gives v modulo 2^(8w) |
| Bytes.BeRoundTrip | src/helpers/Cursor.ts:147-162 | the same for big-endian bytes |
| Bytes.LeValueRoundTrip | src/helpers/Cursor.ts:67-81 | the little-endian bytes of the value read from a byte string are that string |
| Bytes.BeValueRoundTrip | src/helpers/Cursor.ts:67-81 | the same for big-endian |
| Bytes.BeValueFour | src/helpers/Cursor.ts:77-81 | a big-endian 32-bit read weighs the first byte 2^24 and the last 1 |
| Bytes.LeValueFour | src/helpers/Cursor.ts:77-81 | a little-endian 32-bit read weighs the first byte 1 and the last 2^24 |
| Bytes.Word32LeBytesOfWord | src/helpers/Blowfish.ts:66-77 | the little-endian bytes of the word read from four bytes are those bytes |
| Bytes.Word32BeBytesOfWord | src/helpers/Blowfish.ts:26-28 | the big-endian bytes of the word read from four bytes are those bytes |
| ByteCursor.DefaultReadsZero | src/helpers/Cursor.ts:19-25 | a cursor made with no buffer has written nothing, and every read that fits its 64 bytes yields 0 in either byte order |
| ByteCursor.Seek | src/helpers/Cursor.ts:222-231 | a seek succeeds exactly when the new position lies in [0, capacity]; it moves only the position |
| ByteCursor.ReadBit | src/helpers/Cursor.ts:43-54 | with an empty cache it fails exactly at the end of the buffer, else loads the byte and advances one; with a cached bit it never fails and does not move |
| ByteCursor.ReadCachedBits | src/helpers/Cursor.ts:43-54 | reads served from the cache hand out its lowest bits in order without moving |
| ByteCursor.ReadBitsLsbFirst | src/helpers/Cursor.ts:43-54 | eight bit reads from an empty cache give the byte at the position least significant bit first and advance by one |
| ByteCursor.AlternatingBits | src/helpers/__tests__/Cursor.spec.ts:20-36 | 0b10101010 is handed out as 0,1,0,1,0,1,0,1 |
| ByteCursor.ReadUint | src/helpers/Cursor.ts:56-81 | a read succeeds exactly when w bytes remain, decodes them in the requested order, and advances by w |
| ByteCursor.ReadByte | src/helpers/Cursor.ts:57-61 | a one-byte read returns the byte at the position |
| ByteCursor.ReadInt | src/helpers/Cursor.ts:83-110 | a signed read fails exactly when the unsigned one does, lies in the signed range and is congruent to the unsigned value |
| ByteCursor.Extend | src/helpers/Cursor.ts:234-244 | growth doubles the capacity only when the bytes do not fit, keeps the old bytes and zero-fills the rest |
| ByteCursor.Write | src/helpers/Cursor.ts:132-194 | a write succeeds exactly when one doubling makes room, stores the encoding at the position, keeps the bytes before it, and advances by w |
| ByteCursor.WriteKeepsOtherBytes | src/helpers/Cursor.ts:234-244 | outside the stored bytes a write keeps the old bytes, and the bytes growth added are zero |
| ByteCursor.WriteThenRead | src/helpers/Cursor.ts:132-194 | seeking back over a write and reading the same width and order returns v modulo 2^(8w) unsigned, its two's-complement view signed, and ends where the write ended |
| ByteCursor.SignedRoundTrip | src/helpers/Cursor.ts:164-194 | a value in the signed range of its width survives being stored and read back signed |
| ByteCursor.WriteByte | src/helpers/Cursor.ts:136-140 | a one-byte write never fails on a non-empty buffer, appends the byte to the written prefix, advances by one and never shrinks the buffer |
| ByteCursor.WriteBytesSucceed | src/helpers/Cursor.ts:136-140 | any number of one-byte writes on a non-empty buffer succeed and leave the bytes written as the prefix |
| ByteCursor.TenWritesIntoOneByte | src/helpers/__tests__/Cursor.spec.ts:132-143 | ten one-byte writes into a one-byte buffer end at position 10 in a larger buffer |
| BinaryUtility.GetBuffer | src/BinaryUtility.ts:22-24 | `getBuffer` is the prefix of the buffer up to the position |
| BinaryUtility.Length | src/BinaryUtility.ts:27-29 | `length` is the capacity of the view, never less than the bytes `getBuffer` returns |
| BinaryUtility.SetOffset | src/BinaryUtility.ts:35-44 | the `offset` setter succeeds exactly when the new position lies in [0, capacity] |
| BinaryUtility.SetOffsetIsSeek | src/BinaryUtility.ts:35-44 | the `offset` setter is the cursor's seek |
| BinaryUtility.GetBit | src/BinaryUtility.ts:52-63 | the `bit` getter fails only with an empty cache at the end, and otherwise refills and advances or shifts the cache |
| BinaryUtility.GetBitIsReadBit | src/BinaryUtility.ts:52-63 | the `bit` getter yields `true` exactly when the cursor's `readBit` yields 1, with the same state after |
| BinaryUtility.Get | src/BinaryUtility.ts:67-181 | each getter succeeds exactly when its size remains, advances by its size, and lies in its signed or unsigned range |
| BinaryUtility.GetIsRead | src/BinaryUtility.ts:67-181 | each getter reads what the cursor read of the same width, order and signedness does |
| BinaryUtility.AddPadding | src/BinaryUtility.ts:244-254 | padding doubles the capacity only when the bytes do not fit, keeping the old bytes |
| BinaryUtility.AddPaddingIsExtend | src/BinaryUtility.ts:244-254 | `addPadding` grows exactly as the cursor's `extendIfNeeded` |
| BinaryUtility.Set | src/BinaryUtility.ts:74-181 | each setter succeeds exactly when one doubling makes room, stores the value's encoding and keeps the bytes before it |
| BinaryUtility.SetIsWrite | src/BinaryUtility.ts:74-181 | each setter is the cursor's write of the same width and order |
| BinaryUtility.SetThenGet | src/BinaryUtility.ts:67-181 | a setter, `offset = -size`, then the matching getter returns the value modulo 2^(8 size), signed for the signed accessors |
| BinaryUtility.SetThenGetInRange | src/BinaryUtility.ts:67-181 | a value in the accessor's range comes back unchanged |
| BinaryUtility.SetByte | src/BinaryUtility.ts:88-93 | `uint8 = b` on a non-empty buffer appends b to `getBuffer` and doubles `length` only when full |
| BinaryUtility.LengthIsCapacity | src/BinaryUtility.ts:27-29 | `length` is the capacity: three one-byte writes into a one-byte buffer give length 4 while `getBuffer` holds the three bytes |
| Blowfish.RoundIndices | src/helpers/Blowfish.ts:110-117 | the round function indexes the four S boxes with the bytes of its input, most significant first, and combines them as `((a + b) ^ c) + d` modulo 2^32 |
| Blowfish.EncStepInvertible | src/helpers/Blowfish.ts:68-73 | a double encryption round is injective: its input is recovered from its output with the same P entries and S boxes |
| Blowfish.DecStepInvertible | src/helpers/Blowfish.ts:90-95 | the same for a double decryption round |
| Blowfish.DecStepUndoesEncStep | src/helpers/Blowfish.ts:63-102 | two decryption rounds undo the matching two encryption rounds |
| Blowfish.DecLoopUndoesEncLoop | src/helpers/Blowfish.ts:63-102 | after k double rounds of decryption on an encrypted block the state is the encryption state 8-k double rounds in |
| Blowfish.DecLoopIsEncLoop | src/helpers/Blowfish.ts:85-102 | the decryption rounds are the encryption rounds under the reversed P array |
| Blowfish.DecryptIsReversedEncrypt | src/helpers/Blowfish.ts:63-102 | block decryption is block encryption under the reversed P array |
| Blowfish.BlockRoundTrip | src/helpers/Blowfish.ts:63-102 | decryption inverts encryption on every block under every cipher state |
| Blowfish.DecryptRoundTrip | src/helpers/Blowfish.ts:63-102 | encryption also inverts decryption, so both are bijections on blocks |
| Blowfish.Unwords | src/helpers/Blowfish.ts:66-77 | the eight bytes written for two words read back as those words |
| Blowfish.UnwordsWords | src/helpers/Blowfish.ts:66-77 | the two words read from eight bytes are written back as those bytes |
| Blowfish.Encrypt | src/helpers/Blowfish.ts:63-80 | encryption keeps the length and leaves the bytes after the last whole block as they are |
| Blowfish.Decrypt | src/helpers/Blowfish.ts:85-102 | decryption keeps the length and leaves the bytes after the last whole block as they are |
| Blowfish.RoundTrip | src/helpers/Blowfish.ts:63-102 | decrypting an encrypted buffer of any length gives it back |
| Blowfish.EncryptBlockAt | src/helpers/Blowfish.ts:63-80 | block i of the encrypted buffer is the block cipher applied to block i of the input, read and written as two little-endian words |
| Blowfish.DecryptBlockAt | src/helpers/Blowfish.ts:85-102 | block i of the decrypted buffer is the block decipher applied to block i of the input, read and written as two little-endian words |
| Blowfish.KeyWords | src/helpers/Blowfish.ts:22-28 | the key yields one word per whole 4 bytes |
| Blowfish.KeyWordsBytes | src/helpers/Blowfish.ts:22-28 | each key word holds four consecutive key bytes, most significant first; trailing bytes add no word |
| Blowfish.MixKey | src/helpers/Blowfish.ts:38-42 | P[i] is XORed with key word i mod n for a key of n words; an empty key leaves the P array as it is |
| Blowfish.MixKeyTwice | src/helpers/Blowfish.ts:38-42 | mixing the same key in twice restores the P array |
| Blowfish.MixKeyRepeated | src/helpers/Blowfish.ts:38-42 | a key and the key written twice over mix in identically |
| Blowfish.StoreP | src/helpers/Blowfish.ts:46-50 | storing a block puts its words at P entries i and i+1 and keeps every other entry |
| Blowfish.StoreS | src/helpers/Blowfish.ts:52-58 | storing a block puts its words at two consecutive S-box entries and keeps every other entry |
| Blowfish.ScheduleP | src/helpers/Blowfish.ts:44-50 | the pair stored at i is the encryption of the running block, each later pair is the encryption of the pair before it under the P array as updated so far, the S boxes and earlier entries are kept, and the last pair seeds the S schedule |
| Blowfish.ScheduleS | src/helpers/Blowfish.ts:52-58 | the same chain over the 1024 S-box entries, box by box, under the final P array, keeping the P array and earlier entries |
| Blowfish.Expand | src/helpers/Blowfish.ts:22-58 | the expanded P array starts with the encryption of the zero block under the key-mixed P array and is chained from there; the S boxes start with the encryption of the last P pair under the final P array and are chained from there |
| Blowfish.ExpandWholeWords | src/helpers/Blowfish.ts:22-58 | key bytes past the last whole word do not change the expanded cipher |
| Blowfish.KeyWordsRepeated | src/helpers/Blowfish.ts:22-28 | the words of a key written twice are its words twice |
| Blowfish.ExpandRepeatedKey | src/helpers/Blowfish.ts:22-58 | a key written twice over expands to the same cipher as the key |
| Prs.ReadCommand | src/helpers/Decompress.ts:12-47 | a command consumes input and keeps the buffer; a copy reaches back 1 to 0x2000 bytes and copies 2 to 265 |
| Prs.LongCopy | src/helpers/Decompress.ts:24-39 | a long copy reaches back 1 to 0x2000 bytes and copies 2 to 265 bytes; a zero word is the end marker |
| Prs.ShortCopy | src/helpers/Decompress.ts:40-47 | a short copy reaches back 1 to 256 bytes and copies 2 to 5 |
| Prs.CopyByte | src/helpers/Decompress.ts:50-61 | a positive offset is refused; otherwise one step succeeds exactly when the byte `offset` back lies inside the buffer and one doubling makes room, and then writes that byte |
| Prs.CopyBytes | src/helpers/Decompress.ts:50-61 | the copy loop fails only out of range for a non-positive offset |
| Prs.CopyRef | src/helpers/Decompress.ts:50-61 | the reference copy appends n bytes and keeps the output before them |
| Prs.CopyRefRepeats | src/helpers/Decompress.ts:50-61 | every byte a copy appends equals the byte d places before it, so overlapping copies repeat a pattern |
| Prs.CopyBytesMatchesRef | src/helpers/Decompress.ts:50-61 | copying through the write cursor succeeds exactly when the source lies inside the output and then appends what the reference copy does |
| Prs.CopyFirstByteFails | src/helpers/Decompress.ts:50-61 | a copy reaching before the first byte fails on its first byte |
| Prs.CopyFirstByte | src/helpers/Decompress.ts:50-61 | one step of an in-range copy appends one byte and leaves a shorter reference copy |
| Prs.Run | src/helpers/Decompress.ts:11-62 | the decompressor loop fails only out of range |
| Prs.Decode | src/helpers/Decompress.ts:11-62 | the reference decoder only extends the output it starts from |
| Prs.RunMatchesDecode | src/helpers/Decompress.ts:11-62 | the cursor-based loop and the reference decoder succeed together and produce the same bytes |
| Prs.LiteralStep | src/helpers/Decompress.ts:12-18 | a literal command appends its byte in both the loop and the reference |
| Prs.CopyStepRun | src/helpers/Decompress.ts:20-61 | a copy reaching before the output fails the loop; otherwise the loop continues after the copy |
| Prs.CopyStepDecode | src/helpers/Decompress.ts:20-61 | the same for the reference decoder with the reference copy |
| Prs.Decompress | src/helpers/Decompress.ts:6-65 | decompression fails only out of range |
| Prs.DecompressIsDecode | src/helpers/Decompress.ts:6-65 | decompression is the reference decoder from empty output |
| PrsVectors.LiteralThenEnd | src/helpers/__tests__/Decompress.spec.ts:6-11 | 05 69 00 00 decompresses to the single byte 0x69 |
| PrsVectors.CompressedVector | src/helpers/__tests__/Decompress.spec.ts:13-28 | the 31-byte masked vector decompresses to the 50 bytes the test lists |
| PrsVectors.InputDisplay | src/helpers/__tests__/Decompress.spec.ts:14-17 | the vector's input is the listed bytes each XORed with 0x95 |
| PrsVectors.OutputDisplay | src/helpers/__tests__/Decompress.spec.ts:21-27 | the vector's output is the listed 50 bytes |
| PrsVectors.TruncatedStreams | src/helpers/__tests__/Decompress.spec.ts:30-39 | an empty stream and a stream cut after a literal flag fail |
| PrsVectors.CopyBeforeStart | src/helpers/__tests__/Decompress.spec.ts:57-61 | a copy before anything is written fails |
| PrsVectors.SeparateFlagBytes | src/helpers/__tests__/Decompress.spec.ts:41-48 | 05 41 05 42 05 43 00 00 fails out of range: after the first literal the next two flag bits of the first 0x05 are 0 1, so the bytes 05 42 are read as a long-copy word, which reaches before the output |
| PrsVectors.ThreeLiterals | src/helpers/Decompress.ts:12-47 | 17 41 42 43 00 00, one control byte for three literals and the end, decompresses to 41 42 43 |
| Registry.Read | src/helpers/BaseRegistry.ts:5-14 | an integer reader succeeds exactly when its width remains, advances by it, and yields a number in its signed or unsigned range congruent to the bytes' value |
| Registry.ReadOneByte | src/helpers/BaseRegistry.ts:5-10 | `u8` returns the byte and `i8` its two's-complement value |
| Registry.ReadValue | src/helpers/BaseRegistry.ts:5-14 | a reader's number is the bytes it covers in its order, signed or not |
| Schema.ParseAttribute | src/helpers/AbstractParser.ts:41-82 | an object schema yields an object with the schema's keys in order; a schema that is no name, function or object (a number, boolean or `undefined`) yields `undefined` without moving |
| Schema.ParseFields | src/helpers/AbstractParser.ts:65-79 | the fields come out in the schema's order under the schema's keys |
| Schema.Merge | src/helpers/AbstractParser.ts:30-32 | the registry `parse` uses defines a name exactly when the base or a caller registry does, with the entry of the last caller registry defining it |
| Schema.MergeIntoEntries | src/helpers/AbstractParser.ts:30-32 | a merged registry has a name exactly when some part has it, and its entry is the last part's that has it |
| Schema.LaterRegistryWins | src/helpers/AbstractParser.ts:30-32 | a caller registry overrides the base and every earlier caller registry |
| Schema.BaseEntryKept | src/helpers/AbstractParser.ts:30-32 | a name no caller defines has its base entry, or none |
| Schema.UnregisteredName | src/helpers/AbstractParser.ts:50-81 | an unregistered name yields `undefined` and leaves the cursor alone |
| Schema.RegisteredName | src/helpers/AbstractParser.ts:51-64 | a name registered to a reader yields that reader's number, failing exactly when it would |
| Schema.ParseConsumes | src/helpers/AbstractParser.ts:41-82 | a schema of names succeeds exactly when its size in bytes remains, and then advances by that size |
| Schema.ParseFieldsConsumes | src/helpers/AbstractParser.ts:65-79 | the same for the remaining fields of an object |
| Schema.ParseBaseName | src/helpers/AbstractParser.ts:23-35 | `parse` of a base name succeeds exactly when the buffer holds its width |
| Schema.ParseBaseValue | src/helpers/AbstractParser.ts:23-35 | `parse` of a base name returns the number its bytes encode from the start |
| Schema.Parse | src/helpers/AbstractParser.ts:23-35 | `parse` of a schema of names succeeds exactly when the buffer holds its size; an object schema yields an object with its keys; a non-schema yields `undefined` |
| Schema.ByteNames | src/helpers/BaseRegistry.ts:5-10 | `u8` reads the byte, `i8` its two's-complement value |
| Schema.WordNames | src/helpers/BaseRegistry.ts:6-13 | the 16-bit names read the first byte as high, the `le` names as low, signed or not |
| Schema.LongBigNames | src/helpers/BaseRegistry.ts:7-12 | `u32` and `i32` read the first byte as most significant |
| Schema.LongLittleNames | src/helpers/BaseRegistry.ts:9-14 | `u32le` and `i32le` read the first byte as least significant |
| Schema.UnsignedVectors | src/helpers/__tests__/SarParser.spec.ts:35-39 | 4 reads as 4 through `u8`, `u16` and `u16le` |
| Schema.UnsignedLongVectors | src/helpers/__tests__/SarParser.spec.ts:35-39 | 4 reads as 4 through `u32` and `u32le` |
| Schema.BigEndianVectors | src/helpers/__tests__/AbstractParser.spec.ts:24-34 | 12 34 reads as 0x1234 and 12 34 56 78 as 0x12345678 |
| Schema.SignedByteVectors | src/helpers/__tests__/SarParser.spec.ts:88-93 | `i8` reads 255 as -1, 128 as -128 and 127 as 127 |
| Schema.SignedWordVectors | src/helpers/__tests__/SarParser.spec.ts:40-44 | 0xFFFE reads as -2 through `i16` and `i16le` |
| Schema.SignedLongVectors | src/helpers/__tests__/SarParser.spec.ts:40-44 | 0xFFFFFFFE reads as -2 through `i32` and `i32le` |
| Schema.Underrun | src/helpers/__tests__/AbstractParser.spec.ts:58-68 | `u8` on no bytes and `u32` on one byte fail |
| Schema.FieldStep | src/helpers/AbstractParser.ts:65-79 | an object's first field reads first and the rest continue from its cursor |
| Schema.FieldFails | src/helpers/AbstractParser.ts:65-79 | an object fails as soon as one field fails |
| Schema.GroupFails | src/helpers/AbstractParser.ts:65-79 | an object schema fails when its fields do |
| Schema.GroupStep | src/helpers/AbstractParser.ts:65-79 | an object schema yields the object of its parsed fields |
| Schema.TwoFields | src/helpers/AbstractParser.ts:65-79 | a two-field object is its two parts read one after the other |
| Schema.FourFields | src/helpers/AbstractParser.ts:65-79 | the same for four fields |
| Schema.NestedObjects | src/helpers/__tests__/SarParser.spec.ts:59-62 | nested objects share one cursor: 04 FF gives `{val: {val2: 4}, val2: -1}` |
| Schema.EmptyRegistry | src/helpers/__tests__/SarParser.spec.ts:65-73 | with an empty registry the nested object keeps its keys, every value is `undefined`, and nothing is read |
| SarParser.UnpackProps | src/helpers/SarParser.ts:39-48 | every unpacked field lies in its bit width: 10 bits for the symbol, 3 for alpha, 6 for the rest |
| SarParser.VisibleIsSignClear | src/helpers/SarParser.ts:39 | `!(w >> 31)` holds exactly when the 32-bit signed view of the word is non-negative |
| SarParser.DecodeLayer | src/helpers/SarParser.ts:20-62 | every decoded layer is in range for the format |
| SarParser.DecodedVisibility | src/helpers/SarParser.ts:39 | a layer is visible exactly when the top bit of its record's byte 11 is clear |
| SarParser.ReadPoint | src/helpers/SarParser.ts:15-18 | a corner is two unsigned bytes, x then y, and fails when fewer remain |
| SarParser.ReadCorners | src/helpers/SarParser.ts:20-26 | the four corners are eight bytes in the order top-left, bottom-left, top-right, bottom-right |
| SarParser.ReadProps | src/helpers/SarParser.ts:27-48 | the props are the bit fields of two little-endian words |
| SarParser.ReadLayer | src/helpers/SarParser.ts:20-62 | a layer reads 16 bytes, failing exactly when fewer remain, into the reference decoding |
| SarParser.BaseLayerNames | src/helpers/BaseRegistry.ts:5-9 | the base registry's `u8` and `u32le` are the unsigned byte and little-endian word readers |
| SarParser.PointSchemaReads | src/helpers/SarParser.ts:15-18 | `pointSchema` reads two bytes into `{x, y}` and fails when fewer remain |
| SarParser.CornersPlain | src/helpers/SarParser.ts:21-26 | the corner schema reads exactly eight bytes |
| SarParser.CornersSchemaReads | src/helpers/SarParser.ts:21-26 | the corner schema reads eight bytes into the four corner objects in file order |
| SarParser.PropsReader | src/helpers/SarParser.ts:27-61 | under a registry whose `u8` and `u32le` are the base readers, the props function succeeds exactly when eight bytes remain, reads two little-endian words and unpacks their bit fields |
| SarParser.LayerSchemaReads | src/helpers/SarParser.ts:20-62 | `layerSchema` through the interpreter succeeds exactly when the typed layer reader does and yields the same layer |
| SarParser.DecodeLayers | src/helpers/SarParser.ts:93-111 | n records give n layers |
| SarParser.DecodeLayersIndex | src/helpers/SarParser.ts:93-111 | layer i is the record at 16 i |
| SarParser.ReadLayers | src/helpers/SarParser.ts:93-111 | n layers succeed exactly when 16 n bytes remain and give the records in order |
| SarParser.ReadName | src/helpers/SarParser.ts:113-128 | the name loop stops at the first read that fails: it yields the smaller of the attempts and the whole pairs remaining, each unit the little-endian pair at its offset |
| SarParser.NameUnits | src/helpers/SarParser.ts:113-128 | the name is one unit per whole pair of remaining bytes; an odd last byte is dropped |
| SarParser.ReadHeader | src/helpers/SarParser.ts:66-90 | the header is a little-endian author and four unsigned bytes, failing when fewer than 8 bytes remain |
| SarParser.ParseSar | src/helpers/SarParser.ts:65-143 | parsing succeeds exactly when the header and the declared layers fit; then author, count, size, sound, layers and name are the fields at their offsets |
| SymbolArt.InitData | src/index.ts:37-56 | a new object writes the bare header, "sar" and flag 0x04 with nothing after it, and loading that file back gives the new object |
| SymbolArt.AppendBuffer | src/index.ts:166-174 | the result is the first buffer then the second |
| SymbolArt.Data | src/index.ts:45-56 | the file is "sar", flag 0x04, then the Blowfish encryption of the payload |
| SymbolArt.XorAllTwice | src/index.ts:93 | masking twice with 0x95 gives the bytes back |
| SymbolArt.Load | src/index.ts:63-95 | a bad magic fails as not-sar and a bad flag as invalid; the plain flag stores the decrypted bytes; the compressed flag stores the decompressed masked decrypted bytes and fails when decompression does |
| SymbolArt.LoadData | src/index.ts:45-95 | loading the file the getter produced restores the payload on any object with the same cipher |
| SymbolArt.Json | src/index.ts:98-104 | the getter succeeds exactly when the header and the declared layers fit the payload |
| SymbolArt.SoundByte | src/index.ts:125 | a known sound name is stored as its number, anything else as 1 |
| SymbolArt.ByteOf | src/index.ts:118-121 | `(v >> lo) & 0xff` is the byte of v from bit lo, whatever the 32-bit wrap |
| SymbolArt.AuthorBytes | src/index.ts:118-121 | the four author bytes read back little-endian give the author modulo 2^32 |
| SymbolArt.UnitBytes | src/index.ts:150-156 | the two bytes written for a code unit read back little-endian give the unit |
| SymbolArt.HeaderBytes | src/index.ts:117-125 | eight bytes: the author modulo 2^32 little-endian, the layer count, height and width modulo 256, and the stored sound number |
| SymbolArt.LayerBytes | src/index.ts:127-148 | a layer packs into sixteen bytes; the value of each byte is stated by `JsonRoundTrip.LayerBytesValues` |
| SymbolArt.LayersBytes | src/index.ts:127-148 | sixteen bytes per layer, record i holding the bytes packed for layer i |
| SymbolArt.NameBytes | src/index.ts:149-156 | two bytes per code unit, read back little-endian as that unit |
| SymbolArt.Pack | src/index.ts:111-156 | the buffer is 8 + 16 layers + 2 units long and holds the header, then the layer records, then the name units |
| SymbolArt.SetJson | src/index.ts:111-158 | the `json` setter replaces the payload by the packed document and keeps the cipher |
| SymbolArt.SoundLookup | src/index.ts:125 | the setter's sound lookup throws exactly when `Sounds` is unbound, and with the named table gives `SoundByte` |
| SymbolArt.SetJsonWith | src/index.ts:111-158 | the setter with the sound table as bound fails exactly when the binding is `undefined`; otherwise it keeps the cipher and stores the packed document with the looked-up sound byte at offset 7 |
| SymbolArt.DefaultImportFails | src/index.ts:7 | with the default import of a module that has no default export, the `json` setter fails with a `TypeError` on every document |
| SymbolArt.NamedImportSetsJson | src/index.ts:7 | with the named import of the sound table, the `json` setter is `SetJson` on every document |
| SymbolArt.XorAll | src/index.ts:93 | masking keeps the length and XORs every byte with the mask |
| SymbolArt.UnitsShift | src/index.ts:149-156 | name units held at an offset stay held, shifted, after a prefix |
| SymbolArt.RecordsShift | src/index.ts:127-148 | layer records held in a buffer stay held, shifted, inside a longer buffer |
| JsonRoundTrip.LayerBytesValues | src/index.ts:127-148 | each of the sixteen bytes packed for an in-range layer is the plain sum of its fields' bits |
| JsonRoundTrip.LowPair | src/index.ts:137 | `((g & 3) << 6) \| r` is the sum of the two parts for a 6-bit r |
| JsonRoundTrip.MidPair | src/index.ts:138 | `((b & 15) << 4) \| ((g >> 2) & 15)` is the sum of the two parts |
| JsonRoundTrip.AlphaByte | src/index.ts:139-140 | `((symbol & 7) << 5) \| (a << 2) \| ((b >> 4) & 3)` is the sum of the three parts for a 3-bit a |
| JsonRoundTrip.HiddenByte | src/index.ts:141-142 | the hidden bit and the top seven symbol bits add up |
| JsonRoundTrip.TopPair | src/index.ts:146 | `(z >> 4) & 3` is the top two bits of a 6-bit z |
| JsonRoundTrip.LayerWords | src/index.ts:136-147 | the packed record holds the property word and the colour word the decoder reads |
| JsonRoundTrip.UnpackWords | src/helpers/SarParser.ts:39-48 | the decoder's bit fields of those words are the layer's fields |
| JsonRoundTrip.LayerRoundTrip | src/index.ts:127-148 | decoding the record packed for an in-range layer gives that layer |
| JsonRoundTrip.PackedLayers | src/index.ts:127-148 | the decoder reads a packed run of in-range layers back |
| JsonRoundTrip.PackedName | src/index.ts:149-156 | the decoder's name units over the packed name are the name |
| JsonRoundTrip.PackedHeader | src/index.ts:117-125 | the header packed for an in-range document holds its author, layer count, height and width unchanged, and the stored sound |
| JsonRoundTrip.JsonRoundTrip | src/index.ts:111-158 | setting an in-range document and reading it back gives the document, with the sound as the number stored for it |
| JsonRoundTrip.FileRoundTrip | src/index.ts:45-158 | a document set, written as a file and loaded into an object with the same cipher parses back the same way |
| JsonRoundTrip.RedSpills | src/index.ts:137 | red is not masked: a red of 70 reads back as red 6 with the spilled bit in green |

## Left out

- Floating-point reads and writes (`readFloat32/64`, `writeFloat32/64`, the `f32`/`f64` registry names and the `float32`/`float64` accessors): IEEE 754 encoding is not modelled.
- 64-bit integer widths: the code has none; only 8, 16 and 32 bits.
- `TextDecoder('utf-16')`: the name is kept as its sequence of UTF-16 code units and not decoded to a string.
- JsonRoundTrip.JsonRoundTrip: the decoder is built with its defaults (`src/helpers/SarParser.ts:130-135`), so in the program a leading code unit 0xFEFF is taken as a byte order mark and dropped, and every unpaired surrogate (a unit in 0xD800..0xDFFF without its partner) comes back as 0xFFFD. The lemma gives back the code units themselves; a name with either is not returned unchanged by the program.
- JsonRoundTrip.FileRoundTrip: the same two cases: a leading 0xFEFF is dropped and unpaired surrogates become 0xFFFD in the program's decoded name, while the lemma states the code units.
- The Blowfish constant tables (`BlowfishConstants`) are not part of this model. The initial cipher is a parameter of the key schedule and of the `SymbolArt` constructor. Every cipher property holds for any tables.
- The `data` getter encrypts the stored payload in place. The model returns the file and leaves the state as it was.
- SymbolArt.SoundByte: as the file is written, `Sounds` is the default import of `src/interfaces/SoundType.ts`, which has only a named export (`src/index.ts:7`), so `Sounds` is `undefined` and the lookup at `src/index.ts:125` throws a `TypeError`. `SoundByte` is the lookup in the named table, `SymbolArt.SoundLookup` models both bindings, and the row under Findings records the discrepancy.
- SymbolArt.SetJson: as the file is written, the `json` setter throws that `TypeError` on every document before it replaces the payload (`SymbolArt.DefaultImportFails`). `SetJson` is the setter with the named import (`SymbolArt.NamedImportSetsJson`), and the rest of the model uses it.
- The `json` setter, with the named import, stores a `Uint8Array` where an `ArrayBuffer` is declared (`src/index.ts:157`), and so does the constructor (`src/index.ts:39`). The model stores the bytes. In the program, `new DataView` on a `Uint8Array` throws a `TypeError`, so the getters below throw on a new object, and would throw after a `json` setter that got as far as storing its payload. They work only after the `data` setter, which stores an `ArrayBuffer`.
- SymbolArt.Data: in the program the `data` getter throws a `TypeError` on a new object, and would after a `json` setter with the named import (as written that setter itself throws first), at `new DataView(buffer, …)` in `src/helpers/Blowfish.ts:64`. The model returns the file bytes it would write.
- SymbolArt.Json: in the program the `json` getter throws a `TypeError` on a new object, and would after a `json` setter with the named import (as written that setter itself throws first), at `new DataView(this.buffer)` in `src/helpers/Cursor.ts:21`, reached through `src/index.ts:103`. The model parses the stored bytes.
- SymbolArt.InitData: in the program the `data` getter on a new object throws the same `TypeError` (`src/helpers/Blowfish.ts:64`). The lemma states the bytes the getter would write.
- JsonRoundTrip.JsonRoundTrip: as written, this call sequence fails at its first step, because the `json` setter throws in the sound lookup (`SymbolArt.DefaultImportFails`). With the named import it gets further and throws a `TypeError` in the `json` getter (`src/helpers/Cursor.ts:21`, through `src/index.ts:103`), because the setter stored a `Uint8Array` (`src/index.ts:157`). The lemma states what the bytes decode to.
- JsonRoundTrip.FileRoundTrip: as written, this call sequence fails at its first step, because the `json` setter throws in the sound lookup (`SymbolArt.DefaultImportFails`). With the named import it throws a `TypeError` in the `data` getter (`src/helpers/Blowfish.ts:64`), because the setter stored a `Uint8Array` (`src/index.ts:157`). After the `data` setter the loaded payload is an `ArrayBuffer`, so the final `json` getter would not throw. The lemma states what the bytes decode to.
- The `data` setter on a failed decompression has already replaced the payload with the decrypted bytes. The model returns the error instead.
- `console.warn` in the name loop, `Meta` (version and build date), and the build and test configuration files are not modelled.
- Schema.UnregisteredName: the registry is a plain object (`src/helpers/AbstractParser.ts:30-32`), so `registry[schema]` also finds the names `Object.prototype` carries. In the program `constructor` calls `Object(cursor)` and returns the cursor object, `toString` yields `"[object Undefined]"`, `hasOwnProperty` and the other methods that need a receiver throw, and `__proto__` yields `{}`. The model treats every name the registries do not define as unregistered and yields `undefined` for it.
- SymbolArt.SoundByte: with the named import, `Sounds[...]` at `src/index.ts:125` also finds inherited names; for `constructor`, `toString` and the like it finds a function, which the byte array stores as 0. The model stores 1 for every name the table does not define.
- Schema.ParseFields: an object schema here is an ordered list of named fields, read in the order declared. `Object.keys` (`src/helpers/AbstractParser.ts:70`) lists integer-like keys ("0", "17", …) first, in ascending order, then the other keys in insertion order, so a schema with integer-like keys is read in a different order by the program. Every schema of the code uses names only.
- Registry.Apply: a reader function is called with the cursor and the registry (`src/helpers/AbstractParser.ts:61-64`); a `Custom` reader here receives only the cursor, because a reader that takes the registry would put the registry type inside its own argument, which a Dafny datatype does not allow. No reader of the code uses its second argument.
- A registry entry that is a string or an object schema, rather than a reader function, is not modelled. Only integer readers and opaque functions are registry entries.
- Numbers are integers throughout. A non-integer field in a document given to the `json` setter is not modelled.
- `SarParser.ParseSar` always uses the base registry, as the `json` getter does. A caller-supplied registry overriding `u8` or `u32le` is not modelled for `parseSar`.
- The `layerCount` field of the document interface is never set by the decoder and never read by the encoder. It is not part of `Document.Art`.
- A failed cursor write leaves the buffer already grown. The model returns the error without the grown state.
- JsonRoundTrip.JsonRoundTrip: the sound comes back as a number. It is the stored number for a sound name and 1 for anything else, because the decoder yields numbers and the encoder maps only names.
- JsonRoundTrip.JsonRoundTrip: the round trip is proved only for documents whose fields fit their widths (`Document.ArtInRange`). Wider fields are truncated or spill, as `JsonRoundTrip.RedSpills` shows.
- Compression: the `data` getter always writes the uncompressed flag and the code has no compressor, so none is modelled.

## Findings

| source | as written | input that shows it | evidently intended | confidence | as-written member | corrected member |
|---|---|---|---|---|---|---|
| src/index.ts:7 | `import Sounds from '@/interfaces/SoundType'` takes the default export of a module that exports the table by name only (`src/interfaces/SoundType.ts:2`), so `Sounds` is `undefined` and `Sounds[data.sound]` at `src/index.ts:125` throws | any document given to the `json` setter | `import { Sounds } from '@/interfaces/SoundType'`, under which a sound name is stored as its number and anything else as 1 | not executed | SymbolArt.DefaultImportFails | SymbolArt.NamedImportSetsJson |
| src/helpers/__tests__/Decompress.spec.ts:41-48 | the test expects one control byte per literal to decompress to 41 42 43 (at least a first byte 0x41); by `src/helpers/Cursor.ts:43-54` and `src/helpers/Decompress.ts:12-55` the flag bits come from the first 0x05, least significant first: 1 for the literal 0x41, then 0 1, so the bytes 05 42 are read as the little-endian long-copy word 0x4205 (size 7, offset -6080), which reaches 6080 bytes back from a one-byte output, and the copy fails | 05 41 05 42 05 43 00 00 | three literals and the end marker under one control byte: 17 41 42 43 00 00, which decompresses to 41 42 43 | not executed | PrsVectors.SeparateFlagBytes | PrsVectors.ThreeLiterals |
