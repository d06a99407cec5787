/** Blowfish (Schneier, 1993) as the SymbolArt container uses it: 16
    Feistel rounds over pairs of 32-bit words read little-endian from each
    8-byte block, with the key schedule run against caller-supplied initial
    tables (the digits of pi are not reproduced here). */

module Blowfish {
  import opened Bytes

  type PArray = p: seq<bv32> | |p| == 18 witness seq(18, _ => 0)
  type SBox = s: seq<bv32> | |s| == 256 witness seq(256, _ => 0)
  type SBoxes = s: seq<SBox> | |s| == 4 witness seq(4, _ => ZeroBox)
  const ZeroBox: SBox := seq(256, _ => 0)

  /** The cipher state: the P array and the four S boxes. */
  datatype Cipher = Cipher(p: PArray, s: SBoxes)

  /** The round function F. Every operation on the words is taken modulo
      2^32, which is what the final unsigned shift of the sum yields. */
  function F(s: SBoxes, x: bv32): bv32 {
    var a := s[0][(x >> 24) as bv8 as int];
    var b := s[1][((x >> 16) & 0xFF) as bv8 as int];
    var c := s[2][((x >> 8) & 0xFF) as bv8 as int];
    var d := s[3][(x & 0xFF) as bv8 as int];
    Combine(a, b, c, d)
  }

  /** How F combines the four S-box words. */
  function Combine(a: bv32, b: bv32, c: bv32, d: bv32): bv32 {
    ((a + b) ^ c) + d
  }

  /** The round function indexes the four S boxes with the four bytes of
      its input, most significant byte first. */
  lemma RoundIndices(s: SBoxes, x: bv32)
    ensures var k := Word32BeBytes(x);
            F(s, x) == Combine(s[0][k[0]], s[1][k[1]], s[2][k[2]], s[3][k[3]])
  {
    BeIndices(x);
    hide Combine;
  }

  lemma BeIndices(x: bv32)
    ensures Word32BeBytes(x)[0] == (x >> 24) as bv8 as int
    ensures Word32BeBytes(x)[1] == ((x >> 16) & 0xFF) as bv8 as int
    ensures Word32BeBytes(x)[2] == ((x >> 8) & 0xFF) as bv8 as int
    ensures Word32BeBytes(x)[3] == (x & 0xFF) as bv8 as int
  {
    var o := BeOctets(x);
    assert o[0] == (x >> 24) as bv8;
    assert Word32BeBytes(x) == FromOctets(o);
  }

  /** Exclusive or of two words. Kept as a function of its own so that
      proofs about the rounds reason with the cancellation lemmas below
      rather than bit by bit. */
  function Xor(a: bv32, b: bv32): bv32 {
    a ^ b
  }

  lemma XorCancel(a: bv32, b: bv32)
    ensures Xor(Xor(a, b), b) == a
  {
  }

  lemma XorCancelPair(a: bv32, b: bv32, c: bv32)
    ensures Xor(Xor(Xor(Xor(a, b), c), b), c) == a
  {
  }

  /** The two halves of a block, as the rounds see them. */
  datatype Block = Block(l: bv32, r: bv32)

  /** Two encryption rounds, keyed by p[i] and p[i + 1]. */
  function EncStep(c: Cipher, i: nat, b: Block): Block
    requires i + 1 < 18
  {
    var l1 := Xor(b.l, c.p[i]);
    var r1 := Xor(Xor(b.r, F(c.s, l1)), c.p[i + 1]);
    Block(Xor(l1, F(c.s, r1)), r1)
  }

  /** Two rounds of encryption lose nothing: the input block is recovered
      from the output by running the rounds backwards. */
  lemma EncStepInvertible(c: Cipher, i: nat, b: Block)
    requires i + 1 < 18
    ensures var r := EncStep(c, i, b);
            var l1 := Xor(r.l, F(c.s, r.r));
            b == Block(Xor(l1, c.p[i]), Xor(Xor(r.r, c.p[i + 1]), F(c.s, l1)))
  {
    hide F, Xor;
    var l1 := Xor(b.l, c.p[i]);
    var f1 := F(c.s, l1);
    var r1 := Xor(Xor(b.r, f1), c.p[i + 1]);
    XorCancel(l1, F(c.s, r1));
    XorCancel(b.l, c.p[i]);
    XorCancel(Xor(b.r, f1), c.p[i + 1]);
    XorCancel(b.r, f1);
  }

  /** The first `n` double rounds of encryption (keys p[0] .. p[2n - 1]). */
  function EncLoop(c: Cipher, b: Block, n: nat): Block
    requires n <= 8
  {
    if n == 0 then b else EncStep(c, 2 * (n - 1), EncLoop(c, b, n - 1))
  }

  /** Two decryption rounds, keyed by p[i + 1] and p[i]. */
  function DecStep(c: Cipher, i: nat, b: Block): Block
    requires i + 1 < 18
  {
    var l1 := Xor(b.l, c.p[i + 1]);
    var r1 := Xor(Xor(b.r, F(c.s, l1)), c.p[i]);
    Block(Xor(l1, F(c.s, r1)), r1)
  }

  /** Two rounds of decryption lose nothing either. */
  lemma DecStepInvertible(c: Cipher, i: nat, b: Block)
    requires i + 1 < 18
    ensures var r := DecStep(c, i, b);
            var l1 := Xor(r.l, F(c.s, r.r));
            b == Block(Xor(l1, c.p[i + 1]), Xor(Xor(r.r, c.p[i]), F(c.s, l1)))
  {
    hide F, Xor;
    var l1 := Xor(b.l, c.p[i + 1]);
    var f1 := F(c.s, l1);
    var r1 := Xor(Xor(b.r, f1), c.p[i]);
    XorCancel(l1, F(c.s, r1));
    XorCancel(b.l, c.p[i + 1]);
    XorCancel(Xor(b.r, f1), c.p[i]);
    XorCancel(b.r, f1);
  }

  /** The first `n` double rounds of decryption (keys p[17] down to
      p[18 - 2n]). */
  function DecLoop(c: Cipher, b: Block, n: nat): Block
    requires n <= 8
  {
    if n == 0 then b else DecStep(c, 16 - 2 * (n - 1), DecLoop(c, b, n - 1))
  }

  /** The form in which decryption carries the encryption state: halves
      swapped, each whitened with one P entry. */
  function Swapped(b: Block, pl: bv32, pr: bv32): Block {
    Block(Xor(b.r, pl), Xor(b.l, pr))
  }

  /** One block: 16 rounds, the output whitening with p[17] and p[16], and
      the halves swapped (the right word is stored first). */
  function EncryptBlock(c: Cipher, b: Block): Block {
    Swapped(EncLoop(c, b, 8), c.p[17], c.p[16])
  }

  /** The inverse block operation: the same rounds with the P array
      walked backwards, whitening with p[0] and p[1]. */
  function DecryptBlock(c: Cipher, b: Block): Block {
    Swapped(DecLoop(c, b, 8), c.p[0], c.p[1])
  }

  /** The decryption rounds are the encryption rounds keyed with the P
      array reversed. */
  lemma {:induction false} DecLoopIsEncLoop(c: Cipher, b: Block, n: nat)
    requires n <= 8
    ensures DecLoop(c, b, n) == EncLoop(Cipher(Reverse(c.p), c.s), b, n)
  {
    hide EncStep, DecStep, F, Xor;
    if n > 0 {
      var rev := Cipher(Reverse(c.p), c.s);
      var i := 2 * (n - 1);
      ReverseIndex(c.p, i);
      ReverseIndex(c.p, i + 1);
      DecLoopIsEncLoop(c, b, n - 1);
      DecStepIsEncStep(c, rev, i, DecLoop(c, b, n - 1));
    }
  }

  lemma DecStepIsEncStep(c: Cipher, rev: Cipher, i: nat, b: Block)
    requires i + 1 < 18 && rev.s == c.s
    requires rev.p[i] == c.p[17 - i] && rev.p[i + 1] == c.p[16 - i]
    ensures DecStep(c, 16 - i, b) == EncStep(rev, i, b)
  {
  }

  /** Decrypting a block is encrypting it with the P array reversed. */
  lemma DecryptIsReversedEncrypt(c: Cipher, b: Block)
    ensures DecryptBlock(c, b) == EncryptBlock(Cipher(Reverse(c.p), c.s), b)
  {
    DecLoopIsEncLoop(c, b, 8);
    ReverseIndex(c.p, 16);
    ReverseIndex(c.p, 17);
  }

  /** Decrypting two rounds undoes the matching two rounds of encryption,
      on the swapped and whitened form of the state. */
  lemma DecStepUndoesEncStep(c: Cipher, m: nat, b: Block)
    requires m < 8
    ensures DecStep(c, 2 * m + 2, Swapped(EncStep(c, 2 * m, b), c.p[2 * m + 3], c.p[2 * m + 2]))
         == Swapped(b, c.p[2 * m + 1], c.p[2 * m])
  {
    hide F, Xor;
    var l1 := Xor(b.l, c.p[2 * m]);
    var f1 := F(c.s, l1);
    var r1 := Xor(Xor(b.r, f1), c.p[2 * m + 1]);
    var f2 := F(c.s, r1);
    XorCancel(r1, c.p[2 * m + 3]);
    XorCancelPair(l1, f2, c.p[2 * m + 2]);
    XorCancelPair(b.r, f1, c.p[2 * m + 1]);
    XorCancel(Xor(r1, f1), c.p[2 * m + 1]);
  }

  /** After `k` double rounds of decryption applied to an encrypted block,
      the state is the encryption state `8 - k` double rounds in, in
      swapped and whitened form. */
  lemma {:induction false} DecLoopUndoesEncLoop(c: Cipher, b: Block, k: nat)
    requires k <= 8
    ensures DecLoop(c, EncryptBlock(c, b), k)
         == Swapped(EncLoop(c, b, 8 - k), c.p[17 - 2 * k], c.p[16 - 2 * k])
  {
    hide F, Xor, EncStep, DecStep, Swapped;
    if k > 0 {
      DecLoopUndoesEncLoop(c, b, k - 1);
      DecStepUndoesEncStep(c, 8 - k, EncLoop(c, b, 8 - k));
    }
  }

  /** Decryption inverts encryption on every block, for every cipher state. */
  lemma BlockRoundTrip(c: Cipher, b: Block)
    ensures DecryptBlock(c, EncryptBlock(c, b)) == b
  {
    DecLoopUndoesEncLoop(c, b, 8);
    XorCancel(b.l, c.p[0]);
    XorCancel(b.r, c.p[1]);
  }

  /** Encryption inverts decryption too: both are bijections on blocks. */
  lemma DecryptRoundTrip(c: Cipher, b: Block)
    ensures EncryptBlock(c, DecryptBlock(c, b)) == b
  {
    var rev := Cipher(Reverse(c.p), c.s);
    DecryptIsReversedEncrypt(c, b);
    DecryptIsReversedEncrypt(rev, EncryptBlock(rev, b));
    ReverseReverse(c.p);
    BlockRoundTrip(rev, b);
  }

  /** The two words of an 8-byte block, little-endian. */
  function Words(block: seq<Byte>): Block
    requires |block| == 8
  {
    Block(Word32Le(block[..4]), Word32Le(block[4..]))
  }

  /** The 8 bytes holding two words, little-endian. */
  function Unwords(b: Block): (r: seq<Byte>)
    ensures |r| == 8
    ensures Words(r) == b
  {
    var lo := Word32LeBytes(b.l);
    var hi := Word32LeBytes(b.r);
    assert (lo + hi)[..4] == lo && (lo + hi)[4..] == hi;
    lo + hi
  }

  lemma UnwordsWords(block: seq<Byte>)
    requires |block| == 8
    ensures Unwords(Words(block)) == block
  {
    Word32LeBytesOfWord(block[..4]);
    Word32LeBytesOfWord(block[4..]);
    assert block == block[..4] + block[4..];
  }

  /** The whole blocks of `n` bytes are one block and the whole blocks of
      the `n - 8` bytes after it. */
  lemma WholeBlocks(n: nat)
    requires n >= 8
    ensures (n - 8) / 8 * 8 + 8 == n / 8 * 8
  {
    DivModUnique(n, 8, (n - 8) / 8 + 1, (n - 8) % 8);
  }

  /** Buffer encryption: every whole 8-byte block is encrypted in place;
      a trailing partial block is left as it is. */
  function Encrypt(c: Cipher, data: seq<Byte>): (r: seq<Byte>)
    ensures |r| == |data|
    ensures r[|data| / 8 * 8..] == data[|data| / 8 * 8..]
    decreases |data|
  {
    if |data| < 8 then data
    else
      var block := data[..8];
      hide EncryptBlock, Words;
      var rest := Encrypt(c, data[8..]);
      var head := Unwords(EncryptBlock(c, Words(block)));
      WholeBlocks(|data|);
      assert (head + rest)[|data| / 8 * 8..] == rest[(|data| - 8) / 8 * 8..];
      head + rest
  }

  /** Buffer decryption, block by block like `Encrypt`. */
  function Decrypt(c: Cipher, data: seq<Byte>): (r: seq<Byte>)
    ensures |r| == |data|
    ensures r[|data| / 8 * 8..] == data[|data| / 8 * 8..]
    decreases |data|
  {
    if |data| < 8 then data
    else
      var block := data[..8];
      hide DecryptBlock, Words;
      var rest := Decrypt(c, data[8..]);
      var head := Unwords(DecryptBlock(c, Words(block)));
      WholeBlocks(|data|);
      assert (head + rest)[|data| / 8 * 8..] == rest[(|data| - 8) / 8 * 8..];
      head + rest
  }

  /** Decrypting an encrypted buffer gives the original bytes back. */
  lemma {:induction false} RoundTrip(c: Cipher, data: seq<Byte>)
    ensures Decrypt(c, Encrypt(c, data)) == data
    decreases |data|
  {
    hide EncryptBlock, DecryptBlock, Words;
    if |data| >= 8 {
      var block := data[..8];
      var e := EncryptBlock(c, Words(block));
      var enc := Encrypt(c, data);
      assert enc[..8] == Unwords(e);
      assert enc[8..] == Encrypt(c, data[8..]);
      RoundTrip(c, data[8..]);
      BlockRoundTrip(c, Words(block));
      UnwordsWords(block);
      assert data == block + data[8..];
    }
  }

  /** Block `i` of an encrypted buffer is the encryption of block `i` of
      the plain buffer: each whole block is encrypted on its own. */
  lemma {:induction false} EncryptBlockAt(c: Cipher, data: seq<Byte>, i: nat)
    requires i < |data| / 8
    ensures 8 * i + 8 <= |Encrypt(c, data)|
    ensures Encrypt(c, data)[8 * i..8 * i + 8]
         == Unwords(EncryptBlock(c, Words(data[8 * i..8 * i + 8])))
    decreases i
  {
    hide Encrypt, EncryptBlock, Words, Unwords;
    EncryptSplit(c, data);
    var head, rest := Unwords(EncryptBlock(c, Words(data[..8]))), Encrypt(c, data[8..]);
    if i > 0 {
      EncryptBlockAt(c, data[8..], i - 1);
      BlockOfTail(data, 8 * i);
      assert (head + rest)[8..] == rest;
      BlockOfTail(head + rest, 8 * i);
    } else {
      assert (head + rest)[0..8] == head;
    }
  }

  /** Block `k / 8` of a buffer is block `k / 8 - 1` of the buffer
      without its first block. */
  lemma BlockOfTail(s: seq<Byte>, k: nat)
    requires 8 <= k && k + 8 <= |s|
    ensures s[8..][k - 8..k] == s[k..k + 8]
  {
    var tail := s[8..];
    assert forall j :: k <= j < k + 8 ==> tail[j - 8] == s[j];
  }

  /** A buffer of at least one block is its first block, encrypted, then the
      rest of the buffer, encrypted. */
  lemma EncryptSplit(c: Cipher, data: seq<Byte>)
    requires |data| >= 8
    ensures Encrypt(c, data) == Unwords(EncryptBlock(c, Words(data[..8]))) + Encrypt(c, data[8..])
  {
    hide EncryptBlock, Words, Unwords;
  }

  /** Block `i` of a decrypted buffer is the decryption of block `i` of
      the encrypted buffer. */
  lemma {:induction false} DecryptBlockAt(c: Cipher, data: seq<Byte>, i: nat)
    requires i < |data| / 8
    ensures 8 * i + 8 <= |Decrypt(c, data)|
    ensures Decrypt(c, data)[8 * i..8 * i + 8]
         == Unwords(DecryptBlock(c, Words(data[8 * i..8 * i + 8])))
    decreases i
  {
    hide Decrypt, DecryptBlock, Words, Unwords;
    DecryptSplit(c, data);
    var head, rest := Unwords(DecryptBlock(c, Words(data[..8]))), Decrypt(c, data[8..]);
    if i > 0 {
      DecryptBlockAt(c, data[8..], i - 1);
      BlockOfTail(data, 8 * i);
      assert (head + rest)[8..] == rest;
      BlockOfTail(head + rest, 8 * i);
    } else {
      assert (head + rest)[0..8] == head;
    }
  }

  /** A buffer of at least one block is its first block, decrypted, then the
      rest of the buffer, decrypted. */
  lemma DecryptSplit(c: Cipher, data: seq<Byte>)
    requires |data| >= 8
    ensures Decrypt(c, data) == Unwords(DecryptBlock(c, Words(data[..8]))) + Decrypt(c, data[8..])
  {
    hide DecryptBlock, Words, Unwords;
  }

  /** The key as big-endian 32-bit words; trailing bytes that do not fill
      a word are ignored. */
  function KeyWords(key: seq<Byte>): (r: seq<bv32>)
    ensures |r| == |key| / 4
  {
    seq(|key| / 4, i requires 0 <= i < |key| / 4 => Word32Be(key[4 * i..4 * i + 4]))
  }

  /** Each key word holds four consecutive key bytes, most significant
      first, and bytes past the last whole word play no part. */
  lemma KeyWordsBytes(key: seq<Byte>, extra: seq<Byte>)
    requires |key| % 4 == 0 && |extra| < 4
    ensures forall i :: 0 <= i < |key| / 4 ==> Word32BeBytes(KeyWords(key)[i]) == key[4 * i..4 * i + 4]
    ensures KeyWords(key + extra) == KeyWords(key)
  {
    forall i | 0 <= i < |key| / 4
      ensures Word32BeBytes(KeyWords(key)[i]) == key[4 * i..4 * i + 4]
    {
      Word32BeBytesOfWord(key[4 * i..4 * i + 4]);
    }
    var whole := key + extra;
    assert |whole| / 4 == |key| / 4;
    forall i | 0 <= i < |key| / 4
      ensures KeyWords(whole)[i] == KeyWords(key)[i]
    {
      assert whole[4 * i..4 * i + 4] == key[4 * i..4 * i + 4];
    }
  }

  /** The P array XORed with the key words, cycling through the key. An
      empty key leaves the array as it is (the lookup of index `i % 0`
      yields no value, which XOR treats as zero). */
  function MixKey(p: PArray, key: seq<bv32>): (r: PArray)
    ensures |key| == 0 ==> r == p
    ensures |key| > 0 ==> forall i :: 0 <= i < 18 ==> r[i] == Xor(p[i], key[i % |key|])
  {
    if |key| == 0 then p
    else seq(18, i requires 0 <= i < 18 => Xor(p[i], key[i % |key|]))
  }

  /** Mixing the same key in twice restores the P array. */
  lemma MixKeyTwice(p: PArray, key: seq<bv32>)
    ensures MixKey(MixKey(p, key), key) == p
  {
    if |key| > 0 {
      forall i | 0 <= i < 18
        ensures MixKey(MixKey(p, key), key)[i] == p[i]
      {
        XorCancel(p[i], key[i % |key|]);
      }
    }
  }

  /** A key and that key written twice over mix in identically. */
  lemma MixKeyRepeated(p: PArray, key: seq<bv32>)
    ensures MixKey(p, key + key) == MixKey(p, key)
  {
    if |key| > 0 {
      forall i | 0 <= i < 18
        ensures (key + key)[i % (2 * |key|)] == key[i % |key|]
      {
        CycleTwice(i, |key|);
      }
    }
  }

  /** Position `i` in a cycle of length `2n` made of two copies of a cycle
      of length `n` falls on position `i mod n` of one of the copies. */
  lemma CycleTwice(i: nat, n: nat)
    requires n > 0
    ensures i % (2 * n) < n ==> i % (2 * n) == i % n
    ensures i % (2 * n) >= n ==> i % (2 * n) - n == i % n
  {
    var q := i / (2 * n);
    var j := i % (2 * n);
    assert i == q * (2 * n) + j;
    assert q * (2 * n) == (2 * q) * n;
    if j < n {
      DivModUnique(i, n, 2 * q, j);
    } else {
      DivModUnique(i, n, 2 * q + 1, j - n);
    }
  }

  /** The state of the key schedule: the cipher so far and the block last
      encrypted, which seeds the next encryption. */
  datatype Schedule = Schedule(cipher: Cipher, last: Block)

  /** The two P entries from `i` on, as a block. */
  function PairP(p: PArray, i: nat): Block
    requires i + 1 < 18
  {
    Block(p[i], p[i + 1])
  }

  /** The P array partway through the schedule: entries below `i` taken
      from `done`, the rest from `orig`. */
  function PartP(done: PArray, orig: PArray, i: nat): (r: PArray)
    ensures forall j :: 0 <= j < 18 ==> r[j] == if j < i then done[j] else orig[j]
  {
    seq(18, j requires 0 <= j < 18 => if j < i then done[j] else orig[j])
  }

  /** P entries `i` and `i + 1` replaced by the two words of a block. */
  function StoreP(p: PArray, i: nat, e: Block): (r: PArray)
    requires i + 1 < 18
    ensures PairP(r, i) == e
    ensures forall j :: 0 <= j < 18 && j != i && j != i + 1 ==> r[j] == p[j]
  {
    p[i := e.l][i + 1 := e.r]
  }

  /** Entry `k` of the S boxes counted flat: box `k / 256`, entry `k % 256`. */
  function Entry(s: SBoxes, k: nat): bv32
    requires k < 1024
  {
    s[k / 256][k % 256]
  }

  /** The two flat S-box entries from an even `k` on, as a block. */
  function PairS(s: SBoxes, k: nat): Block
    requires k < 1024 && k % 2 == 0
  {
    Block(Entry(s, k), Entry(s, k + 1))
  }

  /** The S boxes partway through the schedule: flat entries below `k`
      taken from `done`, the rest from `orig`. */
  function PartS(done: SBoxes, orig: SBoxes, k: nat): (r: SBoxes)
    ensures forall j :: 0 <= j < 1024 ==> Entry(r, j) == if j < k then Entry(done, j) else Entry(orig, j)
  {
    seq(4, b requires 0 <= b < 4 =>
      seq(256, e requires 0 <= e < 256 => if 256 * b + e < k then done[b][e] else orig[b][e]))
  }

  /** Flat S-box entries `k` and `k + 1` replaced by the two words of a
      block. */
  function StoreS(s: SBoxes, k: nat, e: Block): (r: SBoxes)
    requires k < 1024 && k % 2 == 0
    ensures PairS(r, k) == e
    ensures forall j :: 0 <= j < 1024 && j != k && j != k + 1 ==> Entry(r, j) == Entry(s, j)
  {
    var box: SBox := s[k / 256][k % 256 := e.l][k % 256 + 1 := e.r];
    s[k / 256 := box]
  }

  /** The P pairs from entry `from` on are chained: each pair after the
      one at `from` is the encryption of the pair before it, under the
      S boxes `s` and the P array with the entries before it taken from
      `done` and the rest from `orig`. */
  predicate ChainP(done: PArray, orig: PArray, s: SBoxes, from: nat) {
    forall j :: from <= j < 16 && j % 2 == 0 ==>
      PairP(done, j + 2) == EncryptBlock(Cipher(PartP(done, orig, j + 2), s), PairP(done, j))
  }

  /** The S pairs from flat entry `from` on are chained in the same way,
      under the P array `p`. */
  predicate ChainS(p: PArray, done: SBoxes, orig: SBoxes, from: nat) {
    forall j :: from <= j < 1022 && j % 2 == 0 ==>
      PairS(done, j + 2) == EncryptBlock(Cipher(p, PartS(done, orig, j + 2)), PairS(done, j))
  }

  /** Filling the P array from entry `i` on: encrypt the running block with
      the cipher as it stands, store its two words in the next two entries.
      The first stored pair is the encryption of `b`; the rest are chained. */
  function ScheduleP(c: Cipher, b: Block, i: nat): (r: Schedule)
    requires i <= 18 && i % 2 == 0
    ensures r.cipher.s == c.s
    ensures forall j :: 0 <= j < i ==> r.cipher.p[j] == c.p[j]
    ensures i < 18 ==> PairP(r.cipher.p, i) == EncryptBlock(c, b)
    ensures ChainP(r.cipher.p, c.p, c.s, i)
    ensures r.last == if i < 18 then PairP(r.cipher.p, 16) else b
    decreases 18 - i
  {
    if i == 18 then Schedule(c, b)
    else
      var e := EncryptBlock(c, b);
      var next := Cipher(StoreP(c.p, i, e), c.s);
      var r := ScheduleP(next, e, i + 2);
      SchedulePStep(c, i, e, next.p, r.cipher.p);
      r
  }

  /** One step of the P schedule extends the chain by the pair it stores. */
  lemma SchedulePStep(c: Cipher, i: nat, e: Block, next: PArray, done: PArray)
    requires i + 1 < 18 && i % 2 == 0 && next == StoreP(c.p, i, e)
    requires AgreeBelow(done, next, i + 2)
    requires i + 2 < 18 ==> PairP(done, i + 2) == EncryptBlock(Cipher(next, c.s), e)
    requires ChainP(done, next, c.s, i + 2)
    ensures PairP(done, i) == e
    ensures ChainP(done, c.p, c.s, i)
  {
    hide EncryptBlock;
    assert PairP(done, i) == PairP(next, i) by {
      assert done[i] == next[i] && done[i + 1] == next[i + 1];
    }
    hide PartP, StoreP, PairP, AgreeBelow;
    forall j | i <= j < 16 && j % 2 == 0
      ensures PairP(done, j + 2) == EncryptBlock(Cipher(PartP(done, c.p, j + 2), c.s), PairP(done, j))
    {
      PartPStored(c.p, i, e, next, done, j + 2);
    }
  }

  /** The first `n` entries of two P arrays agree. */
  predicate AgreeBelow(a: PArray, b: PArray, n: nat) {
    forall j :: 0 <= j < n && j < 18 ==> a[j] == b[j]
  }

  /** Once entries `i` and `i + 1` of `done` hold the stored pair, taking
      `done` up to any `m > i + 1` reads the same from `orig` as from the
      array with the pair stored. */
  lemma PartPStored(orig: PArray, i: nat, e: Block, next: PArray, done: PArray, m: nat := i + 2)
    requires i + 1 < 18 && next == StoreP(orig, i, e) && i + 2 <= m
    requires AgreeBelow(done, next, i + 2)
    ensures PartP(done, orig, m) == PartP(done, next, m)
    ensures m == i + 2 ==> PartP(done, orig, m) == next
  {
    var a, b := PartP(done, orig, m), PartP(done, next, m);
    forall j | 0 <= j < 18 ensures a[j] == b[j] {}
    if m == i + 2 {
      forall j | 0 <= j < 18 ensures a[j] == next[j] {}
    }
  }

  /** Filling the S boxes from flat entry `k` on, in the same way. */
  function ScheduleS(c: Cipher, b: Block, k: nat): (r: Schedule)
    requires k <= 1024 && k % 2 == 0
    ensures r.cipher.p == c.p
    ensures forall j :: 0 <= j < k ==> Entry(r.cipher.s, j) == Entry(c.s, j)
    ensures k < 1024 ==> PairS(r.cipher.s, k) == EncryptBlock(c, b)
    ensures ChainS(c.p, r.cipher.s, c.s, k)
    ensures r.last == if k < 1024 then PairS(r.cipher.s, 1022) else b
    decreases 1024 - k
  {
    if k == 1024 then Schedule(c, b)
    else
      var e := EncryptBlock(c, b);
      var next := Cipher(c.p, StoreS(c.s, k, e));
      var r := ScheduleS(next, e, k + 2);
      ScheduleSStep(c, k, e, next.s, r.cipher.s);
      r
  }

  /** S boxes that agree on every flat entry are equal. */
  lemma EntriesEqual(a: SBoxes, b: SBoxes)
    requires forall j :: 0 <= j < 1024 ==> Entry(a, j) == Entry(b, j)
    ensures a == b
  {
    forall x, y | 0 <= x < 4 && 0 <= y < 256
      ensures a[x][y] == b[x][y]
    {
      var j := 256 * x + y;
      assert j / 256 == x && j % 256 == y;
      assert Entry(a, j) == Entry(b, j);
    }
    forall x | 0 <= x < 4
      ensures a[x] == b[x]
    {
    }
  }

  /** One step of the S schedule extends the chain by the pair it stores. */
  lemma ScheduleSStep(c: Cipher, k: nat, e: Block, next: SBoxes, done: SBoxes)
    requires k < 1024 && k % 2 == 0 && next == StoreS(c.s, k, e)
    requires forall j :: 0 <= j < k + 2 ==> Entry(done, j) == Entry(next, j)
    requires k + 2 < 1024 ==> PairS(done, k + 2) == EncryptBlock(Cipher(c.p, next), e)
    requires ChainS(c.p, done, next, k + 2)
    ensures PairS(done, k) == e
    ensures ChainS(c.p, done, c.s, k)
  {
    assert PairS(done, k) == PairS(next, k);
    PartSAgree(done, c.s, next, k + 2);
    PartSNext(done, next, k + 2);
    hide *;
    ChainSExtend(c.p, done, c.s, next, k);
  }

  /** Once the entries below `m` are those of `done`, the boxes are `done`
      up to `m` and `b` after it. */
  lemma PartSNext(done: SBoxes, b: SBoxes, m: nat)
    requires forall j :: 0 <= j < m && j < 1024 ==> Entry(done, j) == Entry(b, j)
    ensures PartS(done, b, m) == b
  {
    EntriesEqual(PartS(done, b, m), b);
  }

  /** The chain from `k + 2` on, under boxes that agree with `orig` from
      `k + 2` on, and one more link give the chain from `k` on. */
  lemma ChainSExtend(p: PArray, done: SBoxes, orig: SBoxes, next: SBoxes, k: nat)
    requires k < 1024 && k % 2 == 0
    requires forall j :: k + 2 <= j < 1024 ==> Entry(next, j) == Entry(orig, j)
    requires ChainS(p, done, next, k + 2)
    requires k + 2 < 1024 ==> PairS(done, k + 2) == EncryptBlock(Cipher(p, PartS(done, orig, k + 2)), PairS(done, k))
    ensures ChainS(p, done, orig, k)
  {
    hide EncryptBlock, PartS, PairS, Entry;
    forall j | k <= j < 1022 && j % 2 == 0
      ensures PairS(done, j + 2) == EncryptBlock(Cipher(p, PartS(done, orig, j + 2)), PairS(done, j))
    {
      if j > k {
        PartSAgree(done, orig, next, j + 2);
      }
    }
  }

  /** Two S-box states that agree from flat entry `m` on look the same
      once the entries below `m` are taken from `done`. */
  lemma PartSAgree(done: SBoxes, a: SBoxes, b: SBoxes, m: nat)
    requires forall j :: m <= j < 1024 ==> Entry(a, j) == Entry(b, j)
    ensures PartS(done, a, m) == PartS(done, b, m)
  {
    EntriesEqual(PartS(done, a, m), PartS(done, b, m));
  }

  /** Key expansion: mix the key into the initial P array, then replace
      every P entry and every S-box entry by successive encryptions of an
      all-zero block. The initial tables are a parameter. The result is
      pinned down pair by pair: the first P pair is the encryption of the
      zero block under the mixed P array, the first S pair the encryption of
      the last P pair under the final P array, and every later pair the
      encryption of the pair before it under the tables filled so far. */
  function Expand(key: seq<Byte>, tables: Cipher): (r: Cipher)
    ensures var p0 := MixKey(tables.p, KeyWords(key));
            PairP(r.p, 0) == EncryptBlock(Cipher(p0, tables.s), Block(0, 0)) && ChainP(r.p, p0, tables.s, 0)
    ensures PairS(r.s, 0) == EncryptBlock(Cipher(r.p, tables.s), PairP(r.p, 16))
    ensures ChainS(r.p, r.s, tables.s, 0)
  {
    var c0 := Cipher(MixKey(tables.p, KeyWords(key)), tables.s);
    var sp := ScheduleP(c0, Block(0, 0), 0);
    ScheduleS(sp.cipher, sp.last, 0).cipher
  }

  /** Key bytes past the last whole word do not change the expanded key. */
  lemma ExpandWholeWords(key: seq<Byte>, extra: seq<Byte>, tables: Cipher)
    requires |key| % 4 == 0 && |extra| < 4
    ensures Expand(key + extra, tables) == Expand(key, tables)
  {
    KeyWordsBytes(key, extra);
  }

  lemma KeyWordsRepeated(key: seq<Byte>)
    requires |key| % 4 == 0
    ensures KeyWords(key + key) == KeyWords(key) + KeyWords(key)
  {
    hide Word32Be;
    var n := |key| / 4;
    var kk := key + key;
    forall i | 0 <= i < 2 * n
      ensures KeyWords(kk)[i] == (KeyWords(key) + KeyWords(key))[i]
    {
      if i < n {
        assert kk[4 * i..4 * i + 4] == key[4 * i..4 * i + 4];
      } else {
        assert kk[4 * i..4 * i + 4] == key[4 * (i - n)..4 * (i - n) + 4];
      }
    }
  }

  /** A key written twice over expands to the same cipher as the key. */
  lemma ExpandRepeatedKey(key: seq<Byte>, tables: Cipher)
    requires |key| % 4 == 0
    ensures Expand(key + key, tables) == Expand(key, tables)
  {
    KeyWordsRepeated(key);
    MixKeyRepeated(tables.p, KeyWords(key));
  }
}
