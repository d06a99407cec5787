/** Bytes and the integer encodings the codec uses: the low byte of a
    number, little- and big-endian byte strings of 1, 2 or 4 bytes, the
    two's-complement view of an unsigned value, and 32-bit words built
    from four little- or big-endian bytes. */
module Bytes {

  /** A byte, as the number it holds. */
  type Byte = x: int | 0 <= x < 256

  /** The widths of the integer reads and writes: 8, 16 and 32 bits. */
  type Width = w: nat | w == 1 || w == 2 || w == 4 witness 1

  function Pow256(w: nat): (r: nat)
    ensures r > 0
  {
    if w == 0 then 1 else 256 * Pow256(w - 1)
  }

  /** Half the range of a width: the smallest value whose top bit is set. */
  function Half(w: Width): nat
  {
    Pow256(w) / 2
  }

  /** The low byte of an integer: what `v & 0xff` gives, and what storing
      `v` into a byte of a `Uint8Array` or `DataView` keeps. */
  function Lo8(v: int): (r: Byte)
    ensures r == v % 256
  {
    v % 256
  }

  /** The `w` low bytes of `v`, least significant first: what `DataView`
      stores for `setUint*`/`setInt*` with little-endian order. */
  function LeBytes(v: int, w: nat): (r: seq<Byte>)
    ensures |r| == w
    decreases w
  {
    if w == 0 then [] else [Lo8(v)] + LeBytes(v / 256, w - 1)
  }

  /** The unsigned value of a little-endian byte string. */
  function LeValue(s: seq<Byte>): (r: nat)
    ensures r < Pow256(|s|)
  {
    if s == [] then 0 else s[0] + 256 * LeValue(s[1..])
  }

  function Reverse<T>(s: seq<T>): (r: seq<T>)
    ensures |r| == |s|
  {
    if s == [] then [] else Reverse(s[1..]) + [s[0]]
  }

  /** Big-endian bytes are the little-endian bytes in reverse order. */
  function BeBytes(v: int, w: nat): (r: seq<Byte>)
    ensures |r| == w
  {
    Reverse(LeBytes(v, w))
  }

  function BeValue(s: seq<Byte>): (r: nat)
    ensures r < Pow256(|s|)
  {
    LeValue(Reverse(s))
  }

  /** Every byte of `s` is zero. */
  predicate AllZero(s: seq<Byte>) {
    forall i :: 0 <= i < |s| ==> s[i] == 0
  }

  /** A string of zero bytes reads as 0 in either byte order. */
  lemma ZeroValue(s: seq<Byte>)
    requires AllZero(s)
    ensures LeValue(s) == 0 && BeValue(s) == 0
  {
    ZeroLe(s);
    ZeroReverse(s);
    ZeroLe(Reverse(s));
  }

  lemma {:induction false} ZeroReverse(s: seq<Byte>)
    requires AllZero(s)
    ensures AllZero(Reverse(s))
  {
    if s != [] {
      assert AllZero(s[1..]) by {
        forall i | 0 <= i < |s[1..]| ensures s[1..][i] == 0 {
          assert s[1..][i] == s[i + 1];
        }
      }
      ZeroReverse(s[1..]);
      forall i | 0 <= i < |Reverse(s)| ensures Reverse(s)[i] == 0 {
        if i < |s| - 1 {
          assert Reverse(s)[i] == Reverse(s[1..])[i];
        }
      }
    }
  }

  lemma {:induction false} ZeroLe(s: seq<Byte>)
    requires AllZero(s)
    ensures LeValue(s) == 0
  {
    if s != [] {
      assert AllZero(s[1..]) by {
        forall i | 0 <= i < |s[1..]| ensures s[1..][i] == 0 {
          assert s[1..][i] == s[i + 1];
        }
      }
      ZeroLe(s[1..]);
    }
  }

  /** The two's-complement reading of an unsigned `w`-byte value: what
      `DataView.getInt*` returns for the bytes that `getUint*` reads as `u`. */
  function ToSigned(u: nat, w: Width): (r: int)
    requires u < Pow256(w)
    ensures -(Half(w) as int) <= r < Half(w)
    ensures r % Pow256(w) == u
  {
    if u >= Half(w) then u - Pow256(w) else u
  }

  /** Quotient and remainder are determined by the Euclidean equation. */
  lemma DivModUnique(v: int, d: int, q: int, r: int)
    requires d > 0 && 0 <= r < d && v == q * d + r
    ensures v / d == q && v % d == r
  {
    var q' := v / d;
    var r' := v % d;
    assert (q - q') * d == r' - r;
    MulMono(q - q', d);
  }

  lemma MulMono(k: int, d: int)
    requires d > 0
    ensures k >= 1 ==> k * d >= d
    ensures k <= -1 ==> k * d <= -d
  {
  }

  /** Splitting off the low byte of a remainder modulo `256 * m`. */
  lemma ModSplit(v: int, m: int)
    requires m > 0
    ensures v % (256 * m) == v % 256 + 256 * ((v / 256) % m)
  {
    var q := v / 256;
    var r0 := v % 256;
    assert v == q * 256 + r0;
    assert q == (q / m) * m + q % m;
    assert v == (q / m) * (256 * m) + (256 * (q % m) + r0);
    DivModUnique(v, 256 * m, q / m, 256 * (q % m) + r0);
  }

  /** Reading back the little-endian bytes of `v` gives `v` modulo 2^(8w):
      the round trip behind every write-then-read of the cursor. */
  lemma {:induction false} LeRoundTrip(v: int, w: nat)
    ensures LeValue(LeBytes(v, w)) == v % Pow256(w)
    decreases w
  {
    if w == 0 {
      assert LeBytes(v, 0) == [];
    } else {
      var s := LeBytes(v, w);
      assert s[1..] == LeBytes(v / 256, w - 1);
      LeRoundTrip(v / 256, w - 1);
      ModSplit(v, Pow256(w - 1));
    }
  }

  /** Element `i` of the reversal is element `|s| - 1 - i` of `s`. */
  lemma {:induction false} ReverseIndex<T>(s: seq<T>, i: nat)
    requires i < |s|
    ensures Reverse(s)[i] == s[|s| - 1 - i]
  {
    if i < |s| - 1 {
      ReverseIndex(s[1..], i);
    }
  }

  lemma ReverseReverse<T>(s: seq<T>)
    ensures Reverse(Reverse(s)) == s
  {
    forall i | 0 <= i < |s|
      ensures Reverse(Reverse(s))[i] == s[i]
    {
      ReverseIndex(Reverse(s), i);
      ReverseIndex(s, |s| - 1 - i);
    }
  }

  lemma BeRoundTrip(v: int, w: nat)
    ensures BeValue(BeBytes(v, w)) == v % Pow256(w)
  {
    ReverseReverse(LeBytes(v, w));
    LeRoundTrip(v, w);
  }

  lemma Lo8OfByte(b: Byte)
    ensures Lo8(b) == b
  {
    assert b % 256 == b;
  }

  /** A one-byte value reads as the byte itself in either order. */
  lemma SingleByteValue(b: Byte)
    ensures LeValue([b]) == b && BeValue([b]) == b
  {
    assert [b][1..] == [];
    assert Reverse([b]) == [b];
  }

  /** A byte value is stored as that byte in either order. */
  lemma SingleByteBytes(b: Byte)
    ensures LeBytes(b, 1) == [b] && BeBytes(b, 1) == [b]
  {
    Lo8OfByte(b);
    assert LeBytes(b, 1) == [Lo8(b)] + LeBytes(b / 256, 0);
    assert Reverse([b]) == [b];
  }

  /** Reading back the bytes of a byte string's value gives the string. */
  lemma {:induction false} LeValueRoundTrip(s: seq<Byte>)
    ensures LeBytes(LeValue(s), |s|) == s
  {
    if s != [] {
      LeValueRoundTrip(s[1..]);
      var v := LeValue(s);
      DivModUnique(v, 256, LeValue(s[1..]), s[0]);
    }
  }

  lemma BeValueRoundTrip(s: seq<Byte>)
    ensures BeBytes(BeValue(s), |s|) == s
  {
    LeValueRoundTrip(Reverse(s));
    ReverseReverse(s);
  }

  /** Two big-endian bytes: the first is the high one. */
  lemma BeValueTwo(s: seq<Byte>)
    requires |s| == 2
    ensures BeValue(s) == 256 * (s[0] as int) + s[1]
  {
    assert Reverse(s) == [s[1], s[0]] by {
      assert s[1..][1..] == [];
      assert Reverse(s[1..]) == [s[1]];
    }
    assert LeValue([s[1], s[0]]) == s[1] + 256 * LeValue([s[0]]) by {
      assert [s[1], s[0]][1..] == [s[0]];
    }
    SingleByteValue(s[0]);
  }

  /** Four big-endian bytes: the first is the most significant. */
  lemma BeValueFour(s: seq<Byte>)
    requires |s| == 4
    ensures BeValue(s) == 0x100_0000 * (s[0] as int) + 0x1_0000 * (s[1] as int) + 0x100 * (s[2] as int) + s[3]
  {
    var t := s[1..];
    assert Reverse(t) == [s[3], s[2], s[1]] by {
      assert t[1..][1..] == [s[3]];
      assert Reverse(t[1..][1..]) == [s[3]] by { assert t[1..][1..][1..] == []; }
      assert Reverse(t[1..]) == [s[3], s[2]];
    }
    assert Reverse(s) == [s[3], s[2], s[1], s[0]];
    var r := [s[3], s[2], s[1], s[0]];
    assert LeValue(r[1..][1..]) == s[1] + 256 * (s[0] as int) by {
      assert r[1..][1..] == [s[1], s[0]];
      assert [s[1], s[0]][1..] == [s[0]];
      SingleByteValue(s[0]);
    }
    assert LeValue(r[1..]) == s[2] + 256 * LeValue(r[1..][1..]);
    assert LeValue(r) == s[3] + 256 * LeValue(r[1..]);
  }

  /** Two little-endian bytes: the first is the low one. */
  lemma LeValueTwo(s: seq<Byte>)
    requires |s| == 2
    ensures LeValue(s) == s[0] + 256 * (s[1] as int)
  {
    assert s[1..] == [s[1]];
    SingleByteValue(s[1]);
  }

  /** Four little-endian bytes: the first is the least significant. */
  lemma LeValueFour(s: seq<Byte>)
    requires |s| == 4
    ensures LeValue(s) == s[0] + 0x100 * (s[1] as int) + 0x1_0000 * (s[2] as int) + 0x100_0000 * (s[3] as int)
  {
    LeValueTwo(s[2..]);
    assert s[1..][1..] == s[2..];
    assert LeValue(s[1..]) == s[1] + 256 * LeValue(s[2..]);
  }

  /** The little-endian 16-bit number at `at`. */
  function Le16At(buf: seq<Byte>, at: nat): nat
    requires at + 2 <= |buf|
  {
    buf[at] + 0x100 * (buf[at + 1] as int)
  }

  /** The little-endian 32-bit number at `at`. */
  function Le32At(buf: seq<Byte>, at: nat): nat
    requires at + 4 <= |buf|
  {
    buf[at] + 0x100 * (buf[at + 1] as int) + 0x1_0000 * (buf[at + 2] as int) + 0x100_0000 * (buf[at + 3] as int)
  }

  lemma Le16AtValue(buf: seq<Byte>, at: nat)
    requires at + 2 <= |buf|
    ensures LeValue(buf[at..at + 2]) == Le16At(buf, at)
  {
    LeValueTwo(buf[at..at + 2]);
  }

  lemma Le32AtValue(buf: seq<Byte>, at: nat)
    requires at + 4 <= |buf|
    ensures LeValue(buf[at..at + 4]) == Le32At(buf, at)
  {
    LeValueFour(buf[at..at + 4]);
  }

  /** Bytes as 8-bit vectors, the form the cipher's word assembly uses. */
  function ToOctets(s: seq<Byte>): (r: seq<bv8>)
    ensures |r| == |s|
  {
    seq(|s|, i requires 0 <= i < |s| => s[i] as bv8)
  }

  function FromOctets(s: seq<bv8>): (r: seq<Byte>)
    ensures |r| == |s|
  {
    seq(|s|, i requires 0 <= i < |s| => s[i] as int)
  }

  lemma OctetsRoundTrip(s: seq<Byte>, o: seq<bv8>)
    ensures FromOctets(ToOctets(s)) == s
    ensures ToOctets(FromOctets(o)) == o
  {
    forall i | 0 <= i < |s|
      ensures FromOctets(ToOctets(s))[i] == s[i]
    {
      ByteOctet(s[i]);
    }
    forall i | 0 <= i < |o|
      ensures ToOctets(FromOctets(o))[i] == o[i]
    {
      OctetByte(o[i]);
    }
  }

  lemma ByteOctet(b: Byte)
    ensures (b as bv8) as int == b
  {
    if b < 16 {
    } else if b < 32 {
    } else if b < 48 {
    } else if b < 64 {
    } else if b < 80 {
    } else if b < 96 {
    } else if b < 112 {
    } else if b < 128 {
    } else if b < 144 {
    } else if b < 160 {
    } else if b < 176 {
    } else if b < 192 {
    } else if b < 208 {
    } else if b < 224 {
    } else if b < 240 {
    } else {
    }
  }

  lemma OctetByte(x: bv8)
    ensures (x as int) as bv8 == x
  {
  }

  /** The 32-bit word whose little-endian octets are `s`. */
  function OctetsLe(s: seq<bv8>): bv32
    requires |s| == 4
  {
    (s[0] as bv32) | ((s[1] as bv32) << 8) | ((s[2] as bv32) << 16) | ((s[3] as bv32) << 24)
  }

  /** The 32-bit word whose big-endian octets are `s`. */
  function OctetsBe(s: seq<bv8>): bv32
    requires |s| == 4
  {
    ((s[0] as bv32) << 24) | ((s[1] as bv32) << 16) | ((s[2] as bv32) << 8) | (s[3] as bv32)
  }

  function LeOctets(x: bv32): (r: seq<bv8>)
    ensures |r| == 4
    ensures OctetsLe(r) == x
  {
    [(x & 0xFF) as bv8, ((x >> 8) & 0xFF) as bv8, ((x >> 16) & 0xFF) as bv8, ((x >> 24) & 0xFF) as bv8]
  }

  function BeOctets(x: bv32): (r: seq<bv8>)
    ensures |r| == 4
    ensures OctetsBe(r) == x
  {
    [((x >> 24) & 0xFF) as bv8, ((x >> 16) & 0xFF) as bv8, ((x >> 8) & 0xFF) as bv8, (x & 0xFF) as bv8]
  }

  lemma OctetsWordRoundTrip(s: seq<bv8>)
    requires |s| == 4
    ensures LeOctets(OctetsLe(s)) == s
    ensures BeOctets(OctetsBe(s)) == s
  {
  }

  /** The 32-bit word whose little-endian bytes are `s`. */
  function Word32Le(s: seq<Byte>): bv32
    requires |s| == 4
  {
    OctetsLe(ToOctets(s))
  }

  /** The 32-bit word whose big-endian bytes are `s`. */
  function Word32Be(s: seq<Byte>): bv32
    requires |s| == 4
  {
    OctetsBe(ToOctets(s))
  }

  /** The little-endian bytes of a 32-bit word. */
  function Word32LeBytes(x: bv32): (r: seq<Byte>)
    ensures |r| == 4
    ensures Word32Le(r) == x
  {
    OctetsRoundTrip([], LeOctets(x));
    FromOctets(LeOctets(x))
  }

  lemma Word32LeBytesOfWord(s: seq<Byte>)
    requires |s| == 4
    ensures Word32LeBytes(Word32Le(s)) == s
  {
    OctetsWordRoundTrip(ToOctets(s));
    OctetsRoundTrip(s, []);
  }

  /** The big-endian bytes of a 32-bit word. */
  function Word32BeBytes(x: bv32): (r: seq<Byte>)
    ensures |r| == 4
    ensures Word32Be(r) == x
  {
    OctetsRoundTrip([], BeOctets(x));
    FromOctets(BeOctets(x))
  }

  lemma Word32BeBytesOfWord(s: seq<Byte>)
    requires |s| == 4
    ensures Word32BeBytes(Word32Be(s)) == s
  {
    OctetsWordRoundTrip(ToOctets(s));
    OctetsRoundTrip(s, []);
  }
}
