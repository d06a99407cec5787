/** JavaScript's bitwise operators on integers, written out in arithmetic.
    Every operator first wraps its operands to 32-bit two's complement
    (`ToInt32`). A shift right followed by a mask of `n` bits, with the
    shift plus `n` at most 32, only sees bits the wrap leaves alone, so it
    is computed on the unbounded integer directly (`Field`, justified by
    `WrapKeepsField`). OR and XOR are taken bit by bit on non-negative
    numbers, which is all the codec applies them to. */
module BitOps {
  import opened Bytes

  function Pow2(n: nat): (r: nat)
    ensures r > 0
  {
    if n == 0 then 1 else 2 * Pow2(n - 1)
  }

  const TwoTo32: nat := 0x1_0000_0000

  /** The powers of two the codec's shifts and masks use. */
  lemma Pow2Values()
    ensures Pow2(1) == 2 && Pow2(2) == 4 && Pow2(3) == 8 && Pow2(4) == 16
    ensures Pow2(5) == 32 && Pow2(6) == 64 && Pow2(7) == 128 && Pow2(8) == 256
    ensures Pow2(10) == 1024 && Pow2(12) == 0x1000 && Pow2(16) == 0x1_0000 && Pow2(18) == 0x4_0000
    ensures Pow2(21) == 0x20_0000 && Pow2(24) == 0x100_0000 && Pow2(31) == 0x8000_0000 && Pow2(32) == TwoTo32
  {
    assert Pow2(8) == 256;
    assert Pow2(16) == 0x1_0000;
    assert Pow2(24) == 0x100_0000;
  }

  /** Powers of two multiply by adding exponents. */
  lemma {:induction false} Pow2Add(a: nat, b: nat)
    ensures Pow2(a + b) == Pow2(a) * Pow2(b)
  {
    if a > 0 {
      Pow2Add(a - 1, b);
      assert Pow2(a + b) == 2 * Pow2(a - 1 + b);
    }
  }

  /** `ToInt32`: the integer in [-2^31, 2^31) that `v` wraps to, the
      operand every bitwise operator actually works on. */
  function ToInt32(v: int): (r: int)
    ensures -0x8000_0000 <= r < 0x8000_0000
    ensures (v - r) % TwoTo32 == 0
  {
    var u := v % TwoTo32;
    if u >= 0x8000_0000 then u - TwoTo32 else u
  }

  /** Bit `i` of `v`, counting from the least significant: whether
      `(v >> i) & 1` is 1. */
  predicate BitSet(v: int, i: nat) {
    (v / Pow2(i)) % 2 == 1
  }

  /** `(v >> lo) & (2^n - 1)`: the `n` bits of `v` from bit `lo` upwards. */
  function Field(v: int, lo: nat, n: nat): (r: nat)
    ensures r < Pow2(n)
  {
    (v / Pow2(lo)) % Pow2(n)
  }

  /** A field of a number assembled from the bits below the field, the
      field's value and the bits above it is that value. */
  lemma FieldOf(w: int, lo: nat, n: nat, below: int, x: int, above: int)
    requires 0 <= below < Pow2(lo) && 0 <= x < Pow2(n) && above >= 0
    requires w == below + Pow2(lo) * (x + Pow2(n) * above)
    ensures Field(w, lo, n) == x
  {
    DivModParts(w, Pow2(lo), Pow2(n), below, x, above);
  }

  /** `FieldOf` for any divisor and modulus. */
  lemma DivModParts(w: int, d: int, m: int, below: int, x: int, above: int)
    requires 0 <= below < d && 0 <= x < m && above >= 0
    requires w == below + d * (x + m * above)
    ensures (w / d) % m == x
  {
    var q := x + m * above;
    DivModUnique(w, d, q, below);
    DivModUnique(q, m, above, x);
  }

  /** Adding a multiple of `d * m` moves the quotient by `d` by a multiple
      of `m`, which the remainder modulo `m` does not see. */
  lemma ShiftOut(w: int, k: int, d: nat, m: nat)
    requires d > 0 && m > 0
    ensures ((w + k * (d * m)) / d) % m == (w / d) % m
  {
    var q := w / d;
    assert w + k * (d * m) == (q + k * m) * d + w % d;
    DivModUnique(w + k * (d * m), d, q + k * m, w % d);
    var s := q / m;
    assert q + k * m == (s + k) * m + q % m;
    DivModUnique(q + k * m, m, s + k, q % m);
  }

  /** The 32-bit wrap does not change a field that lies in the low 32
      bits, so `Field` of the unbounded integer is what JavaScript's
      `(v >> lo) & (2^n - 1)` computes. */
  lemma WrapKeepsField(v: int, lo: nat, n: nat)
    requires lo + n <= 32
    ensures Field(ToInt32(v), lo, n) == Field(v, lo, n)
  {
    var w := ToInt32(v);
    var d := Pow2(lo);
    var m := Pow2(n);
    var e := Pow2(32 - lo - n);
    SplitTwoTo32(lo, n);
    var k := (v - w) / TwoTo32;
    assert v - w == k * TwoTo32;
    MulRegroup(k, d * m, e);
    ShiftOut(w, k * e, d, m);
  }

  /** 2^32 splits into the factors of a field at `lo` of `n` bits. */
  lemma SplitTwoTo32(lo: nat, n: nat)
    requires lo + n <= 32
    ensures TwoTo32 == (Pow2(lo) * Pow2(n)) * Pow2(32 - lo - n)
  {
    Pow2Values();
    Pow2Add(lo, n);
    Pow2Add(lo + n, 32 - lo - n);
  }

  lemma MulRegroup(k: int, x: int, e: int)
    ensures k * (x * e) == (k * e) * x
  {
  }

  /** Division by `2p` is division by 2, then by `p`. */
  lemma DivDouble(x: int, p: nat)
    requires p > 0
    ensures x / (2 * p) == (x / 2) / p
  {
    var h := x / 2;
    var q := h / p;
    assert x == q * (2 * p) + (2 * (h % p) + x % 2);
    DivModUnique(x, 2 * p, q, 2 * (h % p) + x % 2);
  }

  /** `a | b` for non-negative numbers. */
  function Or(a: nat, b: nat): (r: nat)
    decreases a + b
  {
    if a == 0 then b
    else if b == 0 then a
    else 2 * Or(a / 2, b / 2) + (if a % 2 == 1 || b % 2 == 1 then 1 else 0)
  }

  /** The lowest bit of `a | b`, and the OR of the remaining bits. */
  lemma OrHalf(a: nat, b: nat)
    ensures Or(a, b) / 2 == Or(a / 2, b / 2)
    ensures Or(a, b) % 2 == if a % 2 == 1 || b % 2 == 1 then 1 else 0
  {
    if a != 0 && b != 0 {
      DivModUnique(Or(a, b), 2, Or(a / 2, b / 2), if a % 2 == 1 || b % 2 == 1 then 1 else 0);
    }
  }

  /** Each bit of `a | b` is set exactly when it is set in `a` or in `b`. */
  lemma {:induction false} OrBits(a: nat, b: nat, i: nat)
    ensures BitSet(Or(a, b), i) <==> BitSet(a, i) || BitSet(b, i)
    decreases i
  {
    hide Or;
    OrHalf(a, b);
    if i > 0 {
      OrBits(a / 2, b / 2, i - 1);
      DivDouble(Or(a, b), Pow2(i - 1));
      DivDouble(a, Pow2(i - 1));
      DivDouble(b, Pow2(i - 1));
    }
  }

  /** A multiple of `2p` is even, and half of it is a multiple of `p`. */
  lemma HalfOfMultiple(a: nat, p: nat)
    requires p > 0 && a % (2 * p) == 0
    ensures a % 2 == 0 && (a / 2) % p == 0
  {
    var q := a / (2 * p);
    assert a == (q * p) * 2;
    DivModUnique(a, 2, q * p, 0);
    DivModUnique(a / 2, p, q, 0);
  }

  /** OR of numbers whose set bits do not overlap is their sum: every bit
      of `a` lies at `k` or above, every bit of `b` below `k`. */
  lemma {:induction false} OrDisjoint(a: nat, b: nat, k: nat)
    requires a % Pow2(k) == 0 && b < Pow2(k)
    ensures Or(a, b) == a + b
    decreases k
  {
    if k > 0 && a != 0 && b != 0 {
      HalfOfMultiple(a, Pow2(k - 1));
      OrDisjoint(a / 2, b / 2, k - 1);
    }
  }

  /** OR of two numbers below `2^k` stays below `2^k`. */
  lemma {:induction false} OrBound(a: nat, b: nat, k: nat)
    requires a < Pow2(k) && b < Pow2(k)
    ensures Or(a, b) < Pow2(k)
    decreases k
  {
    if k > 0 && a != 0 && b != 0 {
      OrBound(a / 2, b / 2, k - 1);
    }
  }

  /** `a ^ b` for non-negative numbers. */
  function Xor(a: nat, b: nat): (r: nat)
    decreases a + b
  {
    if a == 0 then b
    else if b == 0 then a
    else 2 * Xor(a / 2, b / 2) + (if a % 2 != b % 2 then 1 else 0)
  }

  /** The lowest bit of `a ^ b`, and the XOR of the remaining bits. */
  lemma XorHalf(a: nat, b: nat)
    ensures Xor(a, b) / 2 == Xor(a / 2, b / 2)
    ensures Xor(a, b) % 2 == if a % 2 != b % 2 then 1 else 0
  {
    if a != 0 && b != 0 {
      DivModUnique(Xor(a, b), 2, Xor(a / 2, b / 2), if a % 2 != b % 2 then 1 else 0);
    }
  }

  /** Each bit of `a ^ b` is set exactly when it is set in one of them. */
  lemma {:induction false} XorBits(a: nat, b: nat, i: nat)
    ensures BitSet(Xor(a, b), i) <==> BitSet(a, i) != BitSet(b, i)
    decreases i
  {
    hide Xor;
    XorHalf(a, b);
    if i > 0 {
      XorBits(a / 2, b / 2, i - 1);
      DivDouble(Xor(a, b), Pow2(i - 1));
      DivDouble(a, Pow2(i - 1));
      DivDouble(b, Pow2(i - 1));
    }
  }

  /** XOR of two numbers below `2^k` stays below `2^k`. */
  lemma {:induction false} XorBound(a: nat, b: nat, k: nat)
    requires a < Pow2(k) && b < Pow2(k)
    ensures Xor(a, b) < Pow2(k)
    decreases k
  {
    if k > 0 && a != 0 && b != 0 {
      XorBound(a / 2, b / 2, k - 1);
    }
  }

  /** A number XORed with itself is zero. */
  lemma {:induction false} XorSelf(a: nat)
    ensures Xor(a, a) == 0
    decreases a
  {
    if a != 0 {
      XorSelf(a / 2);
    }
  }

  /** XOR with the same mask twice gives the number back. */
  lemma {:induction false} XorTwice(a: nat, b: nat)
    ensures Xor(Xor(a, b), b) == a
    decreases a + b
  {
    if a == 0 {
      XorSelf(b);
    } else if b != 0 {
      var c := Xor(a, b);
      XorTwice(a / 2, b / 2);
      if c == 0 {
        XorZero(a, b);
      } else {
        assert c / 2 == Xor(a / 2, b / 2);
      }
    }
  }

  /** Only equal numbers XOR to zero. */
  lemma {:induction false} XorZero(a: nat, b: nat)
    requires Xor(a, b) == 0
    ensures a == b
    decreases a + b
  {
    if a != 0 && b != 0 {
      XorZero(a / 2, b / 2);
    }
  }

  /** The byte JavaScript stores for `a | b` in a `Uint8Array`: the OR of
      the two low bytes, since the low byte of an OR depends only on the
      low bytes of the operands. */
  function OrByte(a: int, b: int): (r: Byte)
    ensures r == Or(Lo8(a), Lo8(b))
    ensures forall i :: 0 <= i < 8 ==> (BitSet(r, i) <==> BitSet(a, i) || BitSet(b, i))
  {
    Pow2Values();
    OrBound(Lo8(a), Lo8(b), 8);
    forall i | 0 <= i < 8
      ensures BitSet(Or(Lo8(a), Lo8(b)), i) <==> BitSet(a, i) || BitSet(b, i)
    {
      OrBits(Lo8(a), Lo8(b), i);
      LowByteBits(a, i);
      LowByteBits(b, i);
    }
    Or(Lo8(a), Lo8(b))
  }

  /** `v ^ k` on two bytes: each bit set exactly when it is set in one of
      them. */
  function XorByte(v: Byte, k: Byte): (r: Byte)
    ensures forall i :: 0 <= i < 8 ==> (BitSet(r, i) <==> BitSet(v, i) != BitSet(k, i))
    ensures r == Xor(v, k)
  {
    Pow2Values();
    XorBound(v, k, 8);
    forall i | 0 <= i < 8
      ensures BitSet(Xor(v, k), i) <==> BitSet(v, i) != BitSet(k, i)
    {
      XorBits(v, k, i);
    }
    Xor(v, k)
  }

  /** The low eight bits of a number are the bits of its low byte. */
  lemma LowByteBits(v: int, i: nat)
    requires i < 8
    ensures BitSet(Lo8(v), i) <==> BitSet(v, i)
  {
    Pow2Values();
    Pow2Add(i, 7 - i);
    var d := Pow2(i);
    var k := (v / 256) * Pow2(7 - i);
    assert k * (d * 2) == (v / 256) * 256 by {
      MulRegroup(v / 256, Pow2(7 - i), d * 2);
    }
    ShiftOut(v % 256, k, d, 2);
  }
}
