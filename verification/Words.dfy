/** Unsigned machine words as natural numbers, bit 0 first, with the bitwise operators of C on them. */
module Words {

  type byte = b: nat | b < 256 witness 0

  const WORD_LIMIT := 0x1_0000_0000

  function Pow2(n: nat): (p: nat)
    ensures p >= 1
  {
    if n == 0 then 1 else 2 * Pow2(n - 1)
  }

  function Min(a: int, b: int): int {
    if a < b then a else b
  }

  function Max(a: int, b: int): int {
    if a < b then b else a
  }

  /** Bit `k` of `w`, counted from the least significant. */
  function Bit(w: nat, k: nat): bool {
    if k == 0 then w % 2 == 1 else Bit(w / 2, k - 1)
  }

  /** 1 for true, 0 for false. */
  function One(b: bool): nat {
    if b then 1 else 0
  }

  function Xor(a: nat, b: nat): nat {
    if a == 0 && b == 0 then 0 else One(a % 2 != b % 2) + 2 * Xor(a / 2, b / 2)
  }

  function And(a: nat, b: nat): nat {
    if a == 0 && b == 0 then 0 else One(a % 2 == 1 && b % 2 == 1) + 2 * And(a / 2, b / 2)
  }

  function Or(a: nat, b: nat): nat {
    if a == 0 && b == 0 then 0 else One(a % 2 == 1 || b % 2 == 1) + 2 * Or(a / 2, b / 2)
  }

  function Shr(w: nat, n: nat): nat {
    if n == 0 then w else Shr(w / 2, n - 1)
  }

  /** A left shift in a 32-bit word. */
  function Shl(w: nat, n: nat): nat {
    w * Pow2(n) % WORD_LIMIT
  }

  // ---------- The operators, bit by bit ----------

  lemma {:induction false} ZeroBits(k: nat)
    ensures !Bit(0, k)
  {
    if k == 0 {
    } else {
      ZeroBits(k - 1);
    }
  }

  lemma {:induction false} XorBits(a: nat, b: nat, k: nat)
    ensures Bit(Xor(a, b), k) == (Bit(a, k) != Bit(b, k))
  {
    if a == 0 && b == 0 {
      ZeroBits(k);
    } else if k > 0 {
      XorBits(a / 2, b / 2, k - 1);
    }
  }

  lemma {:induction false} AndBits(a: nat, b: nat, k: nat)
    ensures Bit(And(a, b), k) == (Bit(a, k) && Bit(b, k))
  {
    if a == 0 && b == 0 {
      ZeroBits(k);
    } else if k > 0 {
      AndBits(a / 2, b / 2, k - 1);
    }
  }

  lemma {:induction false} OrBits(a: nat, b: nat, k: nat)
    ensures Bit(Or(a, b), k) == (Bit(a, k) || Bit(b, k))
  {
    if a == 0 && b == 0 {
      ZeroBits(k);
    } else if k > 0 {
      OrBits(a / 2, b / 2, k - 1);
    }
  }

  lemma {:induction false} ShrBits(w: nat, n: nat, k: nat)
    ensures Bit(Shr(w, n), k) == Bit(w, n + k)
  {
    if n == 0 {
    } else {
      ShrBits(w / 2, n - 1, k);
    }
  }

  lemma {:induction false} ScaledBits(w: nat, n: nat, k: nat)
    ensures Bit(w * Pow2(n), k) == (n <= k && Bit(w, k - n))
  {
    if n == 0 {
    } else {
      var half := w * Pow2(n - 1);
      assert w * Pow2(n) == 2 * half;
      if k > 0 { ScaledBits(w, n - 1, k - 1); }
    }
  }

  /** Without overflow a left shift moves the bits up. */
  lemma ShlBits(w: nat, n: nat, k: nat)
    requires w * Pow2(n) < WORD_LIMIT
    ensures Bit(Shl(w, n), k) == (n <= k && Bit(w, k - n))
  {
    hide Bit, Pow2;
    ScaledBits(w, n, k);
  }

  lemma DoubledBits(r: nat, b: bool, k: nat)
    ensures Bit(2 * r + One(b), k) == if k == 0 then b else Bit(r, k - 1)
  {
  }

  lemma {:induction false} Pow2Bits(n: nat, k: nat)
    ensures Bit(Pow2(n), k) == (k == n)
  {
    if k == 0 {
    } else {
      if n > 0 { Pow2Bits(n - 1, k - 1); } else { ZeroBits(k - 1); }
    }
  }

  lemma {:induction false} OnesBits(n: nat, k: nat)
    ensures Bit(Pow2(n) - 1, k) == (k < n)
  {
    if n == 0 {
      ZeroBits(k);
    } else if k > 0 {
      assert (Pow2(n) - 1) / 2 == Pow2(n - 1) - 1;
      OnesBits(n - 1, k - 1);
    }
  }

  lemma {:induction false} HighBits(w: nat, n: nat, k: nat)
    requires w < Pow2(n) && n <= k
    ensures !Bit(w, k)
  {
    if n == 0 { ZeroBits(k); } else { HighBits(w / 2, n - 1, k - 1); }
  }

  /** Different words differ in some bit. */
  lemma {:induction false} BitsDiffer(a: nat, b: nat) returns (k: nat)
    requires a != b
    ensures Bit(a, k) != Bit(b, k)
    decreases a + b
  {
    if a % 2 != b % 2 {
      k := 0;
    } else {
      k := BitsDiffer(a / 2, b / 2);
      k := k + 1;
    }
  }

  lemma SameBits(a: nat, b: nat)
    requires forall k: nat :: Bit(a, k) == Bit(b, k)
    ensures a == b
  {
    if a != b { var k := BitsDiffer(a, b); }
  }

  /** A word without bits from n up is below 2^n. */
  lemma {:induction false} BoundedBits(w: nat, n: nat)
    requires forall k: nat | n <= k :: !Bit(w, k)
    ensures w < Pow2(n)
  {
    if n == 0 {
      if w != 0 {
        var k := BitsDiffer(w, 0);
        ZeroBits(k);
      }
    } else {
      forall k: nat | n - 1 <= k ensures !Bit(w / 2, k) { assert !Bit(w, k + 1); }
      BoundedBits(w / 2, n - 1);
    }
  }

  lemma XorBound(a: nat, b: nat, n: nat)
    requires a < Pow2(n) && b < Pow2(n)
    ensures Xor(a, b) < Pow2(n)
  {
    forall k: nat | n <= k ensures !Bit(Xor(a, b), k) {
      XorBits(a, b, k);
      HighBits(a, n, k);
      HighBits(b, n, k);
    }
    BoundedBits(Xor(a, b), n);
  }

  lemma AndOne(w: nat)
    ensures And(w, 1) == w % 2
  {
    AndZero(w / 2);
  }

  lemma {:induction false} AndZero(w: nat)
    ensures And(w, 0) == 0
  {
    if w == 0 {
    } else {
      AndZero(w / 2);
    }
  }

  lemma ShiftedOut(w: nat, n: nat)
    ensures And(Shr(w, n), 1) == One(Bit(w, n))
  {
    AndOne(Shr(w, n));
    ShrBits(w, n, 0);
  }

  lemma {:induction false} Pow2Monotone(a: nat, b: nat)
    requires a <= b
    ensures Pow2(a) <= Pow2(b)
  {
    if a >= b {
    } else {
      Pow2Monotone(a, b - 1);
    }
  }

  lemma MulLe(a: nat, b: nat, c: nat)
    requires a <= b
    ensures a * c <= b * c
  {
  }

  lemma DoubledProduct(r: nat, p: nat)
    ensures r * (2 * p) == 2 * (r * p)
  {
  }

  lemma Pow2Values()
    ensures Pow2(3) == 8 && Pow2(8) == 256 && Pow2(9) == 512 && Pow2(12) == 4096 && Pow2(18) == 0x40000
    ensures Pow2(24) == 0x1000000 && Pow2(32) == WORD_LIMIT
  {
    assert Pow2(3) == 8 && Pow2(6) == 8 * Pow2(3) && Pow2(9) == 8 * Pow2(6) && Pow2(12) == 8 * Pow2(9);
    assert Pow2(15) == 8 * Pow2(12) && Pow2(18) == 8 * Pow2(15) && Pow2(21) == 8 * Pow2(18) && Pow2(24) == 8 * Pow2(21);
    assert Pow2(27) == 8 * Pow2(24) && Pow2(30) == 8 * Pow2(27) && Pow2(32) == 4 * Pow2(30);
  }

  // ---------- Flipped bits ----------

  function FlipWord(w: nat, k: nat): nat {
    Xor(w, Pow2(k))
  }

  lemma FlippedWord(w: nat, k: nat, i: nat)
    ensures Bit(FlipWord(w, k), i) == (Bit(w, i) != (i == k))
  {
    XorBits(w, Pow2(k), i);
    Pow2Bits(k, i);
  }

  lemma FlipByteBound(b: byte, t: nat)
    requires t < 8
    ensures FlipWord(b, t) < 256
  {
    Pow2Values();
    assert Pow2(t) < Pow2(8) by { Pow2Monotone(t, 7); }
    XorBound(b, Pow2(t), 8);
  }

  function FlipByte(b: byte, t: nat): byte
    requires t < 8
  {
    FlipByteBound(b, t);
    FlipWord(b, t)
  }

  // ---------- 32-bit words of four bytes ----------

  function Word(b0: byte, b1: byte, b2: byte, b3: byte): nat {
    b0 + 0x100 * b1 + 0x10000 * b2 + 0x1000000 * b3
  }

  function ByteOf(w: nat, i: nat): byte {
    if i == 0 then w % 256 else ByteOf(w / 256, i - 1)
  }

  /** Bit k of byte i of a word is bit 8i + k of the word. */
  lemma {:induction false} ByteOfBits(w: nat, i: nat, k: nat)
    requires k < 8
    ensures Bit(ByteOf(w, i), k) == Bit(w, 8 * i + k)
  {
    if i == 0 {
      LowByteBits(w, k, 8);
    } else {
      ByteOfBits(w / 256, i - 1, k);
      ShiftByte(w, 8 * (i - 1) + k);
    }
  }

  lemma {:induction false} LowByteBits(w: nat, k: nat, n: nat)
    requires k < n
    ensures Bit(w % Pow2(n), k) == Bit(w, k) && Pow2(8) == 256
  {
    Pow2Values();
    HalfOfLow(w, n);
    if k == 0 {
    } else {
      LowByteBits(w / 2, k - 1, n - 1);
    }
  }

  lemma HalfOfLow(w: nat, n: nat)
    requires n > 0
    ensures w % Pow2(n) % 2 == w % 2 && w % Pow2(n) / 2 == w / 2 % Pow2(n - 1)
  {
    var p := Pow2(n - 1);
    var h := w / 2;
    LowHalf(w, p, h / p, h % p);
  }

  lemma LowHalf(w: nat, p: nat, q: nat, r: nat)
    requires r < p && w / 2 == q * p + r
    ensures w % (2 * p) == 2 * r + w % 2
  {
    DoubledProduct(q, p);
    DivisionUnique(w, 2 * p, q, 2 * r + w % 2);
  }

  lemma DivisionUnique(w: nat, d: nat, q: nat, r: nat)
    requires d > 0 && w == q * d + r && r < d
    ensures w / d == q && w % d == r
  {
    var q', r' := w / d, w % d;
    assert w == q' * d + r';
    if q < q' {
      MulLe(q + 1, q', d);
      assert false;
    }
    if q' < q {
      MulLe(q' + 1, q, d);
      assert false;
    }
  }

  lemma ShiftByte(w: nat, k: nat)
    ensures Bit(w / 256, k) == Bit(w, 8 + k)
  {
    assert w / 256 == w / 2 / 2 / 2 / 2 / 2 / 2 / 2 / 2;
    assert Bit(w, 8 + k) == Bit(w / 2, 7 + k) == Bit(w / 2 / 2, 6 + k) == Bit(w / 2 / 2 / 2, 5 + k);
    assert Bit(w / 2 / 2 / 2, 5 + k) == Bit(w / 2 / 2 / 2 / 2, 4 + k) == Bit(w / 2 / 2 / 2 / 2 / 2, 3 + k);
    assert Bit(w / 2 / 2 / 2 / 2 / 2, 3 + k) == Bit(w / 2 / 2 / 2 / 2 / 2 / 2, 2 + k);
    assert Bit(w / 2 / 2 / 2 / 2 / 2 / 2, 2 + k) == Bit(w / 2 / 2 / 2 / 2 / 2 / 2 / 2, 1 + k);
  }

  lemma WordBytes(b0: byte, b1: byte, b2: byte, b3: byte)
    ensures ByteOf(Word(b0, b1, b2, b3), 0) == b0 && ByteOf(Word(b0, b1, b2, b3), 1) == b1
    ensures ByteOf(Word(b0, b1, b2, b3), 2) == b2 && ByteOf(Word(b0, b1, b2, b3), 3) == b3
  {
    var w := Word(b0, b1, b2, b3);
    assert w / 256 == b1 + 0x100 * b2 + 0x10000 * b3;
    assert w / 256 / 256 == b2 + 0x100 * b3;
    assert w / 256 / 256 / 256 == b3;
    assert ByteOf(w, 1) == ByteOf(w / 256, 0);
    assert ByteOf(w, 2) == ByteOf(w / 256, 1) == ByteOf(w / 256 / 256, 0);
    assert ByteOf(w, 3) == ByteOf(w / 256, 2) == ByteOf(w / 256 / 256, 1) == ByteOf(w / 256 / 256 / 256, 0);
  }

  lemma ByteHighBits(b: byte, k: nat)
    requires 8 <= k
    ensures !Bit(b, k)
  {
    Pow2Values();
    HighBits(b, 8, k);
  }
}
