/** The CRC-16 of the program and packet checks (libs/base/crc.cpp), generator x^16 + x^12 + x^5 + 1, initial value 0,
    and the table-driven form used on the ground (integration_tests/crc.py). */
module Crc {
  import opened Words

  /** The generator of ITU-T V.41, section 2, with its leading term. */
  const GENERATOR := 0x11021
  const LIMIT := 0x10000

  // ---------- Division of polynomials over the two-element field ----------

  /** The polynomial whose coefficients are some bits, the highest first. */
  function Number(bits: seq<bool>): nat {
    if bits == [] then 0 else 2 * Number(bits[..|bits| - 1]) + One(bits[|bits| - 1])
  }

  /** The product of two polynomials. */
  function Times(q: nat, g: nat): nat {
    if q == 0 then 0 else Xor(2 * Times(q / 2, g), if q % 2 == 1 then g else 0)
  }

  /** `r` is a remainder of the division of `m` by the generator. */
  ghost predicate IsRemainder(m: nat, r: nat) {
    r < LIMIT && exists q :: m == Xor(Times(q, GENERATOR), r)
  }

  /** One step of the long division: the next coefficient is brought down. */
  function Shift(r: nat, b: bool): (s: nat)
    requires r < LIMIT
    ensures s < LIMIT
  {
    var v := 2 * r + One(b);
    if v < LIMIT then v
    else
      LeadingTermCancels(v);
      Xor(v, GENERATOR)
  }

  /** The remainder left by the long division. */
  function Remainder(bits: seq<bool>): (r: nat)
    ensures r < LIMIT
  {
    if bits == [] then 0 else Shift(Remainder(bits[..|bits| - 1]), bits[|bits| - 1])
  }

  /** The bits of a byte, the highest first. */
  function BitsOf(b: byte): (bits: seq<bool>)
    ensures |bits| == 8
  {
    [Bit(b, 7), Bit(b, 6), Bit(b, 5), Bit(b, 4), Bit(b, 3), Bit(b, 2), Bit(b, 1), Bit(b, 0)]
  }

  function Message(s: seq<byte>): (bits: seq<bool>)
    ensures |bits| == 8 * |s|
  {
    if s == [] then [] else Message(s[..|s| - 1]) + BitsOf(s[|s| - 1])
  }

  function Zeros(n: nat): (bits: seq<bool>)
    ensures |bits| == n
  {
    seq(n, i => false)
  }

  /** The CRC: the remainder of the message multiplied by x^16. */
  function Crc(s: seq<byte>): (r: nat)
    ensures r < LIMIT
  {
    Remainder(Message(s) + Zeros(16))
  }

  // ---------- Facts about bits ----------

  lemma Powers()
    ensures Pow2(15) == 0x8000 && Pow2(16) == LIMIT && Pow2(17) == 0x20000
  {
    Pow2Values();
    assert Pow2(15) == 8 * Pow2(12);
  }

  lemma {:induction false} TopBit(v: nat, n: nat)
    requires v < Pow2(n + 1)
    ensures Bit(v, n) <==> Pow2(n) <= v
  {
    if n == 0 {
    } else {
      TopBit(v / 2, n - 1);
    }
  }

  lemma GeneratorBits(k: nat)
    ensures Bit(GENERATOR, k) <==> k == 0 || k == 5 || k == 12 || k == 16
  {
    assert Bit(0x11021, 0) && !Bit(0x11021, 1) && !Bit(0x11021, 2) && !Bit(0x11021, 3) && !Bit(0x11021, 4) && Bit(0x11021, 5);
    assert !Bit(0x11021, 6) && !Bit(0x11021, 7);
    assert !Bit(0x110, 0) && !Bit(0x110, 1) && !Bit(0x110, 2) && !Bit(0x110, 3) && Bit(0x110, 4) && !Bit(0x110, 5);
    assert !Bit(0x110, 6) && !Bit(0x110, 7) && Bit(0x110, 8);
    if k > 16 {
      Powers();
      HighBits(GENERATOR, 17, k);
    } else if k >= 8 {
      ShiftByte(GENERATOR, k - 8);
    }
  }

  lemma LeadingTermCancels(v: nat)
    requires LIMIT <= v < 2 * LIMIT
    ensures Xor(v, GENERATOR) < LIMIT
  {
    hide Bit, Xor, Pow2;
    Powers();
    forall k: nat | 16 <= k ensures !Bit(Xor(v, GENERATOR), k) {
      XorBits(v, GENERATOR, k);
      GeneratorBits(k);
      if k == 16 { TopBit(v, 16); } else { HighBits(v, 17, k); }
    }
    BoundedBits(Xor(v, GENERATOR), 16);
  }

  /** The register shifts up; the coefficient shifted out comes back through the lower terms of the generator. */
  lemma ShiftBits(r: nat, b: bool, k: nat)
    requires r < LIMIT && k < 16
    ensures Bit(Shift(r, b), k)
         == ((if k == 0 then b else Bit(r, k - 1)) != (Bit(r, 15) && (k == 0 || k == 5 || k == 12)))
  {
    hide Bit, Xor, Pow2;
    var v := 2 * r + One(b);
    Powers();
    TopBit(r, 15);
    DoubledBits(r, b, k);
    XorBits(v, GENERATOR, k);
    GeneratorBits(k);
  }

  lemma SameRegister(a: nat, b: nat)
    requires a < LIMIT && b < LIMIT && forall k: nat | k < 16 :: Bit(a, k) == Bit(b, k)
    ensures a == b
  {
    if a != b {
      var k := BitsDiffer(a, b);
      Powers();
      if k >= 16 { HighBits(a, 16, k); HighBits(b, 16, k); }
    }
  }

  lemma XorRegister(a: nat, b: nat)
    requires a < LIMIT && b < LIMIT
    ensures Xor(a, b) < LIMIT
  {
    Powers();
    XorBound(a, b, 16);
  }

  lemma ShiftLinear(a: nat, x: bool, b: nat, y: bool)
    requires a < LIMIT && b < LIMIT
    ensures Xor(a, b) < LIMIT && Shift(Xor(a, b), x != y) == Xor(Shift(a, x), Shift(b, y))
  {
    hide Bit, Xor, Shift;
    XorRegister(a, b);
    XorRegister(Shift(a, x), Shift(b, y));
    forall k: nat | k < 16 ensures Bit(Shift(Xor(a, b), x != y), k) == Bit(Xor(Shift(a, x), Shift(b, y)), k) {
      ShiftLinearBit(a, x, b, y, k);
    }
    SameRegister(Shift(Xor(a, b), x != y), Xor(Shift(a, x), Shift(b, y)));
  }

  lemma ShiftLinearBit(a: nat, x: bool, b: nat, y: bool, k: nat)
    requires a < LIMIT && b < LIMIT && Xor(a, b) < LIMIT && k < 16
    ensures Bit(Shift(Xor(a, b), x != y), k) == Bit(Xor(Shift(a, x), Shift(b, y)), k)
  {
    hide Bit, Xor, Shift;
    ShiftBits(Xor(a, b), x != y, k);
    ShiftBits(a, x, k);
    ShiftBits(b, y, k);
    XorBits(Shift(a, x), Shift(b, y), k);
    XorBits(a, b, 15);
    if k > 0 { XorBits(a, b, k - 1); }
  }

  // ---------- The long division is a division ----------

  lemma XorDouble(a: nat, b: nat, x: bool)
    ensures 2 * Xor(a, b) + One(x) == Xor(2 * a, 2 * b + One(x))
  {
  }

  lemma XorAgain(a: nat, b: nat, g: nat)
    ensures Xor(Xor(a, g), Xor(b, g)) == Xor(a, b)
  {
    hide Bit, Xor;
    forall k: nat ensures Bit(Xor(Xor(a, g), Xor(b, g)), k) == Bit(Xor(a, b), k) {
      XorBits(Xor(a, g), Xor(b, g), k);
      XorBits(a, g, k);
      XorBits(b, g, k);
      XorBits(a, b, k);
    }
    SameBits(Xor(Xor(a, g), Xor(b, g)), Xor(a, b));
  }

  lemma {:induction false} XorZero(a: nat)
    ensures Xor(a, 0) == a
  {
    if a == 0 {
    } else {
      XorZero(a / 2);
    }
  }

  lemma TimesUnfold(q: nat, g: nat)
    ensures Times(0, g) == 0 && Times(q, g) == Xor(2 * Times(q / 2, g), if q % 2 == 1 then g else 0)
  {
  }

  lemma NumberUnfold(bits: seq<bool>)
    ensures bits == [] ==> Number(bits) == Remainder(bits) == 0
    ensures bits != [] ==>
              var last := |bits| - 1;
              Number(bits) == 2 * Number(bits[..last]) + One(bits[last]) && Remainder(bits) == Shift(Remainder(bits[..last]), bits[last])
  {
  }

  /** The long division computes a remainder. */
  lemma {:induction false} DivisionStep(bits: seq<bool>) returns (q: nat)
    ensures Number(bits) == Xor(Times(q, GENERATOR), Remainder(bits))
  {
    hide Xor, Number, Remainder, Times;
    NumberUnfold(bits);
    if bits == [] {
      q := 0;
      XorZero(0);
      TimesUnfold(0, GENERATOR);
    } else {
      var last := |bits| - 1;
      q := DivisionStep(bits[..last]);
      var p, r, b := Times(q, GENERATOR), Remainder(bits[..last]), bits[last];
      var v := 2 * r + One(b);
      XorDouble(p, r, b);
      XorZero(2 * p);
      if v < LIMIT {
        TimesUnfold(2 * q, GENERATOR);
        q := 2 * q;
      } else {
        TimesUnfold(2 * q + 1, GENERATOR);
        q := 2 * q + 1;
        XorAgain(2 * p, v, GENERATOR);
      }
    }
  }

  lemma {:induction false} NumberShifted(bits: seq<bool>, n: nat)
    ensures Number(bits + Zeros(n)) == Number(bits) * Pow2(n)
  {
    if n == 0 {
      assert bits + Zeros(0) == bits;
    } else {
      NumberShifted(bits, n - 1);
      assert (bits + Zeros(n))[..|bits| + n - 1] == bits + Zeros(n - 1);
    }
  }

  /** The CRC is the remainder of the message times x^16. */
  lemma CrcIsRemainder(s: seq<byte>)
    ensures IsRemainder(Number(Message(s)) * LIMIT, Crc(s))
  {
    hide Number, Remainder, Times, Message, Pow2;
    Powers();
    var q := DivisionStep(Message(s) + Zeros(16));
    NumberShifted(Message(s), 16);
  }

  lemma {:induction false} TimesXor(a: nat, b: nat, g: nat)
    ensures Xor(Times(a, g), Times(b, g)) == Times(Xor(a, b), g)
    decreases a + b
  {
    if a == 0 && b == 0 {
    } else {
      TimesXor(a / 2, b / 2, g);
      assert Xor(a, b) % 2 == One(a % 2 != b % 2) && Xor(a, b) / 2 == Xor(a / 2, b / 2);
      hide Xor, Times;
      TimesUnfold(a, g);
      TimesUnfold(b, g);
      TimesUnfold(Xor(a, b), g);
      var x, y, u, v := 2 * Times(a / 2, g), 2 * Times(b / 2, g), if a % 2 == 1 then g else 0, if b % 2 == 1 then g else 0;
      XorDouble(Times(a / 2, g), Times(b / 2, g), false);
      assert Xor(u, v) == if Xor(a, b) % 2 == 1 then g else 0 by {
        XorSelf(g);
        XorZero(g);
        XorZeroLeft(g);
        XorZero(0);
      }
      XorSwap(x, u, y, v);
    }
  }

  lemma {:induction false} XorSelf(a: nat)
    ensures Xor(a, a) == 0
  {
    if a == 0 {
    } else {
      XorSelf(a / 2);
    }
  }

  lemma {:induction false} XorZeroLeft(a: nat)
    ensures Xor(0, a) == a
  {
    if a == 0 {
    } else {
      XorZeroLeft(a / 2);
    }
  }

  lemma XorSwap(x: nat, u: nat, y: nat, v: nat)
    ensures Xor(Xor(x, u), Xor(y, v)) == Xor(Xor(x, y), Xor(u, v))
  {
    hide Bit, Xor;
    forall k: nat ensures Bit(Xor(Xor(x, u), Xor(y, v)), k) == Bit(Xor(Xor(x, y), Xor(u, v)), k) {
      XorBits(Xor(x, u), Xor(y, v), k); XorBits(x, u, k); XorBits(y, v, k);
      XorBits(Xor(x, y), Xor(u, v), k); XorBits(x, y, k); XorBits(u, v, k);
    }
    SameBits(Xor(Xor(x, u), Xor(y, v)), Xor(Xor(x, y), Xor(u, v)));
  }

  /** A multiple of the generator is zero or has at least its degree. */
  lemma {:induction false} MultiplesAreLarge(q: nat)
    requires q > 0
    ensures Times(q, GENERATOR) >= LIMIT
  {
    if q == 1 {
      XorZeroLeft(GENERATOR);
      assert Times(0, GENERATOR) == 0;
    } else {
      MultiplesAreLarge(q / 2);
      var t := 2 * Times(q / 2, GENERATOR);
      XorZero(t);
      if Xor(t, GENERATOR) < LIMIT {
        hide Xor, Bit, Times;
        XorAgain(t, 0, GENERATOR);
        XorZeroLeft(GENERATOR);
        XorZero(t);
        Powers();
        TopBitAbove(t, 17);
        var k := HighestBit(t, 17);
        XorBits(t, GENERATOR, k);
        GeneratorBits(k);
        HighBits(Xor(t, GENERATOR), 16, k);
        assert false;
      }
    }
  }

  lemma TopBitAbove(t: nat, n: nat)
    requires t >= Pow2(n)
    ensures exists k: nat :: n <= k && Bit(t, k)
  {
    if forall k: nat | n <= k :: !Bit(t, k) {
      BoundedBits(t, n);
      assert false;
    }
  }

  lemma HighestBit(t: nat, n: nat) returns (k: nat)
    requires exists k: nat :: n <= k && Bit(t, k)
    ensures n <= k && Bit(t, k)
  {
    k :| n <= k && Bit(t, k);
  }

  /** A division has only one remainder. */
  lemma RemainderUnique(m: nat, r: nat, s: nat)
    requires IsRemainder(m, r) && IsRemainder(m, s)
    ensures r == s
  {
    hide Xor, Times;
    var p :| m == Xor(Times(p, GENERATOR), r);
    var q :| m == Xor(Times(q, GENERATOR), s);
    XorSelf(m);
    XorSwap(Times(p, GENERATOR), r, Times(q, GENERATOR), s);
    TimesXor(p, q, GENERATOR);
    XorRegister(r, s);
    var d, e := Times(Xor(p, q), GENERATOR), Xor(r, s);
    assert Xor(d, e) == 0;
    ZeroXor(d, e);
    if Xor(p, q) > 0 {
      MultiplesAreLarge(Xor(p, q));
      assert false;
    }
    assert d == 0 by { TimesZero(GENERATOR); }
    ZeroXor(r, s);
  }

  lemma TimesZero(g: nat)
    ensures Times(0, g) == 0
  {
  }

  lemma ZeroXor(a: nat, b: nat)
    requires Xor(a, b) == 0
    ensures a == b
  {
    if a != b {
      var k := BitsDiffer(a, b);
      XorBits(a, b, k);
      ZeroBits(k);
    }
  }

  // ---------- Repeated shifts ----------

  function Shifted(r: nat, n: nat): (s: nat)
    requires r < LIMIT
    ensures s < LIMIT
  {
    if n == 0 then r else Shift(Shifted(r, n - 1), false)
  }

  lemma {:induction false} ShiftedLinear(a: nat, b: nat, n: nat)
    requires a < LIMIT && b < LIMIT
    ensures Xor(a, b) < LIMIT && Shifted(Xor(a, b), n) == Xor(Shifted(a, n), Shifted(b, n))
  {
    hide Xor, Shift;
    XorRegister(a, b);
    if n == 0 {
    } else {
      ShiftedLinear(a, b, n - 1);
      ShiftLinear(Shifted(a, n - 1), false, Shifted(b, n - 1), false);
    }
  }

  lemma {:induction false} ShiftedSum(r: nat, m: nat, n: nat)
    requires r < LIMIT
    ensures Shifted(Shifted(r, m), n) == Shifted(r, m + n)
  {
    if n == 0 {
    } else {
      ShiftedSum(r, m, n - 1);
    }
  }

  /** Without a coefficient shifted out the shift is a multiplication. */
  lemma {:induction false} ShiftedScales(r: nat, n: nat)
    requires r * Pow2(n) < LIMIT
    ensures r < LIMIT && Shifted(r, n) == r * Pow2(n)
  {
    hide Shift;
    MulLe(1, Pow2(n), r);
    assert r <= Pow2(n) * r == r * Pow2(n);
    if n == 0 {
    } else {
      DoubledProduct(r, Pow2(n - 1));
      ShiftedScales(r, n - 1);
      SmallShift(r * Pow2(n - 1));
    }
  }

  lemma SmallShift(r: nat)
    requires 2 * r < LIMIT
    ensures Shift(r, false) == 2 * r
  {
  }

  lemma {:induction false} ZeroShifted(n: nat)
    ensures Shifted(0, n) == 0
  {
    if n == 0 {
    } else {
      ZeroShifted(n - 1);
    }
  }

  lemma {:induction false} ScaledXor(a: nat, b: nat, n: nat)
    ensures Xor(a * Pow2(n), b * Pow2(n)) == Xor(a, b) * Pow2(n)
  {
    hide Xor;
    if n == 0 {
    } else {
      ScaledXor(a, b, n - 1);
      XorDouble(a * Pow2(n - 1), b * Pow2(n - 1), false);
      assert a * Pow2(n) == 2 * (a * Pow2(n - 1)) && b * Pow2(n) == 2 * (b * Pow2(n - 1));
      assert Xor(a, b) * Pow2(n) == 2 * (Xor(a, b) * Pow2(n - 1));
    }
  }

  /** x^16 is the rest of the generator. */
  lemma SixteenShifts()
    ensures Shifted(1, 15) == 0x8000 && Shifted(1, 16) == Shift(0x8000, false) == 0x1021
  {
    hide Xor, Pow2;
    Powers();
    ShiftedScales(1, 15);
    ToggledOnce(GENERATOR, 16);
    SwapXor(GENERATOR, LIMIT);
  }

  lemma SwapXor(a: nat, b: nat)
    ensures Xor(a, b) == Xor(b, a)
  {
    hide Bit, Xor;
    forall k: nat ensures Bit(Xor(a, b), k) == Bit(Xor(b, a), k) { XorBits(a, b, k); XorBits(b, a, k); }
    SameBits(Xor(a, b), Xor(b, a));
  }

  /** Toggling a bit adds or subtracts its weight. */
  lemma {:induction false} ToggledOnce(x: nat, n: nat)
    ensures Xor(x, Pow2(n)) == if x / Pow2(n) % 2 == 1 then x - Pow2(n) else x + Pow2(n)
  {
    if n == 0 {
      XorZero(x / 2);
    } else {
      var p := Pow2(n - 1);
      ToggledOnce(x / 2, n - 1);
      assert x / (2 * p) == x / 2 / p by { HalfQuotient(x, p); }
    }
  }

  lemma HalfQuotient(x: nat, p: nat)
    requires p > 0
    ensures x / (2 * p) == x / 2 / p
  {
    var q, r := x / 2 / p, x / 2 % p;
    assert x == 2 * (q * p + r) + x % 2;
    assert x == q * (2 * p) + (2 * r + x % 2);
    DivisionUnique(x, 2 * p, q, 2 * r + x % 2);
  }

  function Toggle(x: nat, weight: nat): nat
    requires weight > 0
  {
    if x / weight % 2 == 1 && weight <= x then x - weight else x + weight
  }

  /** Adding the lower terms of the generator, in plain arithmetic. */
  function Toggled(x: nat): int {
    x + (if x % 2 == 1 then -1 else 1) + (if x / 32 % 2 == 1 then -32 else 32) + (if x / 4096 % 2 == 1 then -4096 else 4096)
  }

  lemma ToggledInTurn(x: nat)
    ensures Toggle(Toggle(Toggle(x, 1), 32), 4096) == Toggled(x)
  {
    var y := Toggle(x, 1);
    var z := Toggle(y, 32);
    LowestToggled(x);
    SixthToggled(y);
    HigherDigits(x, y, 2, 16);
    HigherDigits(x, y, 2, 2048);
    HigherDigits(y, z, 64, 64);
  }

  lemma LowestToggled(x: nat)
    ensures x / 2 == Toggle(x, 1) / 2
  {
  }

  lemma SixthToggled(x: nat)
    ensures x / 64 == Toggle(x, 32) / 64
  {
  }

  lemma HigherDigits(x: nat, y: nat, m: nat, n: nat)
    requires m > 0 && n > 0 && x / m == y / m
    ensures m * n > 0 && x / (m * n) == y / (m * n)
  {
    QuotientOfQuotient(x, m, n);
    QuotientOfQuotient(y, m, n);
  }

  lemma QuotientOfQuotient(x: nat, m: nat, n: nat)
    requires m > 0 && n > 0
    ensures m * n > 0 && x / (m * n) == x / m / n
  {
    var a, s := x / m, x % m;
    var q, r := a / n, a % n;
    assert x == a * m + s && a == q * n + r;
    assert a * m == q * (m * n) + r * m;
    MulLe(r + 1, n, m);
    assert (r + 1) * m == r * m + m && n * m == m * n;
    DivisionUnique(x, m * n, q, r * m + s);
  }

  lemma ToggledIsXor(x: nat)
    ensures Xor(x, 0x1021) == Toggled(x)
  {
    hide Xor;
    Pow2Values();
    assert Pow2(0) == 1 && Pow2(5) == 32;
    hide Pow2;
    ToggledOnce(x, 0);
    ToggledOnce(Toggle(x, 1), 5);
    ToggledOnce(Toggle(Toggle(x, 1), 32), 12);
    ToggledOnce(32, 12);
    ToggledOnce(4128, 0);
    SwapXor(4128, 1);
    XorAssociative(Xor(x, 1), 32, 4096);
    XorAssociative(x, 1, 4128);
    ToggledInTurn(x);
  }

  lemma XorAssociative(a: nat, b: nat, c: nat)
    ensures Xor(Xor(a, b), c) == Xor(a, Xor(b, c))
  {
    hide Bit, Xor;
    forall k: nat ensures Bit(Xor(Xor(a, b), c), k) == Bit(Xor(a, Xor(b, c)), k) {
      XorBits(Xor(a, b), c, k); XorBits(a, b, k);
      XorBits(a, Xor(b, c), k); XorBits(b, c, k);
    }
    SameBits(Xor(Xor(a, b), c), Xor(a, Xor(b, c)));
  }

  // ---------- The register form: x^16 multiplied in from the start ----------

  function Feed(c: nat, bits: seq<bool>): (r: nat)
    requires c < LIMIT
    ensures r < LIMIT
  {
    if bits == [] then c
    else
      var before, b := Feed(c, bits[..|bits| - 1]), if bits[|bits| - 1] then 0x8000 else 0;
      XorRegister(before, b);
      Shift(Xor(before, b), false)
  }

  lemma {:induction false} RemainderZeros(bits: seq<bool>, n: nat)
    ensures Remainder(bits + Zeros(n)) == Shifted(Remainder(bits), n)
  {
    hide Shift;
    if n == 0 {
      assert bits + Zeros(0) == bits;
    } else {
      RemainderZeros(bits, n - 1);
      assert (bits + Zeros(n))[..|bits| + n - 1] == bits + Zeros(n - 1);
    }
  }

  lemma ShiftAsXor(r: nat, b: bool)
    requires r < LIMIT
    ensures Shift(r, b) == Xor(Shift(r, false), One(b))
  {
    hide Xor;
    ShiftLinear(r, false, 0, b);
    XorZero(r);
  }

  lemma TopCoefficient(b: bool)
    ensures Shifted(One(b), 16) == Shift(if b then 0x8000 else 0, false)
  {
    SixteenShifts();
    ZeroShifted(16);
  }

  lemma {:induction false} FeedIsRemainder(bits: seq<bool>)
    ensures Feed(0, bits) == Shifted(Remainder(bits), 16)
  {
    hide Shift, Xor;
    if bits == [] {
      ZeroShifted(16);
    } else {
      var before, b := bits[..|bits| - 1], bits[|bits| - 1];
      FeedIsRemainder(before);
      var r, top := Remainder(before), if b then 0x8000 else 0;
      ShiftAsXor(r, b);
      ShiftedLinear(Shift(r, false), One(b), 16);
      TopCoefficient(b);
      ShiftLinear(Feed(0, before), false, top, false);
      assert Shifted(r, 1) == Shift(r, false) by { assert Shifted(r, 0) == r; }
      ShiftedSum(r, 1, 16);
      assert Shifted(r, 17) == Shift(Shifted(r, 16), false);
    }
  }

  lemma FeedCrc(s: seq<byte>)
    ensures Feed(0, Message(s)) == Crc(s)
  {
    FeedIsRemainder(Message(s));
    RemainderZeros(Message(s), 16);
  }

  lemma {:induction false} FeedNumber(c: nat, bits: seq<bool>)
    requires c < LIMIT && |bits| <= 16
    ensures Number(bits) * Pow2(16 - |bits|) < LIMIT && Xor(c, Number(bits) * Pow2(16 - |bits|)) < LIMIT
    ensures Feed(c, bits) == Shifted(Xor(c, Number(bits) * Pow2(16 - |bits|)), |bits|)
  {
    hide Xor, Shift, Pow2;
    NumberBound(bits);
    XorRegister(c, Number(bits) * Pow2(16 - |bits|));
    if bits == [] {
      XorZero(c);
    } else {
      var n := |bits| - 1;
      NumberBound(bits[..n]);
      FeedNumber(c, bits[..n]);
      NextCoefficient(c, Number(bits[..n]), bits[n], n);
    }
  }

  /** Bringing in the n-th coefficient at the top of the register or below the earlier ones comes to the same. */
  lemma NextCoefficient(c: nat, x: nat, b: bool, n: nat)
    requires c < LIMIT && n <= 15 && x * Pow2(16 - n) < LIMIT && Xor(c, x * Pow2(16 - n)) < LIMIT
    requires (2 * x + One(b)) * Pow2(15 - n) < LIMIT && Xor(c, (2 * x + One(b)) * Pow2(15 - n)) < LIMIT
    ensures Xor(Shifted(Xor(c, x * Pow2(16 - n)), n), if b then 0x8000 else 0)
         == Shifted(Xor(c, (2 * x + One(b)) * Pow2(15 - n)), n)
  {
    hide Xor, Shift, Shifted, Pow2;
    var high, low := x * Pow2(16 - n), One(b) * Pow2(15 - n);
    ScaledBit(b, n);
    SumAsXor(x, b, 15 - n);
    XorAssociative(c, high, low);
    ShiftedLinear(Xor(c, high), low, n);
  }

  lemma SumAsXor(x: nat, b: bool, n: nat)
    ensures Xor(x * Pow2(n + 1), One(b) * Pow2(n)) == (2 * x + One(b)) * Pow2(n)
  {
    hide Xor;
    var p := Pow2(n);
    assert x * Pow2(n + 1) == 2 * x * p by { DoubledProduct(x, p); assert 2 * x * p == 2 * (x * p); }
    hide Pow2;
    XorDouble(x, 0, b);
    XorZero(x);
    ScaledXor(2 * x, One(b), n);
  }

  /** A coefficient reaches the top of the register without overflow. */
  lemma ScaledBit(b: bool, n: nat)
    requires n <= 15
    ensures One(b) * Pow2(15 - n) < LIMIT && Shifted(One(b) * Pow2(15 - n), n) == if b then 0x8000 else 0
  {
    hide Shift, Shifted, Pow2;
    Powers();
    Pow2Monotone(15 - n, 15);
    if b {
      Pow2Sum(15 - n, n);
      ShiftedScales(Pow2(15 - n), n);
    } else {
      ZeroShifted(n);
    }
  }

  lemma {:induction false} Pow2Sum(a: nat, b: nat)
    ensures Pow2(a) * Pow2(b) == Pow2(a + b)
  {
    if b == 0 {
    } else {
      Pow2Sum(a, b - 1);
      DoubledProduct(Pow2(a), Pow2(b - 1));
    }
  }

  lemma {:induction false} NumberBelow(bits: seq<bool>)
    ensures Number(bits) < Pow2(|bits|)
  {
    if bits == [] {
    } else {
      NumberBelow(bits[..|bits| - 1]);
    }
  }

  lemma NumberBound(bits: seq<bool>)
    requires |bits| <= 16
    ensures Number(bits) * Pow2(16 - |bits|) < LIMIT
  {
    hide Number, Pow2;
    Powers();
    NumberBelow(bits);
    Pow2Sum(|bits|, 16 - |bits|);
    LessTimes(Number(bits), Pow2(|bits|), Pow2(16 - |bits|));
  }

  lemma LessTimes(a: nat, b: nat, p: nat)
    requires a < b && p > 0
    ensures a * p < b * p
  {
    MulLe(a + 1, b, p);
    assert (a + 1) * p == a * p + p;
  }

  lemma {:induction false} ShrStep(w: nat, n: nat)
    ensures Shr(w, n) == 2 * Shr(w, n + 1) + One(Bit(w, n))
  {
    if n == 0 {
    } else {
      ShrStep(w / 2, n - 1);
    }
  }

  lemma {:induction false} ShrAll(w: nat, n: nat)
    requires w < Pow2(n)
    ensures Shr(w, n) == 0
  {
    if n == 0 {
    } else {
      ShrAll(w / 2, n - 1);
    }
  }

  lemma {:induction false} NumberOfPrefix(b: byte, n: nat)
    requires n <= 8
    ensures Number(BitsOf(b)[..n]) == Shr(b, 8 - n)
  {
    hide Shr, Bit, Pow2;
    if n == 0 {
      Pow2Values();
      ShrAll(b, 8);
    } else {
      NumberOfPrefix(b, n - 1);
      ShrStep(b, 8 - n);
      assert BitsOf(b)[..n][..n - 1] == BitsOf(b)[..n - 1];
      assert BitsOf(b)[n - 1] == Bit(b, 8 - n);
    }
  }

  lemma NumberOfByte(b: byte)
    ensures Number(BitsOf(b)) == b
  {
    NumberOfPrefix(b, 8);
    assert BitsOf(b)[..8] == BitsOf(b);
  }

  /** The register after one more byte. */
  function Next(c: nat, d: byte): (r: nat)
    requires c < LIMIT
    ensures r < LIMIT
  {
    XorRegister(c, 256 * d);
    Shifted(Xor(c, 256 * d), 8)
  }

  lemma FeedByte(c: nat, d: byte)
    requires c < LIMIT
    ensures Feed(c, BitsOf(d)) == Next(c, d)
  {
    hide Number, Feed, Shifted, Xor, BitsOf;
    Pow2Values();
    NumberOfByte(d);
    FeedNumber(c, BitsOf(d));
  }

  lemma {:induction false} FeedSplit(c: nat, a: seq<bool>, b: seq<bool>)
    requires c < LIMIT
    ensures Feed(c, a + b) == Feed(Feed(c, a), b)
  {
    hide Shift, Xor;
    if b == [] {
      assert a + b == a;
    } else {
      FeedSplit(c, a, b[..|b| - 1]);
      assert (a + b)[..|a + b| - 1] == a + b[..|b| - 1];
    }
  }

  /** The CRC of a longer message from that of the shorter one. */
  lemma CrcNext(s: seq<byte>, d: byte)
    ensures Crc(s + [d]) == Next(Crc(s), d)
  {
    hide Crc, Feed, Next, BitsOf;
    FeedCrc(s);
    FeedCrc(s + [d]);
    assert (s + [d])[..|s|] == s;
    assert Message(s + [d]) == Message(s) + BitsOf(d);
    FeedSplit(0, Message(s), BitsOf(d));
    FeedByte(Crc(s), d);
  }

  // ---------- Shift and fold ----------

  /** After up to four shifts: the register moved up, and the bits shifted out at the terms of the generator. */
  predicate AfterFew(v: nat, n: nat, k: nat)
    requires n <= 4 && k < 16
  {
    (k >= n && Bit(v, k - n)) != ((k < n && Bit(v, 16 - n + k))
      != ((5 <= k < 5 + n && Bit(v, 11 - n + k)) != (12 <= k < 12 + n && Bit(v, 4 - n + k))))
  }

  lemma {:induction false} FewShifts(v: nat, n: nat, k: nat)
    requires v < LIMIT && n <= 4 && k < 16
    ensures Bit(Shifted(v, n), k) == AfterFew(v, n, k)
  {
    hide Bit, Shift;
    if n == 0 {
    } else {
      ShiftBits(Shifted(v, n - 1), false, k);
      if k > 0 { FewShifts(v, n - 1, k - 1); }
      FewShifts(v, n - 1, 15);
    }
  }

  /** Bit `j` of the byte that is shifted out, folded once. */
  predicate FoldedOnce(v: nat, j: int) {
    0 <= j < 8 && Bit(v, 8 + j) != (j < 4 && Bit(v, 12 + j))
  }

  /** Where the fold puts the bits of the register `v`. */
  predicate Folded(v: nat, k: nat)
    requires k < 16
  {
    (k >= 8 && Bit(v, k - 8)) != (FoldedOnce(v, k) != (FoldedOnce(v, k - 12) != FoldedOnce(v, k - 5)))
  }

  lemma EightShifts(v: nat, k: nat)
    requires v < LIMIT && k < 16
    ensures Bit(Shifted(v, 8), k) == Folded(v, k)
  {
    hide Bit, Shift, Shifted;
    ShiftedSum(v, 4, 4);
    var w := Shifted(v, 4);
    FewShifts(w, 4, k);
    forall j: nat | j < 16 ensures Bit(w, j) == AfterFew(v, 4, j) { FewShifts(v, 4, j); }
  }

  /** The five statements of the loop body, in 16-bit arithmetic. */
  function Swapped(crc: nat): (r: nat)
    ensures r < LIMIT
  {
    Or(Shr(crc, 8), Shl(crc, 8)) % LIMIT
  }

  function Fold(crc: nat, data: byte): nat {
    var c1 := Xor(Swapped(crc), data);
    var c2 := Xor(c1, Shr(And(c1, 0xff), 4));
    var c3 := Xor(c2, Shl(c2, 12)) % LIMIT;
    Xor(c3, Shl(And(c3, 0xff), 5)) % LIMIT
  }

  lemma Truncated(w: nat, k: nat)
    requires k < 16
    ensures Bit(w % LIMIT, k) == Bit(w, k)
  {
    Powers();
    LowByteBits(w, k, 16);
  }

  lemma RegisterShl(w: nat, n: nat, k: nat)
    requires w < LIMIT && n <= 12
    ensures Bit(Shl(w, n), k) == (n <= k && Bit(w, k - n))
  {
    hide Bit;
    Pow2Values();
    Pow2Monotone(n, 12);
    hide Pow2;
    MulLe(w, LIMIT, Pow2(n));
    ShlBits(w, n, k);
  }

  lemma LowByte(w: nat, k: nat)
    ensures Bit(And(w, 0xff), k) == (k < 8 && Bit(w, k))
  {
    Pow2Values();
    AndBits(w, 0xff, k);
    OnesBits(8, k);
  }

  lemma LowByteBound(w: nat)
    ensures And(w, 0xff) < 256
  {
    Pow2Values();
    forall k: nat | 8 <= k ensures !Bit(And(w, 0xff), k) { LowByte(w, k); }
    BoundedBits(And(w, 0xff), 8);
  }

  lemma SwappedBits(crc: nat, k: nat)
    requires crc < LIMIT && k < 16
    ensures Bit(Swapped(crc), k) == if k < 8 then Bit(crc, k + 8) else Bit(crc, k - 8)
  {
    hide Bit, Or, Shl, Shr, Pow2;
    Truncated(Or(Shr(crc, 8), Shl(crc, 8)), k);
    OrBits(Shr(crc, 8), Shl(crc, 8), k);
    ShrBits(crc, 8, k);
    RegisterShl(crc, 8, k);
    Powers();
    if k >= 8 { HighBits(crc, 16, k + 8); }
  }

  lemma FoldBits(crc: nat, data: byte, v: nat, k: nat)
    requires crc < LIMIT && k < 16 && v == Xor(crc, 256 * data)
    ensures Bit(Fold(crc, data), k) == Folded(v, k)
  {
    hide Bit, Or, And, Xor, Shl, Shr, Swapped, Pow2;
    Powers();
    var c1 := Xor(Swapped(crc), data);
    XorRegister(Swapped(crc), data);
    forall j: nat | j < 16 ensures Bit(c1, j) == if j < 8 then Bit(v, j + 8) else Bit(v, j - 8) {
      MixedByte(crc, data, j);
    }
    var c2 := Xor(c1, Shr(And(c1, 0xff), 4));
    LowByteBound(c1);
    ShrBound(And(c1, 0xff), 4);
    XorRegister(c1, Shr(And(c1, 0xff), 4));
    forall j: nat | j < 16 ensures Bit(c2, j) == if j < 8 then FoldedOnce(v, j) else Bit(v, j - 8) {
      XorBits(c1, Shr(And(c1, 0xff), 4), j);
      ShrBits(And(c1, 0xff), 4, j);
      LowByte(c1, 4 + j);
    }
    var c3 := Xor(c2, Shl(c2, 12)) % LIMIT;
    HighFold(c2, k);
    if k >= 5 { HighFold(c2, k - 5); }
    LastFold(c3, k);
    assert FoldedOnce(v, k - 5) == (5 <= k < 13 && Bit(c3, k - 5));
    assert FoldedOnce(v, k - 12) == (12 <= k && Bit(c2, k - 12));
  }

  lemma HighFold(c: nat, k: nat)
    requires c < LIMIT && k < 16
    ensures Bit(Xor(c, Shl(c, 12)) % LIMIT, k) == (Bit(c, k) != (12 <= k && Bit(c, k - 12)))
  {
    hide Bit, Xor, Shl;
    Truncated(Xor(c, Shl(c, 12)), k);
    XorBits(c, Shl(c, 12), k);
    RegisterShl(c, 12, k);
  }

  lemma LastFold(c: nat, k: nat)
    requires c < LIMIT && k < 16
    ensures Bit(Xor(c, Shl(And(c, 0xff), 5)) % LIMIT, k) == (Bit(c, k) != (5 <= k < 13 && Bit(c, k - 5)))
  {
    hide Bit, And, Xor, Shl;
    Truncated(Xor(c, Shl(And(c, 0xff), 5)), k);
    XorBits(c, Shl(And(c, 0xff), 5), k);
    LowByteBound(c);
    RegisterShl(And(c, 0xff), 5, k);
    if k >= 5 { LowByte(c, k - 5); }
  }

  lemma MixedByte(crc: nat, data: byte, j: nat)
    requires crc < LIMIT && j < 16
    ensures Bit(Xor(Swapped(crc), data), j)
         == if j < 8 then Bit(Xor(crc, 256 * data), j + 8) else Bit(Xor(crc, 256 * data), j - 8)
  {
    hide Bit, Xor, Swapped;
    XorBits(Swapped(crc), data, j);
    SwappedBits(crc, j);
    var i: nat := if j < 8 then j + 8 else j - 8;
    XorBits(crc, 256 * data, i);
    Pow2Values();
    ScaledBits(data, 8, i);
    if j >= 8 { HighBits(data, 8, j); }
  }

  lemma {:induction false} ShrBound(w: nat, n: nat)
    ensures Shr(w, n) <= w
  {
    if n == 0 {
    } else {
      ShrBound(w / 2, n - 1);
    }
  }

  /** The loop body of the source advances the register by one byte. */
  lemma FoldIsNext(crc: nat, data: byte)
    requires crc < LIMIT
    ensures Fold(crc, data) == Next(crc, data)
  {
    hide Bit, Xor, Fold, Shifted;
    XorRegister(crc, 256 * data);
    FoldBound(crc, data);
    forall k: nat | k < 16 ensures Bit(Fold(crc, data), k) == Bit(Next(crc, data), k) {
      FoldBits(crc, data, Xor(crc, 256 * data), k);
      EightShifts(Xor(crc, 256 * data), k);
    }
    SameRegister(Fold(crc, data), Next(crc, data));
  }

  lemma FoldBound(crc: nat, data: byte)
    ensures Fold(crc, data) < LIMIT
  {
  }

  /** The overload over a memory range; an empty or inverted range has CRC 0. */
  method CrcOfRange(mem: seq<byte>, start: nat, end: nat) returns (crc: nat)
    requires start <= |mem| && end <= |mem|
    ensures crc == if start < end then Crc(mem[start..end]) else Crc([])
  {
    hide Crc, Next, Xor, Or, Shl, Shr, And;
    EmptyCrc();
    crc := 0;
    var data := start;
    while data < end
      invariant data <= end || data == start
      invariant crc == if start < data then Crc(mem[start..data]) else Crc([])
      decreases end - data
    {
      assert mem[start..data + 1] == mem[start..data] + [mem[data]];
      assert mem[start..start] == [];
      CrcNext(mem[start..data], mem[data]);
      FoldIsNext(crc, mem[data]);
      ghost var was := crc;
      crc := Or(Shr(crc, 8), Shl(crc, 8)) % LIMIT;
      crc := Xor(crc, mem[data]);
      crc := Xor(crc, Shr(And(crc, 0xff), 4));
      crc := Xor(crc, Shl(crc, 12)) % LIMIT;
      crc := Xor(crc, Shl(And(crc, 0xff), 5)) % LIMIT;
      assert crc == Fold(was, mem[data]);
      data := data + 1;
    }
  }

  method CrcOfSpan(buffer: seq<byte>) returns (crc: nat)
    ensures crc == Crc(buffer)
  {
    hide Crc, Next, Xor, Or, Shl, Shr, And;
    EmptyCrc();
    crc := 0;
    for i := 0 to |buffer|
      invariant crc == Crc(buffer[..i])
    {
      var data := buffer[i];
      assert buffer[..i + 1] == buffer[..i] + [data];
      CrcNext(buffer[..i], data);
      FoldIsNext(crc, data);
      ghost var was := crc;
      crc := Or(Shr(crc, 8), Shl(crc, 8)) % LIMIT;
      crc := Xor(crc, data);
      crc := Xor(crc, Shr(And(crc, 0xff), 4));
      crc := Xor(crc, Shl(crc, 12)) % LIMIT;
      crc := Xor(crc, Shl(And(crc, 0xff), 5)) % LIMIT;
      assert crc == Fold(was, data);
    }
    assert buffer[..|buffer|] == buffer;
  }

  lemma EmptyCrc()
    ensures Crc([]) == 0
  {
    FeedCrc([]);
  }

  // ---------- The table ----------

  /** Eight entries of the table. */
  function Row(i: nat): (r: seq<nat>)
    ensures |r| == 8
  {
    if i == 0 then [0x0000, 0x1021, 0x2042, 0x3063, 0x4084, 0x50a5, 0x60c6, 0x70e7]
    else if i == 1 then [0x8108, 0x9129, 0xa14a, 0xb16b, 0xc18c, 0xd1ad, 0xe1ce, 0xf1ef]
    else if i == 2 then [0x1231, 0x0210, 0x3273, 0x2252, 0x52b5, 0x4294, 0x72f7, 0x62d6]
    else if i == 3 then [0x9339, 0x8318, 0xb37b, 0xa35a, 0xd3bd, 0xc39c, 0xf3ff, 0xe3de]
    else if i == 4 then [0x2462, 0x3443, 0x0420, 0x1401, 0x64e6, 0x74c7, 0x44a4, 0x5485]
    else if i == 5 then [0xa56a, 0xb54b, 0x8528, 0x9509, 0xe5ee, 0xf5cf, 0xc5ac, 0xd58d]
    else if i == 6 then [0x3653, 0x2672, 0x1611, 0x0630, 0x76d7, 0x66f6, 0x5695, 0x46b4]
    else if i == 7 then [0xb75b, 0xa77a, 0x9719, 0x8738, 0xf7df, 0xe7fe, 0xd79d, 0xc7bc]
    else if i == 8 then [0x48c4, 0x58e5, 0x6886, 0x78a7, 0x0840, 0x1861, 0x2802, 0x3823]
    else if i == 9 then [0xc9cc, 0xd9ed, 0xe98e, 0xf9af, 0x8948, 0x9969, 0xa90a, 0xb92b]
    else if i == 10 then [0x5af5, 0x4ad4, 0x7ab7, 0x6a96, 0x1a71, 0x0a50, 0x3a33, 0x2a12]
    else if i == 11 then [0xdbfd, 0xcbdc, 0xfbbf, 0xeb9e, 0x9b79, 0x8b58, 0xbb3b, 0xab1a]
    else if i == 12 then [0x6ca6, 0x7c87, 0x4ce4, 0x5cc5, 0x2c22, 0x3c03, 0x0c60, 0x1c41]
    else if i == 13 then [0xedae, 0xfd8f, 0xcdec, 0xddcd, 0xad2a, 0xbd0b, 0x8d68, 0x9d49]
    else if i == 14 then [0x7e97, 0x6eb6, 0x5ed5, 0x4ef4, 0x3e13, 0x2e32, 0x1e51, 0x0e70]
    else if i == 15 then [0xff9f, 0xefbe, 0xdfdd, 0xcffc, 0xbf1b, 0xaf3a, 0x9f59, 0x8f78]
    else if i == 16 then [0x9188, 0x81a9, 0xb1ca, 0xa1eb, 0xd10c, 0xc12d, 0xf14e, 0xe16f]
    else if i == 17 then [0x1080, 0x00a1, 0x30c2, 0x20e3, 0x5004, 0x4025, 0x7046, 0x6067]
    else if i == 18 then [0x83b9, 0x9398, 0xa3fb, 0xb3da, 0xc33d, 0xd31c, 0xe37f, 0xf35e]
    else if i == 19 then [0x02b1, 0x1290, 0x22f3, 0x32d2, 0x4235, 0x5214, 0x6277, 0x7256]
    else if i == 20 then [0xb5ea, 0xa5cb, 0x95a8, 0x8589, 0xf56e, 0xe54f, 0xd52c, 0xc50d]
    else if i == 21 then [0x34e2, 0x24c3, 0x14a0, 0x0481, 0x7466, 0x6447, 0x5424, 0x4405]
    else if i == 22 then [0xa7db, 0xb7fa, 0x8799, 0x97b8, 0xe75f, 0xf77e, 0xc71d, 0xd73c]
    else if i == 23 then [0x26d3, 0x36f2, 0x0691, 0x16b0, 0x6657, 0x7676, 0x4615, 0x5634]
    else if i == 24 then [0xd94c, 0xc96d, 0xf90e, 0xe92f, 0x99c8, 0x89e9, 0xb98a, 0xa9ab]
    else if i == 25 then [0x5844, 0x4865, 0x7806, 0x6827, 0x18c0, 0x08e1, 0x3882, 0x28a3]
    else if i == 26 then [0xcb7d, 0xdb5c, 0xeb3f, 0xfb1e, 0x8bf9, 0x9bd8, 0xabbb, 0xbb9a]
    else if i == 27 then [0x4a75, 0x5a54, 0x6a37, 0x7a16, 0x0af1, 0x1ad0, 0x2ab3, 0x3a92]
    else if i == 28 then [0xfd2e, 0xed0f, 0xdd6c, 0xcd4d, 0xbdaa, 0xad8b, 0x9de8, 0x8dc9]
    else if i == 29 then [0x7c26, 0x6c07, 0x5c64, 0x4c45, 0x3ca2, 0x2c83, 0x1ce0, 0x0cc1]
    else if i == 30 then [0xef1f, 0xff3e, 0xcf5d, 0xdf7c, 0xaf9b, 0xbfba, 0x8fd9, 0x9ff8]
    else [0x6e17, 0x7e36, 0x4e55, 0x5e74, 0x2e93, 0x3eb2, 0x0ed1, 0x1ef0]
  }

  function Table(t: nat): nat
    requires t < 256
  {
    Row(t / 8)[t % 8]
  }

  /** One shift in plain arithmetic. */
  function Doubled(r: nat): int {
    if r < 0x8000 then 2 * r else Toggled(2 * r - LIMIT)
  }

  predicate Doubles(x: nat, y: nat, z: nat) {
    y == Doubled(x) && z == Toggled(y)
  }

  /** Row `a` is made of half of row `r`, from entry `from` on. */
  predicate MadeOf(a: seq<nat>, r: seq<nat>, from: nat)
    requires |a| == |r| == 8 && from <= 4
  {
    && Doubles(r[from], a[0], a[1]) && Doubles(r[from + 1], a[2], a[3])
    && Doubles(r[from + 2], a[4], a[5]) && Doubles(r[from + 3], a[6], a[7])
  }

  lemma RowMade0()
    ensures MadeOf(Row(0), Row(0), 0)
  {
  }

  lemma RowMade1()
    ensures MadeOf(Row(1), Row(0), 4)
  {
  }

  lemma RowMade2()
    ensures MadeOf(Row(2), Row(1), 0)
  {
  }

  lemma RowMade3()
    ensures MadeOf(Row(3), Row(1), 4)
  {
  }

  lemma RowMade4()
    ensures MadeOf(Row(4), Row(2), 0)
  {
  }

  lemma RowMade5()
    ensures MadeOf(Row(5), Row(2), 4)
  {
  }

  lemma RowMade6()
    ensures MadeOf(Row(6), Row(3), 0)
  {
  }

  lemma RowMade7()
    ensures MadeOf(Row(7), Row(3), 4)
  {
  }

  lemma RowMade8()
    ensures MadeOf(Row(8), Row(4), 0)
  {
  }

  lemma RowMade9()
    ensures MadeOf(Row(9), Row(4), 4)
  {
  }

  lemma RowMade10()
    ensures MadeOf(Row(10), Row(5), 0)
  {
  }

  lemma RowMade11()
    ensures MadeOf(Row(11), Row(5), 4)
  {
  }

  lemma RowMade12()
    ensures MadeOf(Row(12), Row(6), 0)
  {
  }

  lemma RowMade13()
    ensures MadeOf(Row(13), Row(6), 4)
  {
  }

  lemma RowMade14()
    ensures MadeOf(Row(14), Row(7), 0)
  {
  }

  lemma RowMade15()
    ensures MadeOf(Row(15), Row(7), 4)
  {
  }

  lemma RowMade16()
    ensures MadeOf(Row(16), Row(8), 0)
  {
  }

  lemma RowMade17()
    ensures MadeOf(Row(17), Row(8), 4)
  {
  }

  lemma RowMade18()
    ensures MadeOf(Row(18), Row(9), 0)
  {
  }

  lemma RowMade19()
    ensures MadeOf(Row(19), Row(9), 4)
  {
  }

  lemma RowMade20()
    ensures MadeOf(Row(20), Row(10), 0)
  {
  }

  lemma RowMade21()
    ensures MadeOf(Row(21), Row(10), 4)
  {
  }

  lemma RowMade22()
    ensures MadeOf(Row(22), Row(11), 0)
  {
  }

  lemma RowMade23()
    ensures MadeOf(Row(23), Row(11), 4)
  {
  }

  lemma RowMade24()
    ensures MadeOf(Row(24), Row(12), 0)
  {
  }

  lemma RowMade25()
    ensures MadeOf(Row(25), Row(12), 4)
  {
  }

  lemma RowMade26()
    ensures MadeOf(Row(26), Row(13), 0)
  {
  }

  lemma RowMade27()
    ensures MadeOf(Row(27), Row(13), 4)
  {
  }

  lemma RowMade28()
    ensures MadeOf(Row(28), Row(14), 0)
  {
  }

  lemma RowMade29()
    ensures MadeOf(Row(29), Row(14), 4)
  {
  }

  lemma RowMade30()
    ensures MadeOf(Row(30), Row(15), 0)
  {
  }

  lemma RowMade31()
    ensures MadeOf(Row(31), Row(15), 4)
  {
  }

  lemma RowsMade(i: nat)
    requires i < 32
    ensures MadeOf(Row(i), Row(i / 2), if i % 2 == 0 then 0 else 4)
  {
    hide Row, MadeOf;
    RowMade0(); RowMade1(); RowMade2(); RowMade3(); RowMade4(); RowMade5(); RowMade6(); RowMade7();
    RowMade8(); RowMade9(); RowMade10(); RowMade11(); RowMade12(); RowMade13(); RowMade14(); RowMade15();
    RowMade16(); RowMade17(); RowMade18(); RowMade19(); RowMade20(); RowMade21(); RowMade22(); RowMade23();
    RowMade24(); RowMade25(); RowMade26(); RowMade27(); RowMade28(); RowMade29(); RowMade30(); RowMade31();
  }

  lemma DoubledIsShift(r: nat)
    requires r < LIMIT
    ensures Doubled(r) == Shift(r, false)
  {
    hide Xor, Toggled;
    Powers();
    if r >= 0x8000 {
      var x := 2 * r - LIMIT;
      ToggledOnce(x, 16);
      ToggledOnce(0x1021, 16);
      XorAgain(x, 0x1021, LIMIT);
      ToggledIsXor(x);
    }
  }

  lemma TableDoubles(s: nat)
    requires s < 128
    ensures Table(2 * s) == Doubled(Table(s)) && Table(2 * s + 1) == Toggled(Table(2 * s))
  {
    hide Row, Doubled, Toggled;
    RowsMade(2 * s / 8);
    assert 2 * s / 8 / 2 == s / 8 && (2 * s / 8 % 2 == 0 <==> s % 8 < 4);
    assert (2 * s + 1) / 8 == 2 * s / 8;
  }

  /** An entry of the table is what the eight shifts make of its index. */
  lemma {:induction false} TableRight(t: nat)
    requires t < 256
    ensures Table(t) == Shifted(256 * t, 8)
  {
    hide Table, Shift, Shifted, Xor, Doubled, Toggled;
    if t == 0 {
      ZeroShifted(8);
      assert Table(0) == 0 by { FirstEntry(); }
    } else {
      var s := t / 2;
      TableRight(s);
      TableDoubles(s);
      DoubledIsShift(Table(s));
      assert Shifted(512 * s, 8) == Table(2 * s) by {
        OneShift(256 * s);
        ShiftedSum(256 * s, 1, 8);
        LastShift(256 * s, 8);
      }
      if t == 2 * s + 1 {
        OddEntry(s);
        ToggledIsXor(Table(2 * s));
      }
    }
  }

  lemma FirstEntry()
    ensures Table(0) == 0
  {
  }

  lemma OneShift(r: nat)
    requires 2 * r < LIMIT
    ensures Shifted(r, 1) == 2 * r
  {
    SmallShift(r);
    assert Shifted(r, 0) == r;
  }

  lemma LastShift(r: nat, n: nat)
    requires r < LIMIT
    ensures Shifted(r, n + 1) == Shift(Shifted(r, n), false)
  {
  }

  lemma OddEntry(s: nat)
    requires s < 128
    ensures Shifted(256 * (2 * s + 1), 8) == Xor(Shifted(512 * s, 8), 0x1021)
  {
    hide Xor, Shift, Shifted;
    Pow2Values();
    SumAsXor(s, true, 8);
    assert Pow2(9) == 512;
    ShiftedLinear(512 * s, 256, 8);
    ShiftedScales(1, 8);
    ShiftedSum(1, 8, 8);
    SixteenShifts();
  }

  /** The loop body of the table-driven form. */
  function TableStep(crc: nat, octet: byte): nat
    requires crc < LIMIT
  {
    LowByteBound(Xor(Shr(crc, 8), octet));
    And(Xor(Shl(crc, 8), Table(And(Xor(Shr(crc, 8), octet), 0xff))), 0xffff)
  }

  /** The high byte of a register, mixed with the next byte of the message, is the index. */
  lemma IndexIsHighByte(crc: nat, octet: byte)
    requires crc < LIMIT
    ensures Xor(crc, 256 * octet) < LIMIT
    ensures And(Xor(Shr(crc, 8), octet), 0xff) == Xor(crc, 256 * octet) / 256
  {
    hide Bit, And, Xor, Shr;
    var v := Xor(crc, 256 * octet);
    XorRegister(crc, 256 * octet);
    LowByteBound(Xor(Shr(crc, 8), octet));
    var x := And(Xor(Shr(crc, 8), octet), 0xff);
    forall k: nat ensures Bit(x, k) == Bit(v / 256, k) {
      LowByte(Xor(Shr(crc, 8), octet), k);
      XorBits(Shr(crc, 8), octet, k);
      ShrBits(crc, 8, k);
      ShiftByte(v, k);
      XorBits(crc, 256 * octet, 8 + k);
      Pow2Values();
      ScaledBits(octet, 8, 8 + k);
      Powers();
      if k >= 8 { HighBits(v, 16, 8 + k); }
    }
    SameBits(x, v / 256);
  }

  /** The low byte moves up and nothing above it survives the mask. */
  lemma MaskedMove(crc: nat, octet: byte, t: nat)
    requires crc < LIMIT && t < LIMIT
    ensures Xor(crc, 256 * octet) < LIMIT
    ensures And(Xor(Shl(crc, 8), t), 0xffff) == Xor(t, 256 * (Xor(crc, 256 * octet) % 256))
  {
    hide Bit, And, Xor, Shl;
    var v := Xor(crc, 256 * octet);
    XorRegister(crc, 256 * octet);
    Powers();
    Pow2Values();
    var x, y := And(Xor(Shl(crc, 8), t), 0xffff), Xor(t, 256 * (v % 256));
    forall k: nat ensures Bit(x, k) == Bit(y, k) {
      AndBits(Xor(Shl(crc, 8), t), 0xffff, k);
      OnesBits(16, k);
      XorBits(Shl(crc, 8), t, k);
      RegisterShl(crc, 8, k);
      XorBits(t, 256 * (v % 256), k);
      ScaledBits(v % 256, 8, k);
      if k >= 8 { MovedBit(crc, octet, k - 8); }
      if k >= 16 { HighBits(t, 16, k); }
    }
    SameBits(x, y);
  }

  lemma MovedBit(crc: nat, octet: byte, k: nat)
    ensures Bit(Xor(crc, 256 * octet) % 256, k) == (k < 8 && Bit(crc, k))
  {
    hide Xor, Bit;
    Pow2Values();
    if k < 8 {
      LowByteBits(Xor(crc, 256 * octet), k, 8);
      XorBits(crc, 256 * octet, k);
      ScaledBits(octet, 8, k);
    } else {
      HighBits(Xor(crc, 256 * octet) % 256, 8, k);
    }
  }

  lemma SplitRegister(v: nat)
    requires v < LIMIT
    ensures Shifted(v, 8) == Xor(Shifted(256 * (v / 256), 8), 256 * (v % 256))
  {
    hide Bit, Xor, Shift, Shifted;
    Pow2Values();
    var high, low := v / 256, v % 256;
    forall k: nat ensures Bit(Xor(256 * high, low), k) == Bit(v, k) {
      XorBits(256 * high, low, k);
      ScaledBits(high, 8, k);
      if k < 8 { LowByteBits(v, k, 8); } else { ShiftByte(v, k - 8); HighBits(low, 8, k); }
    }
    SameBits(Xor(256 * high, low), v);
    ShiftedLinear(256 * high, low, 8);
    ShiftedScales(low, 8);
  }

  lemma TableStepIsNext(crc: nat, octet: byte)
    requires crc < LIMIT
    ensures TableStep(crc, octet) == Next(crc, octet)
  {
    hide And, Xor, Shl, Shr, Table, Shifted;
    IndexIsHighByte(crc, octet);
    var v := Xor(crc, 256 * octet);
    TableRight(v / 256);
    MaskedMove(crc, octet, Table(v / 256));
    SplitRegister(v);
  }

  /** The ground's form continues from `crc`; from 0 it computes the same CRC. */
  method CalcCrc(data: seq<byte>, crc: nat) returns (r: nat)
    requires crc < LIMIT
    ensures r == Feed(crc, Message(data))
    ensures crc == 0 ==> r == Crc(data)
  {
    hide And, Xor, Shl, Shr, Table, Next, Feed, Message, Crc;
    FeedNothing(crc);
    FeedCrc(data);
    r := crc;
    for i := 0 to |data|
      invariant r < LIMIT && r == Feed(crc, Message(data[..i]))
    {
      var octet := data[i];
      assert data[..i + 1] == data[..i] + [octet];
      FeedMore(crc, data[..i], octet);
      TableStepIsNext(r, octet);
      LowByteBound(Xor(Shr(r, 8), octet));
      var index := And(Xor(Shr(r, 8), octet), 0xff);
      r := And(Xor(Shl(r, 8), Table(index)), 0xffff);
    }
    assert data[..|data|] == data;
    Kept(r);
    r := And(r, 0xffff);
  }

  lemma FeedNothing(crc: nat)
    requires crc < LIMIT
    ensures Feed(crc, Message([])) == crc
  {
  }

  lemma FeedMore(crc: nat, s: seq<byte>, d: byte)
    requires crc < LIMIT
    ensures Feed(crc, Message(s + [d])) == Next(Feed(crc, Message(s)), d)
  {
    hide Feed, Next, BitsOf;
    assert (s + [d])[..|s|] == s;
    FeedSplit(crc, Message(s), BitsOf(d));
    FeedByte(Feed(crc, Message(s)), d);
  }

  lemma Kept(r: nat)
    requires r < LIMIT
    ensures And(r, 0xffff) == r
  {
    hide And, Bit;
    Powers();
    forall k: nat ensures Bit(And(r, 0xffff), k) == Bit(r, k) {
      AndBits(r, 0xffff, k);
      OnesBits(16, k);
      if k >= 16 { HighBits(r, 16, k); }
    }
    SameBits(And(r, 0xffff), r);
  }

  // ---------- What the CRC detects ----------

  function XorByte(a: byte, b: byte): byte {
    Pow2Values();
    XorBound(a, b, 8);
    Xor(a, b)
  }

  function Xored(a: seq<byte>, b: seq<byte>): (c: seq<byte>)
    requires |a| == |b|
    ensures |c| == |a|
  {
    seq(|a|, i requires 0 <= i < |a| => XorByte(a[i], b[i]))
  }

  lemma NextLinear(c: nat, x: byte, d: nat, y: byte)
    requires c < LIMIT && d < LIMIT
    ensures Xor(c, d) < LIMIT && Next(Xor(c, d), XorByte(x, y)) == Xor(Next(c, x), Next(d, y))
  {
    hide Xor, Shifted;
    XorRegister(c, d);
    Pow2Values();
    ScaledXor(x, y, 8);
    XorSwap(c, d, 256 * x, 256 * y);
    XorRegister(c, 256 * x);
    XorRegister(d, 256 * y);
    ShiftedLinear(Xor(c, 256 * x), Xor(d, 256 * y), 8);
  }

  /** On messages of one length the CRC is linear. */
  lemma {:induction false} CrcLinear(a: seq<byte>, b: seq<byte>)
    requires |a| == |b|
    ensures Crc(Xored(a, b)) == Xor(Crc(a), Crc(b))
  {
    hide Crc, Xor, Next, XorByte;
    if a == [] {
      EmptyCrc();
      XorZero(0);
    } else {
      var n := |a| - 1;
      CrcLinear(a[..n], b[..n]);
      CrcNext(a[..n], a[n]);
      CrcNext(b[..n], b[n]);
      CrcNext(Xored(a[..n], b[..n]), XorByte(a[n], b[n]));
      assert a == a[..n] + [a[n]] && b == b[..n] + [b[n]];
      assert Xored(a, b) == Xored(a[..n], b[..n]) + [XorByte(a[n], b[n])];
      NextLinear(Crc(a[..n]), a[n], Crc(b[..n]), b[n]);
    }
  }

  lemma ShiftKeepsNonZero(r: nat)
    requires 0 < r < LIMIT
    ensures Shift(r, false) > 0
  {
    var v := 2 * r;
    if v >= LIMIT && Xor(v, GENERATOR) == 0 {
      ZeroXor(v, GENERATOR);
      assert false;
    }
  }

  lemma {:induction false} ShiftedKeepsNonZero(r: nat, n: nat)
    requires 0 < r < LIMIT
    ensures Shifted(r, n) > 0
  {
    if n == 0 {
    } else {
      ShiftedKeepsNonZero(r, n - 1);
      ShiftKeepsNonZero(Shifted(r, n - 1));
    }
  }

  function Difference(a: seq<bool>, b: seq<bool>): (e: seq<bool>)
    requires |a| == |b|
    ensures |e| == |a|
  {
    seq(|a|, i requires 0 <= i < |a| => a[i] != b[i])
  }

  lemma {:induction false} RemainderLinear(a: seq<bool>, b: seq<bool>)
    requires |a| == |b|
    ensures Remainder(Difference(a, b)) == Xor(Remainder(a), Remainder(b))
  {
    hide Xor, Shift;
    if a == [] {
      XorZero(0);
    } else {
      var n := |a| - 1;
      RemainderLinear(a[..n], b[..n]);
      assert Difference(a, b)[..n] == Difference(a[..n], b[..n]);
      ShiftLinear(Remainder(a[..n]), a[n], Remainder(b[..n]), b[n]);
    }
  }

  /** A short word after zeros is its own remainder. */
  lemma {:induction false} ShortWord(n: nat, w: seq<bool>)
    requires |w| <= 16
    ensures Remainder(Zeros(n) + w) == Number(w)
  {
    if w == [] {
      assert Zeros(n) + w == [] + Zeros(n);
      RemainderZeros([], n);
      ZeroShifted(n);
    } else {
      var m := |w| - 1;
      ShortWord(n, w[..m]);
      assert (Zeros(n) + w)[..n + m] == Zeros(n) + w[..m];
      NumberBelow(w);
      Powers();
      Pow2Monotone(|w|, 16);
    }
  }

  lemma {:induction false} NonZeroWord(w: seq<bool>, i: nat)
    requires i < |w| && w[i]
    ensures Number(w) > 0
  {
    if i >= |w| - 1 {
    } else {
      NonZeroWord(w[..|w| - 1], i);
    }
  }

  lemma {:induction false} MessageBits(s: seq<byte>, p: nat, k: nat)
    requires p < |s| && k < 8
    ensures Message(s)[8 * p + 7 - k] == Bit(s[p], k)
  {
    if p >= |s| - 1 {
    } else {
      MessageBits(s[..|s| - 1], p, k);
    }
  }

  lemma MessagesDiffer(a: seq<byte>, b: seq<byte>) returns (i: nat)
    requires |a| == |b| && a != b
    ensures i < 8 * |a| && Message(a)[i] != Message(b)[i]
  {
    var p: nat :| p < |a| && a[p] != b[p];
    var k := BitsDiffer(a[p], b[p]);
    if k >= 8 { ByteHighBits(a[p], k); ByteHighBits(b[p], k); }
    MessageBits(a, p, k);
    MessageBits(b, p, k);
    i := 8 * p + 7 - k;
  }

  /** A non-zero word of at most sixteen bits between zeros has a non-zero remainder. */
  lemma BurstRemainder(e: seq<bool>, start: nat, at: nat)
    requires start <= at < start + 16 && at < |e| && e[at]
    requires forall i | 0 <= i < |e| && !(start <= i < start + 16) :: !e[i]
    ensures Remainder(e) > 0
  {
    hide Remainder, Number;
    var end := if start + 16 <= |e| then start + 16 else |e|;
    var w := e[start..end];
    assert w[at - start];
    assert e == (Zeros(start) + w) + Zeros(|e| - end);
    ShortWord(start, w);
    NonZeroWord(w, at - start);
    RemainderZeros(Zeros(start) + w, |e| - end);
    ShiftedKeepsNonZero(Number(w), |e| - end);
  }

  /** An error within any sixteen consecutive bits changes the CRC, however long the message is. */
  lemma BurstDetected(a: seq<byte>, b: seq<byte>, start: nat)
    requires |a| == |b| && a != b
    requires forall i | 0 <= i < 8 * |a| && !(start <= i < start + 16) :: Message(a)[i] == Message(b)[i]
    ensures Crc(a) != Crc(b)
  {
    hide Message, Remainder, Xor, Shifted;
    var x, y := Message(a), Message(b);
    var at := MessagesDiffer(a, b);
    BurstRemainder(Difference(x, y), start, at);
    RemainderLinear(x, y);
    RemainderZeros(x, 16);
    RemainderZeros(y, 16);
    ShiftedLinear(Remainder(x), Remainder(y), 16);
    ShiftedKeepsNonZero(Xor(Remainder(x), Remainder(y)), 16);
    XorSelf(Crc(a));
  }

  lemma SplitWord(c: nat)
    requires c < LIMIT
    ensures Xor(c, 256 * (c / 256)) == c % 256
  {
    hide Bit, Xor;
    Pow2Values();
    forall k: nat ensures Bit(Xor(c, 256 * (c / 256)), k) == Bit(c % 256, k) {
      XorBits(c, 256 * (c / 256), k);
      ScaledBits(c / 256, 8, k);
      if k < 8 { LowByteBits(c, k, 8); } else { ShiftByte(c, k - 8); HighBits(c % 256, 8, k); }
    }
    SameBits(Xor(c, 256 * (c / 256)), c % 256);
  }

  lemma OwnCrcAppended(s: seq<byte>)
    ensures Crc(s + [Crc(s) / 256, Crc(s) % 256]) == 0
  {
    hide Crc, Xor, Shifted;
    var c := Crc(s);
    var x: byte, y: byte := c / 256, c % 256;
    CrcNext(s, x);
    CrcNext(s + [x], y);
    assert s + [x] + [y] == s + [x, y];
    SplitWord(c);
    Pow2Values();
    ShiftedScales(y, 8);
    XorSelf(256 * y);
    ZeroShifted(8);
  }

  /** Two appended bytes make the CRC zero exactly when they are the CRC of the message, high byte first. */
  lemma AppendedCrc(s: seq<byte>, x: byte, y: byte)
    ensures Crc(s + [x, y]) == 0 <==> 256 * x + y == Crc(s)
  {
    hide Crc, Message;
    OwnCrcAppended(s);
    var u: byte, v: byte := Crc(s) / 256, Crc(s) % 256;
    var a, b := s + [x, y], s + [u, v];
    if a != b {
      forall i | 0 <= i < 8 * |a| && !(8 * |s| <= i < 8 * |s| + 16) ensures Message(a)[i] == Message(b)[i] {
        MessageBits(a, i / 8, 7 - i % 8);
        MessageBits(b, i / 8, 7 - i % 8);
      }
      BurstDetected(a, b, 8 * |s|);
    } else {
      assert x == a[|s|] == u && y == a[|s| + 1] == v;
    }
  }
}
