/** The Hamming code of libs/base/ecc.cpp: 2 * power parity bits over a buffer of 2^power bits.

    Bit 2j + v of the code word is the exclusive-or of all data bits whose address has bit j equal to v. */
module Ecc {
  import opened Words

  datatype EccResult = NoError | Corrected | NotCorrected | Corrupted

  // ---------- Lengths and addresses ----------

  /** Count of trailing zeros. */
  function Ctz(n: nat): nat
    requires n > 0
  {
    if n % 2 == 1 then 0 else 1 + Ctz(n / 2)
  }

  predicate LengthOf(n: nat, m: nat) {
    m <= 9 && n == Pow2(m)
  }

  /** The lengths the code is made for: powers of two up to a page of 512 bytes. */
  ghost predicate ValidLength(n: nat) {
    exists m: nat :: LengthOf(n, m)
  }

  /** The number of address bits of a buffer of `n` bytes. */
  function Power(n: nat): nat
    requires n > 0
  {
    Ctz(n * 8)
  }

  lemma {:induction false} CtzPow2(m: nat)
    ensures Ctz(Pow2(m)) == m
  {
    if m == 0 {
    } else {
      CtzPow2(m - 1);
    }
  }

  lemma PowerBounds(n: nat)
    requires ValidLength(n)
    ensures n > 0 && 3 <= Power(n) <= 12 && n * 8 == Pow2(Power(n)) && n <= 512
  {
    var m: nat :| LengthOf(n, m);
    assert Pow2(m + 3) == 8 * Pow2(m) by { assert Pow2(m + 3) == 2 * Pow2(m + 2) == 4 * Pow2(m + 1); }
    CtzPow2(m + 3);
    Pow2Monotone(m, 9);
    Pow2Values();
  }

  /** The address of bit `t` of byte `i` has the bits of `t` below those of `i`. */
  lemma AddrBits(i: nat, t: nat, j: nat)
    requires t < 8
    ensures Bit(8 * i + t, j) == if j == 0 then t % 2 == 1 else if j == 1 then t / 2 % 2 == 1 else if j == 2 then t / 4 == 1
                                 else Bit(i, j - 3)
  {
    assert (8 * i + t) / 2 == 4 * i + t / 2 && (4 * i + t / 2) / 2 == 2 * i + t / 4 && (2 * i + t / 4) / 2 == i;
    assert (8 * i + t) % 2 == t % 2 && (4 * i + t / 2) % 2 == t / 2 % 2 && (2 * i + t / 4) % 2 == t / 4;
    if j == 1 { assert Bit(8 * i + t, 1) == Bit(4 * i + t / 2, 0); }
    if j == 2 { assert Bit(8 * i + t, 2) == Bit(4 * i + t / 2, 1) == Bit(2 * i + t / 4, 0); }
    if j >= 3 { assert Bit(8 * i + t, j) == Bit(4 * i + t / 2, j - 1) == Bit(2 * i + t / 4, j - 2) == Bit(i, j - 3); }
  }

  // ---------- The code, bit by bit ----------

  function DataBit(data: seq<byte>, a: nat): bool
    requires a < 8 * |data|
  {
    Bit(data[a / 8], a % 8)
  }

  /** Exclusive-or of the data bits below address `n` whose address bit `j` is `v`. */
  function ParityUpTo(data: seq<byte>, j: nat, v: bool, n: nat): bool
    requires n <= 8 * |data|
  {
    n > 0 && (ParityUpTo(data, j, v, n - 1) != (Bit(n - 1, j) == v && DataBit(data, n - 1)))
  }

  function Parity(data: seq<byte>, j: nat, v: bool): bool {
    ParityUpTo(data, j, v, 8 * |data|)
  }

  /** `w` is the code word of `data`. */
  ghost predicate IsEcc(data: seq<byte>, w: nat)
    requires |data| > 0
  {
    forall k: nat :: Bit(w, k) == (k < 2 * Power(|data|) && Parity(data, k / 2, k % 2 == 1))
  }

  /** The code word of `data` without its first `from` bits. */
  function EccFrom(data: seq<byte>, power: nat, from: nat): nat
    requires from <= 2 * power
    decreases 2 * power - from
  {
    if from == 2 * power then 0 else One(Parity(data, from / 2, from % 2 == 1)) + 2 * EccFrom(data, power, from + 1)
  }

  function EccWord(data: seq<byte>): nat
    requires |data| > 0
  {
    EccFrom(data, Power(|data|), 0)
  }

  lemma {:induction false} EccFromBits(data: seq<byte>, power: nat, from: nat, k: nat)
    requires from <= 2 * power
    ensures Bit(EccFrom(data, power, from), k) == (from + k < 2 * power && Parity(data, (from + k) / 2, (from + k) % 2 == 1))
    decreases 2 * power - from
  {
    if from == 2 * power {
      ZeroBits(k);
    } else if k > 0 {
      EccFromBits(data, power, from + 1, k - 1);
    }
  }

  /** Every buffer has exactly one code word. */
  lemma EccWordUnique(data: seq<byte>, w: nat)
    requires |data| > 0
    ensures IsEcc(data, w) <==> w == EccWord(data)
  {
    hide Parity, Power, Bit, EccFrom;
    forall k: nat ensures Bit(EccWord(data), k) == (k < 2 * Power(|data|) && Parity(data, k / 2, k % 2 == 1)) {
      EccFromBits(data, Power(|data|), 0, k);
    }
    if IsEcc(data, w) { SameBits(w, EccWord(data)); }
  }

  function FlipBit(data: seq<byte>, a: nat): (r: seq<byte>)
    requires a < 8 * |data|
    ensures |r| == |data|
  {
    data[a / 8 := FlipByte(data[a / 8], a % 8)]
  }

  lemma FlippedBit(data: seq<byte>, a: nat, b: nat)
    requires a < 8 * |data| && b < 8 * |data|
    ensures DataBit(FlipBit(data, a), b) == (DataBit(data, b) != (a == b))
  {
    if a / 8 == b / 8 { FlippedWord(data[a / 8], a % 8, b % 8); }
  }

  lemma FlipTwice(data: seq<byte>, a: nat)
    requires a < 8 * |data|
    ensures FlipBit(FlipBit(data, a), a) == data
  {
    var x, t := data[a / 8], a % 8;
    var y := FlipByte(FlipByte(x, t), t);
    if x != y {
      var k := BitsDiffer(x, y);
      FlippedWord(x, t, k);
      FlippedWord(FlipByte(x, t), t, k);
    }
  }

  /** A flipped bit flips the parity of its own half for each address bit, and no other. */
  lemma {:induction false} FlipParityUpTo(data: seq<byte>, a: nat, j: nat, v: bool, n: nat)
    requires a < 8 * |data| && n <= 8 * |data|
    ensures ParityUpTo(FlipBit(data, a), j, v, n) == (ParityUpTo(data, j, v, n) != (a < n && Bit(a, j) == v))
  {
    if n == 0 {
    } else {
      FlipParityUpTo(data, a, j, v, n - 1);
      FlippedBit(data, a, n - 1);
    }
  }

  // ---------- The syndrome and what it means ----------

  /** Bit `k` of the syndrome of two n-bit code words. */
  function Syndrome(generated: nat, read: nat, n: nat, k: nat): bool {
    k < n && Bit(generated, k) != Bit(read, k)
  }

  ghost predicate Clean(generated: nat, read: nat, n: nat) {
    forall k: nat :: !Syndrome(generated, read, n, k)
  }

  /** Exactly one of the two parities of address bit `j` disagrees. */
  predicate OneOfPair(generated: nat, read: nat, n: nat, j: nat) {
    Syndrome(generated, read, n, 2 * j) != Syndrome(generated, read, n, 2 * j + 1)
  }

  ghost predicate OneOfEachPair(generated: nat, read: nat, power: nat) {
    forall j: nat | j < power :: OneOfPair(generated, read, 2 * power, j)
  }

  /** The number of syndrome bits below `upTo`. */
  function Weight(generated: nat, read: nat, n: nat, upTo: nat): nat {
    if upTo == 0 then 0
    else One(Syndrome(generated, read, n, upTo - 1)) + Weight(generated, read, n, upTo - 1)
  }

  /** The address below 2^power whose bit `j` is syndrome bit 2j + 1, without its first `from` bits. */
  function Address(generated: nat, read: nat, power: nat, from: nat): nat
    requires from <= power
    decreases power - from
  {
    if from == power then 0
    else One(Syndrome(generated, read, 2 * power, 2 * from + 1)) + 2 * Address(generated, read, power, from + 1)
  }

  lemma {:induction false} AddressBits(generated: nat, read: nat, power: nat, from: nat, j: nat)
    requires from <= power
    ensures Address(generated, read, power, from) < Pow2(power - from)
    ensures Bit(Address(generated, read, power, from), j)
         == (from + j < power && Syndrome(generated, read, 2 * power, 2 * (from + j) + 1))
    decreases power - from
  {
    if from == power {
      ZeroBits(j);
    } else {
      hide Syndrome, Bit;
      var rest, low := Address(generated, read, power, from + 1), Syndrome(generated, read, 2 * power, 2 * from + 1);
      AddressBits(generated, read, power, from + 1, if j == 0 then 0 else j - 1);
      DoubledBits(rest, low, j);
      assert Address(generated, read, power, from) == 2 * rest + One(low);
    }
  }

  /** What a correction does to the data it is given. */
  ghost function Repair(generated: nat, read: nat, data: seq<byte>): (r: (EccResult, seq<byte>))
    requires ValidLength(|data|)
  {
    PowerBounds(|data|);
    var power := Power(|data|);
    AddressBits(generated, read, power, 0, 0);
    if Clean(generated, read, 2 * power) then (NoError, data)
    else if OneOfEachPair(generated, read, power) then (Corrected, FlipBit(data, Address(generated, read, power, 0)))
    else if Weight(generated, read, 2 * power, 24) == 1 then (Corrupted, data)
    else (NotCorrected, data)
  }

  lemma {:induction false} WeightOfOne(generated: nat, read: nat, n: nat, k: nat, upTo: nat)
    requires forall i: nat :: Syndrome(generated, read, n, i) == (i == k)
    ensures Weight(generated, read, n, upTo) == One(k < upTo)
  {
    if upTo == 0 {
    } else {
      WeightOfOne(generated, read, n, k, upTo - 1);
    }
  }

  lemma {:induction false} WeightOfTwo(generated: nat, read: nat, n: nat, k: nat, l: nat, upTo: nat)
    requires k != l && Syndrome(generated, read, n, k) && Syndrome(generated, read, n, l)
    ensures Weight(generated, read, n, upTo) >= One(k < upTo) + One(l < upTo)
  {
    if upTo == 0 {
    } else {
      WeightOfTwo(generated, read, n, k, l, upTo - 1);
    }
  }

  // ---------- Single errors corrected, double errors detected ----------

  /** An unchanged buffer with an unchanged code word is left alone. */
  lemma NoErrorFound(data: seq<byte>, generated: nat, read: nat)
    requires ValidLength(|data|) && IsEcc(data, generated) && IsEcc(data, read)
    ensures Repair(generated, read, data) == (NoError, data)
  {
    hide Bit, Parity, Power;
    PowerBounds(|data|);
    assert forall k: nat :: Bit(generated, k) == Bit(read, k);
  }

  /** The syndrome of one flipped data bit spells its address. */
  lemma DataFlipSyndrome(data: seq<byte>, a: nat, generated: nat, read: nat, k: nat)
    requires |data| > 0 && a < 8 * |data|
    requires IsEcc(FlipBit(data, a), generated) && IsEcc(data, read)
    ensures Syndrome(generated, read, 2 * Power(|data|), k) == (k < 2 * Power(|data|) && Bit(a, k / 2) == (k % 2 == 1))
  {
    FlipParityUpTo(data, a, k / 2, k % 2 == 1, 8 * |data|);
    assert Bit(generated, k) == (k < 2 * Power(|data|) && Parity(FlipBit(data, a), k / 2, k % 2 == 1));
    assert Bit(read, k) == (k < 2 * Power(|data|) && Parity(data, k / 2, k % 2 == 1));
  }

  lemma FlippedAddress(data: seq<byte>, a: nat, generated: nat, read: nat, power: nat)
    requires |data| > 0 && power == Power(|data|) && a < Pow2(power) == 8 * |data|
    requires IsEcc(FlipBit(data, a), generated) && IsEcc(data, read)
    ensures Address(generated, read, power, 0) == a
  {
    hide Bit, Parity, Power, FlipBit, Address, IsEcc, Pow2;
    var b := Address(generated, read, power, 0);
    if a != b {
      var j := BitsDiffer(a, b);
      AddressBits(generated, read, power, 0, j);
      DataFlipSyndrome(data, a, generated, read, 2 * j + 1);
      assert (2 * j + 1) / 2 == j;
      if j >= power { HighBits(a, power, j); }
      assert false;
    }
  }

  lemma SingleDataErrorCorrected(data: seq<byte>, a: nat, generated: nat, read: nat)
    requires ValidLength(|data|) && a < 8 * |data|
    requires IsEcc(FlipBit(data, a), generated) && IsEcc(data, read)
    ensures Repair(generated, read, FlipBit(data, a)) == (Corrected, data)
  {
    hide Bit, Parity, Power, FlipBit, Address, IsEcc, Pow2, Weight;
    PowerBounds(|data|);
    var power := Power(|data|);
    forall j: nat | j < power ensures OneOfPair(generated, read, 2 * power, j) {
      DataFlipSyndrome(data, a, generated, read, 2 * j);
      DataFlipSyndrome(data, a, generated, read, 2 * j + 1);
      assert 2 * j / 2 == j && (2 * j + 1) / 2 == j;
    }
    assert OneOfPair(generated, read, 2 * power, 0);
    FlippedAddress(data, a, generated, read, power);
    FlipTwice(data, a);
  }

  /** A single flipped code bit is recognised as such. */
  lemma SingleEccErrorRecognised(data: seq<byte>, k: nat, generated: nat, read: nat)
    requires ValidLength(|data|) && IsEcc(data, generated) && IsEcc(data, read)
    requires k < 2 * Power(|data|)
    ensures Repair(generated, FlipWord(read, k), data) == (Corrupted, data)
  {
    PowerBounds(|data|);
    hide Bit, Parity, Power, FlipWord, Address, FlipBit, Pow2, Weight;
    var n, spoilt := 2 * Power(|data|), FlipWord(read, k);
    forall i: nat ensures Syndrome(generated, spoilt, n, i) == (i == k) {
      FlippedWord(read, k, i);
      assert Bit(generated, i) == Bit(read, i);
    }
    var j := if k / 2 == 0 then 1 else 0;
    assert 2 * j != k && 2 * j + 1 != k;
    assert !OneOfPair(generated, spoilt, n, j);
    assert Syndrome(generated, spoilt, n, k) && k < 24;
    WeightOfOne(generated, spoilt, n, k, 24);
  }

  /** A pair of syndrome bits that agree and two bits that are set: neither clean nor decodable nor a flipped code bit. */
  lemma Undecodable(generated: nat, read: nat, data: seq<byte>, j: nat, k: nat, l: nat)
    requires ValidLength(|data|) && j < Power(|data|) && k < l < 24
    requires Syndrome(generated, read, 2 * Power(|data|), 2 * j) == Syndrome(generated, read, 2 * Power(|data|), 2 * j + 1)
    requires Syndrome(generated, read, 2 * Power(|data|), k) && Syndrome(generated, read, 2 * Power(|data|), l)
    ensures Repair(generated, read, data) == (NotCorrected, data)
  {
    PowerBounds(|data|);
    hide Power, FlipBit, Address, Weight, Syndrome, ValidLength;
    assert !OneOfPair(generated, read, 2 * Power(|data|), j);
    WeightOfTwo(generated, read, 2 * Power(|data|), k, l, 24);
  }

  /** Two flipped data bits are detected and the data is left as it was read. */
  lemma DoubleDataErrorDetected(data: seq<byte>, a: nat, b: nat, generated: nat, read: nat)
    requires ValidLength(|data|) && a < 8 * |data| && b < 8 * |data| && a != b
    requires IsEcc(FlipBit(FlipBit(data, a), b), generated) && IsEcc(data, read)
    ensures Repair(generated, read, FlipBit(FlipBit(data, a), b)) == (NotCorrected, FlipBit(FlipBit(data, a), b))
  {
    hide *;
    PowerBounds(|data|);
    var j := AddressesDiffer(|data|, a, b);
    BothSet(data, a, b, generated, read, j);
    Undecodable(generated, read, FlipBit(FlipBit(data, a), b), j, 2 * j, 2 * j + 1);
  }

  lemma AddressesDiffer(n: nat, a: nat, b: nat) returns (j: nat)
    requires ValidLength(n) && a < 8 * n && b < 8 * n && a != b
    ensures j < Power(n) && Bit(a, j) != Bit(b, j)
  {
    PowerBounds(n);
    hide *;
    j := BitsDiffer(a, b);
    if j >= Power(n) {
      HighBits(a, Power(n), j);
      HighBits(b, Power(n), j);
    }
  }

  lemma BothSet(data: seq<byte>, a: nat, b: nat, generated: nat, read: nat, j: nat)
    requires |data| > 0 && a < 8 * |data| && b < 8 * |data| && j < Power(|data|) && Bit(a, j) != Bit(b, j)
    requires IsEcc(FlipBit(FlipBit(data, a), b), generated) && IsEcc(data, read)
    ensures Syndrome(generated, read, 2 * Power(|data|), 2 * j) && Syndrome(generated, read, 2 * Power(|data|), 2 * j + 1)
  {
    hide *;
    DoubleFlipSyndrome(data, a, b, generated, read, 2 * j);
    DoubleFlipSyndrome(data, a, b, generated, read, 2 * j + 1);
  }

  lemma DoubleFlipSyndrome(data: seq<byte>, a: nat, b: nat, generated: nat, read: nat, k: nat)
    requires |data| > 0 && a < 8 * |data| && b < 8 * |data|
    requires IsEcc(FlipBit(FlipBit(data, a), b), generated) && IsEcc(data, read)
    ensures Syndrome(generated, read, 2 * Power(|data|), k) == (k < 2 * Power(|data|) && Bit(a, k / 2) != Bit(b, k / 2))
  {
    FlipParityUpTo(FlipBit(data, a), b, k / 2, k % 2 == 1, 8 * |data|);
    FlipParityUpTo(data, a, k / 2, k % 2 == 1, 8 * |data|);
    assert Bit(generated, k) == (k < 2 * Power(|data|) && Parity(FlipBit(FlipBit(data, a), b), k / 2, k % 2 == 1));
    assert Bit(read, k) == (k < 2 * Power(|data|) && Parity(data, k / 2, k % 2 == 1));
  }

  /** Two flipped code bits are detected. */
  lemma DoubleEccErrorDetected(data: seq<byte>, k: nat, l: nat, generated: nat, read: nat)
    requires ValidLength(|data|) && IsEcc(data, generated) && IsEcc(data, read)
    requires k < 2 * Power(|data|) && l < 2 * Power(|data|) && k != l
    ensures Repair(generated, FlipWord(FlipWord(read, k), l), data) == (NotCorrected, data)
  {
    PowerBounds(|data|);
    hide *;
    var spoilt := FlipWord(FlipWord(read, k), l);
    var j := if k / 2 != 0 && l / 2 != 0 then 0 else if k / 2 != 1 && l / 2 != 1 then 1 else 2;
    CodeFlipsSyndrome(data, k, l, generated, read, k);
    CodeFlipsSyndrome(data, k, l, generated, read, l);
    CodeFlipsSyndrome(data, k, l, generated, read, 2 * j);
    CodeFlipsSyndrome(data, k, l, generated, read, 2 * j + 1);
    Undecodable(generated, spoilt, data, j, if k < l then k else l, if k < l then l else k);
  }

  lemma CodeFlipsSyndrome(data: seq<byte>, k: nat, l: nat, generated: nat, read: nat, i: nat)
    requires |data| > 0 && IsEcc(data, generated) && IsEcc(data, read) && i < 2 * Power(|data|) && k != l
    ensures Syndrome(generated, FlipWord(FlipWord(read, k), l), 2 * Power(|data|), i) == (i == k || i == l)
  {
    FlippedWord(read, k, i);
    FlippedWord(FlipWord(read, k), l, i);
    hide Bit, Parity, Power, FlipWord;
    assert Bit(generated, i) == Bit(read, i);
  }

  /** One flipped data bit together with one flipped code bit is detected. */
  lemma MixedErrorDetected(data: seq<byte>, a: nat, k: nat, generated: nat, read: nat)
    requires ValidLength(|data|) && a < 8 * |data|
    requires IsEcc(FlipBit(data, a), generated) && IsEcc(data, read)
    requires k < 2 * Power(|data|)
    ensures Repair(generated, FlipWord(read, k), FlipBit(data, a)) == (NotCorrected, FlipBit(data, a))
  {
    PowerBounds(|data|);
    hide *;
    var p := k / 2;
    var x, y := if p == 0 then 1 else 0, if p == 2 then 1 else 2;
    MixedSyndrome(data, a, k, generated, read, p, true);
    MixedSyndrome(data, a, k, generated, read, p, false);
    MixedSyndrome(data, a, k, generated, read, x, Bit(a, x));
    MixedSyndrome(data, a, k, generated, read, y, Bit(a, y));
    Undecodable(generated, FlipWord(read, k), FlipBit(data, a), p, Half(x, Bit(a, x)), Half(y, Bit(a, y)));
  }

  /** The number of the parity of the positions whose address bit `j` is `v`. */
  function Half(j: nat, v: bool): (k: nat)
    ensures k / 2 == j && (k % 2 == 1) == v && 2 * j <= k <= 2 * j + 1
  {
    2 * j + One(v)
  }

  lemma MixedSyndrome(data: seq<byte>, a: nat, k: nat, generated: nat, read: nat, j: nat, v: bool)
    requires |data| > 0 && a < 8 * |data| && IsEcc(FlipBit(data, a), generated) && IsEcc(data, read) && j < Power(|data|)
    ensures Half(j, v) == (if v then 2 * j + 1 else 2 * j) < 2 * Power(|data|)
    ensures Syndrome(generated, FlipWord(read, k), 2 * Power(|data|), Half(j, v)) == ((v == Bit(a, j)) != (Half(j, v) == k))
  {
    FlippedWord(read, k, Half(j, v));
    DataFlipSyndrome(data, a, generated, read, Half(j, v));
    hide Bit, Power, FlipWord, FlipBit, IsEcc;
  }

  // ---------- EccCalc ----------

  function Term(b: byte, i: nat, t: nat, j: nat, v: bool): bool {
    Bit(8 * i + t, j) == v && Bit(b, t)
  }

  /** Exclusive-or of the bits of byte `i` whose address bit `j` is `v`. */
  function ByteParity(b: byte, i: nat, j: nat, v: bool): bool {
    Term(b, i, 0, j, v) != (Term(b, i, 1, j, v) != (Term(b, i, 2, j, v) != (Term(b, i, 3, j, v) !=
    (Term(b, i, 4, j, v) != (Term(b, i, 5, j, v) != (Term(b, i, 6, j, v) != Term(b, i, 7, j, v)))))))
  }

  lemma BitStep(data: seq<byte>, i: nat, t: nat, j: nat, v: bool)
    requires i < |data| && t < 8
    ensures ParityUpTo(data, j, v, 8 * i + t + 1) == (ParityUpTo(data, j, v, 8 * i + t) != Term(data[i], i, t, j, v))
  {
    assert (8 * i + t) / 8 == i && (8 * i + t) % 8 == t;
  }

  /** One more byte of data adds the parity of its own bits. */
  lemma ByteStep(data: seq<byte>, i: nat, j: nat, v: bool)
    requires i < |data|
    ensures ParityUpTo(data, j, v, 8 * i + 8) == (ParityUpTo(data, j, v, 8 * i) != ByteParity(data[i], i, j, v))
  {
    hide ParityUpTo, Term;
    BitStep(data, i, 0, j, v); BitStep(data, i, 1, j, v); BitStep(data, i, 2, j, v); BitStep(data, i, 3, j, v);
    BitStep(data, i, 4, j, v); BitStep(data, i, 5, j, v); BitStep(data, i, 6, j, v); BitStep(data, i, 7, j, v);
  }

  /** The bits of a byte that the column line (j, v) of the source takes in. */
  lemma ColumnParity(b: byte, i: nat, v: bool)
    ensures ByteParity(b, i, 0, v) == if v then (Bit(b, 7) != (Bit(b, 5) != (Bit(b, 3) != Bit(b, 1))))
                                      else (Bit(b, 6) != (Bit(b, 4) != (Bit(b, 2) != Bit(b, 0))))
    ensures ByteParity(b, i, 1, v) == if v then (Bit(b, 7) != (Bit(b, 6) != (Bit(b, 3) != Bit(b, 2))))
                                      else (Bit(b, 5) != (Bit(b, 4) != (Bit(b, 1) != Bit(b, 0))))
    ensures ByteParity(b, i, 2, v) == if v then (Bit(b, 7) != (Bit(b, 6) != (Bit(b, 5) != Bit(b, 4))))
                                      else (Bit(b, 3) != (Bit(b, 2) != (Bit(b, 1) != Bit(b, 0))))
  {
    hide Bit;
    LowAddrBits(i, 0); LowAddrBits(i, 1); LowAddrBits(i, 2); LowAddrBits(i, 3);
    LowAddrBits(i, 4); LowAddrBits(i, 5); LowAddrBits(i, 6); LowAddrBits(i, 7);
  }

  lemma LowAddrBits(i: nat, t: nat)
    requires t < 8
    ensures Bit(8 * i + t, 0) == (t % 2 == 1) && Bit(8 * i + t, 1) == (t / 2 % 2 == 1) && Bit(8 * i + t, 2) == (t / 4 == 1)
  {
    AddrBits(i, t, 0);
    AddrBits(i, t, 1);
    AddrBits(i, t, 2);
  }

  function OddOnes(b: byte): bool {
    Bit(b, 0) != (Bit(b, 1) != (Bit(b, 2) != (Bit(b, 3) != (Bit(b, 4) != (Bit(b, 5) != (Bit(b, 6) != Bit(b, 7)))))))
  }

  /** __builtin_parity of a byte. */
  function BuiltinParity(b: byte): nat {
    One(OddOnes(b))
  }

  /** All bits of a byte share their higher address bits, so a row parity is the parity of the byte. */
  lemma RowParity(b: byte, i: nat, j: nat, v: bool)
    ensures ByteParity(b, i, j + 3, v) == (Bit(i, j) == v && OddOnes(b))
  {
    hide Bit, Term;
    RowTerm(b, i, 0, j, v); RowTerm(b, i, 1, j, v); RowTerm(b, i, 2, j, v); RowTerm(b, i, 3, j, v);
    RowTerm(b, i, 4, j, v); RowTerm(b, i, 5, j, v); RowTerm(b, i, 6, j, v); RowTerm(b, i, 7, j, v);
  }

  lemma RowTerm(b: byte, i: nat, t: nat, j: nat, v: bool)
    requires t < 8
    ensures Term(b, i, t, j + 3, v) == (Bit(i, j) == v && Bit(b, t))
  {
    AddrBits(i, t, j + 3);
  }

  /** ((b >> t) & 1) ^ ((b >> u) & 1) ^ ((b >> x) & 1) ^ ((b >> y) & 1) ^ p */
  function Line(b: byte, t: nat, u: nat, x: nat, y: nat, p: nat): nat {
    Xor(Xor(Xor(Xor(And(Shr(b, t), 1), And(Shr(b, u), 1)), And(Shr(b, x), 1)), And(Shr(b, y), 1)), p)
  }

  lemma XorOfOnes(p: bool, q: bool)
    ensures Xor(One(p), One(q)) == One(p != q)
  {
    assert Xor(0, 0) == 0;
  }

  lemma LineStep(data: seq<byte>, i: nat, j: nat, v: bool, t: nat, u: nat, x: nat, y: nat)
    requires i < |data|
    requires ByteParity(data[i], i, j, v) == (Bit(data[i], t) != (Bit(data[i], u) != (Bit(data[i], x) != Bit(data[i], y))))
    ensures Line(data[i], t, u, x, y, One(ParityUpTo(data, j, v, 8 * i))) == One(ParityUpTo(data, j, v, 8 * i + 8))
  {
    hide Bit, Xor, And, Shr, ParityUpTo, ByteParity, One;
    var b := data[i];
    ByteStep(data, i, j, v);
    ShiftedOut(b, t); ShiftedOut(b, u); ShiftedOut(b, x); ShiftedOut(b, y);
    XorOfOnes(Bit(b, t), Bit(b, u));
    XorOfOnes(Bit(b, t) != Bit(b, u), Bit(b, x));
    XorOfOnes((Bit(b, t) != Bit(b, u)) != Bit(b, x), Bit(b, y));
    XorOfOnes(((Bit(b, t) != Bit(b, u)) != Bit(b, x)) != Bit(b, y), ParityUpTo(data, j, v, 8 * i));
  }

  /** The six column lines of the source take in byte `i`. */
  lemma ColumnSteps(data: seq<byte>, i: nat)
    requires i < |data|
    ensures Line(data[i], 6, 4, 2, 0, One(ParityUpTo(data, 0, false, 8 * i))) == One(ParityUpTo(data, 0, false, 8 * i + 8))
    ensures Line(data[i], 7, 5, 3, 1, One(ParityUpTo(data, 0, true, 8 * i))) == One(ParityUpTo(data, 0, true, 8 * i + 8))
    ensures Line(data[i], 5, 4, 1, 0, One(ParityUpTo(data, 1, false, 8 * i))) == One(ParityUpTo(data, 1, false, 8 * i + 8))
    ensures Line(data[i], 7, 6, 3, 2, One(ParityUpTo(data, 1, true, 8 * i))) == One(ParityUpTo(data, 1, true, 8 * i + 8))
    ensures Line(data[i], 3, 2, 1, 0, One(ParityUpTo(data, 2, false, 8 * i))) == One(ParityUpTo(data, 2, false, 8 * i + 8))
    ensures Line(data[i], 7, 6, 5, 4, One(ParityUpTo(data, 2, true, 8 * i))) == One(ParityUpTo(data, 2, true, 8 * i + 8))
  {
    hide Bit, ParityUpTo, ByteParity, Line;
    ColumnParity(data[i], i, false);
    ColumnParity(data[i], i, true);
    LineStep(data, i, 0, false, 6, 4, 2, 0);
    LineStep(data, i, 0, true, 7, 5, 3, 1);
    LineStep(data, i, 1, false, 5, 4, 1, 0);
    LineStep(data, i, 1, true, 7, 6, 3, 2);
    LineStep(data, i, 2, false, 3, 2, 1, 0);
    LineStep(data, i, 2, true, 7, 6, 5, 4);
  }

  /** The row parities gathered so far: those below `done` already cover byte `i`. */
  ghost predicate RowBits(data: seq<byte>, power: nat, p: nat, i: nat, done: nat)
    requires i <= |data| && (done > 0 ==> i < |data|)
  {
    forall k: nat ::
      Bit(p, k) == (k + 6 < 2 * power && ParityUpTo(data, k / 2 + 3, k % 2 == 1, if k < 2 * done then 8 * i + 8 else 8 * i))
  }

  /** p ^= rp << m adds the parity at bit m. */
  lemma FoldedBit(p: nat, r: bool, m: nat, k: nat)
    requires m < 32
    ensures Bit(Xor(p, Shl(One(r), m)), k) == (Bit(p, k) != (r && k == m))
  {
    Pow2Values();
    Pow2Monotone(m, 31);
    assert Pow2(32) == 2 * Pow2(31);
    XorBits(p, Shl(One(r), m), k);
    Pow2Bits(m, k);
    ZeroBits(k);
    assert Shl(One(r), m) == if r then Pow2(m) else 0;
  }

  /** One row parity takes in byte `i`. */
  lemma RowStep(data: seq<byte>, power: nat, before: nat, after: nat, i: nat, j: nat)
    requires i < |data| && j + 3 < power <= 12 && RowBits(data, power, before, i, j)
    requires after == Xor(before, Shl(BuiltinParity(data[i]), if Bit(i, j) then 2 * j + 1 else 2 * j))
    ensures RowBits(data, power, after, i, j + 1)
  {
    hide Bit, ParityUpTo, ByteParity, OddOnes, Xor, Shl;
    var m := if Bit(i, j) then 2 * j + 1 else 2 * j;
    forall k: nat
      ensures Bit(after, k) == (k + 6 < 2 * power && ParityUpTo(data, k / 2 + 3, k % 2 == 1, if k < 2 * (j + 1) then 8 * i + 8 else 8 * i))
    {
      FoldedBit(before, OddOnes(data[i]), m, k);
      if k / 2 == j {
        ByteStep(data, i, j + 3, k % 2 == 1);
        RowParity(data[i], i, j, k % 2 == 1);
      }
    }
  }

  lemma RowsDone(data: seq<byte>, power: nat, p: nat, i: nat)
    requires i < |data| && power >= 3 && RowBits(data, power, p, i, power - 3)
    ensures RowBits(data, power, p, i + 1, 0)
  {
    hide Bit, ParityUpTo;
  }

  lemma NothingYet(data: seq<byte>, power: nat)
    ensures RowBits(data, power, 0, 0, 0)
    ensures forall j: nat, v :: !ParityUpTo(data, j, v, 0)
  {
    forall k: nat ensures !Bit(0, k) { ZeroBits(k); }
  }

  /** The six column parities side by side, with the row parities above them. */
  function Assemble(p1p: nat, p1_: nat, p2p: nat, p2_: nat, p4p: nat, p4_: nat, p: nat): nat {
    var ecc := Or(Or(Or(Or(Or(Shl(p1p, 0), Shl(p1_, 1)), Shl(p2p, 2)), Shl(p2_, 3)), Shl(p4p, 4)), Shl(p4_, 5));
    Or(ecc, Shl(p, 6))
  }

  lemma OneShifted(b: bool, n: nat, k: nat)
    requires n < 6
    ensures Bit(Shl(One(b), n), k) == (b && k == n)
  {
    FoldedBit(0, b, n, k);
    XorBits(0, Shl(One(b), n), k);
    ZeroBits(k);
  }

  lemma AssembledWord(a0: bool, a1: bool, b0: bool, b1: bool, c0: bool, c1: bool, p: nat, k: nat)
    requires p < Pow2(18)
    ensures Bit(Assemble(One(a0), One(a1), One(b0), One(b1), One(c0), One(c1), p), k)
         == if k == 0 then a0 else if k == 1 then a1 else if k == 2 then b0 else if k == 3 then b1
            else if k == 4 then c0 else if k == 5 then c1 else Bit(p, k - 6)
  {
    hide Bit, Or, Shl, One, Pow2;
    var s0, s1, s2, s3, s4, s5 := Shl(One(a0), 0), Shl(One(a1), 1), Shl(One(b0), 2), Shl(One(b1), 3), Shl(One(c0), 4), Shl(One(c1), 5);
    OneShifted(a0, 0, k); OneShifted(a1, 1, k); OneShifted(b0, 2, k);
    OneShifted(b1, 3, k); OneShifted(c0, 4, k); OneShifted(c1, 5, k);
    OrBits(s0, s1, k);
    OrBits(Or(s0, s1), s2, k);
    OrBits(Or(Or(s0, s1), s2), s3, k);
    OrBits(Or(Or(Or(s0, s1), s2), s3), s4, k);
    OrBits(Or(Or(Or(Or(s0, s1), s2), s3), s4), s5, k);
    OrBits(Or(Or(Or(Or(Or(s0, s1), s2), s3), s4), s5), Shl(p, 6), k);
    RowsShifted(p, k);
  }

  lemma RowsShifted(p: nat, k: nat)
    requires p < Pow2(18)
    ensures Bit(Shl(p, 6), k) == (6 <= k && Bit(p, k - 6))
  {
    Pow2Values();
    assert Pow2(6) == 8 * Pow2(3);
    ShlBits(p, 6, k);
  }

  lemma WholeWord(data: seq<byte>, power: nat, p: nat, ecc: nat)
    requires |data| > 0 && 3 <= power <= 12 && power == Power(|data|)
    requires RowBits(data, power, p, |data|, 0)
    requires ecc == Assemble(One(Parity(data, 0, false)), One(Parity(data, 0, true)), One(Parity(data, 1, false)),
                             One(Parity(data, 1, true)), One(Parity(data, 2, false)), One(Parity(data, 2, true)), p)
    ensures IsEcc(data, ecc)
  {
    hide Bit, ParityUpTo, Power, One, Assemble, Pow2;
    BoundedBits(p, 18);
    forall k: nat ensures Bit(ecc, k) == (k < 2 * power && Parity(data, k / 2, k % 2 == 1)) {
      AssembledWord(Parity(data, 0, false), Parity(data, 0, true), Parity(data, 1, false), Parity(data, 1, true),
                    Parity(data, 2, false), Parity(data, 2, true), p, k);
      if k >= 6 { assert (k - 6) / 2 + 3 == k / 2 && (k - 6) % 2 == k % 2; }
    }
  }

  /** The code word of the `dataLen` bytes at `data[start]`. */
  method EccCalc(data: array<byte>, start: nat, dataLen: nat) returns (ecc: nat)
    requires start + dataLen <= data.Length && ValidLength(dataLen)
    ensures ecc == EccWord(data[start..start + dataLen])
  {
    hide ParityUpTo, Bit, Ctz, Line, Xor, Shl, Assemble, RowBits, IsEcc, EccWord, OddOnes, Pow2;
    ghost var s := data[start..start + dataLen];
    PowerBounds(dataLen);
    var power := Ctz(dataLen * 8);
    assert power == Power(dataLen);
    var p1p, p1_, p2p, p2_, p4p, p4_, p: nat := 0, 0, 0, 0, 0, 0, 0;
    NothingYet(s, power);
    for i := 0 to dataLen
      invariant p1p == One(ParityUpTo(s, 0, false, 8 * i)) && p1_ == One(ParityUpTo(s, 0, true, 8 * i))
      invariant p2p == One(ParityUpTo(s, 1, false, 8 * i)) && p2_ == One(ParityUpTo(s, 1, true, 8 * i))
      invariant p4p == One(ParityUpTo(s, 2, false, 8 * i)) && p4_ == One(ParityUpTo(s, 2, true, 8 * i))
      invariant RowBits(s, power, p, i, 0)
    {
      var b := data[start + i];
      assert b == s[i];
      ColumnSteps(s, i);
      p1p := Line(b, 6, 4, 2, 0, p1p);
      p1_ := Line(b, 7, 5, 3, 1, p1_);
      p2p := Line(b, 5, 4, 1, 0, p2p);
      p2_ := Line(b, 7, 6, 3, 2, p2_);
      p4p := Line(b, 3, 2, 1, 0, p4p);
      p4_ := Line(b, 7, 6, 5, 4, p4_);
      var rp := BuiltinParity(b);
      for j := 0 to power - 3
        invariant RowBits(s, power, p, i, j)
      {
        ghost var before := p;
        if Bit(i, j) {            // (i >> j) & 1
          p := Xor(p, Shl(rp, 2 * j + 1));
        } else {
          p := Xor(p, Shl(rp, 2 * j + 0));
        }
        RowStep(s, power, before, p, i, j);
      }
      RowsDone(s, power, p, i);
    }
    ecc := Assemble(p1p, p1_, p2p, p2_, p4p, p4_, p);
    WholeWord(s, power, p, ecc);
    EccWordUnique(s, ecc);
  }

  // ---------- EccCorrect ----------

  /** (1 << (2 * power)) - 1 */
  function EccBits(power: nat): nat {
    Pow2(2 * power) - 1
  }

  function CorrectableMask(power: nat): nat {
    And(0x55555555, EccBits(power))
  }

  function SyndromeWord(generated: nat, read: nat, power: nat): nat {
    And(Xor(generated, read), EccBits(power))
  }

  lemma {:induction false} FivesBits(n: nat, k: nat)
    ensures Bit(Fives(n), k) == (k < 2 * n && k % 2 == 0)
  {
    if n == 0 {
      ZeroBits(k);
    } else {
      assert Fives(n) / 2 == 2 * Fives(n - 1);
      if k == 1 { assert Bit(Fives(n), 1) == Bit(2 * Fives(n - 1), 0); }
      if k >= 2 {
        assert Bit(Fives(n), k) == Bit(2 * Fives(n - 1), k - 1) == Bit(Fives(n - 1), k - 2);
        FivesBits(n - 1, k - 2);
      }
    }
  }

  /** n pairs of bits 01. */
  function Fives(n: nat): nat {
    if n == 0 then 0 else 1 + 4 * Fives(n - 1)
  }

  lemma FivesValue()
    ensures Fives(16) == 0x55555555
  {
    assert Fives(4) == 0x55 && Fives(8) == 0x5555;
    assert Fives(12) == 0x555555 && Fives(16) == 0x55555555;
  }

  // The working words of the decoder, bit by bit.

  lemma SyndromeWordBits(generated: nat, read: nat, power: nat, k: nat)
    ensures Bit(SyndromeWord(generated, read, power), k) == Syndrome(generated, read, 2 * power, k)
  {
    AndBits(Xor(generated, read), EccBits(power), k);
    XorBits(generated, read, k);
    OnesBits(2 * power, k);
  }

  lemma CorrectableMaskBits(power: nat, k: nat)
    requires power <= 12
    ensures Bit(CorrectableMask(power), k) == (k < 2 * power && k % 2 == 0)
  {
    hide Bit, And, Pow2, Fives;
    FivesValue();
    FivesBits(16, k);
    OnesBits(2 * power, k);
    AndBits(0x55555555, EccBits(power), k);
  }

  lemma ParityWordBits(generated: nat, read: nat, power: nat, k: nat)
    requires power <= 12
    ensures var s, m := SyndromeWord(generated, read, power), CorrectableMask(power);
            && Bit(And(s, m), k) == (k % 2 == 0 && Syndrome(generated, read, 2 * power, k))
            && Bit(And(Shr(s, 1), m), k) == (k < 2 * power && k % 2 == 0 && Syndrome(generated, read, 2 * power, k + 1))
  {
    hide Bit, And, SyndromeWord, CorrectableMask, Shr;
    var s, m := SyndromeWord(generated, read, power), CorrectableMask(power);
    SyndromeWordBits(generated, read, power, k);
    SyndromeWordBits(generated, read, power, k + 1);
    CorrectableMaskBits(power, k);
    AndBits(s, m, k);
    ShrBits(s, 1, k);
    AndBits(Shr(s, 1), m, k);
  }

  /** The first two tests of the decoder, in terms of the syndrome. */
  lemma DecoderTests(generated: nat, read: nat, power: nat)
    requires power <= 12
    ensures var s, m := SyndromeWord(generated, read, power), CorrectableMask(power);
            && (s == 0 <==> Clean(generated, read, 2 * power))
            && (Xor(And(s, m), And(Shr(s, 1), m)) == m <==> OneOfEachPair(generated, read, power))
  {
    hide Bit, And, Xor, Shr, SyndromeWord, CorrectableMask, Syndrome;
    var s, m := SyndromeWord(generated, read, power), CorrectableMask(power);
    var x := Xor(And(s, m), And(Shr(s, 1), m));
    forall k: nat
      ensures Bit(s, k) == Syndrome(generated, read, 2 * power, k) && !Bit(0, k)
      ensures Bit(x, k) == (k < 2 * power && k % 2 == 0 && OneOfPair(generated, read, 2 * power, k / 2))
      ensures Bit(m, k) == (k < 2 * power && k % 2 == 0)
    {
      SyndromeWordBits(generated, read, power, k);
      ZeroBits(k);
      CorrectableMaskBits(power, k);
      ParityWordBits(generated, read, power, k);
      XorBits(And(s, m), And(Shr(s, 1), m), k);
      SyndromeBelow(generated, read, 2 * power, k);
    }
    if Clean(generated, read, 2 * power) { SameBits(s, 0); }
    if OneOfEachPair(generated, read, power) { SameBits(x, m); }
    if x == m {
      forall j: nat | j < power ensures OneOfPair(generated, read, 2 * power, j) {
        assert Bit(x, 2 * j) == Bit(m, 2 * j) && 2 * j / 2 == j;
      }
    }
  }

  lemma SyndromeBelow(generated: nat, read: nat, n: nat, k: nat)
    ensures Syndrome(generated, read, n, k) ==> k < n
  {
  }

  /** Bits base, base + 2, ... of `e`, n of them, side by side: the terms (e >> (base + t)) & (1 << t) joined by "or".
      Gather(e, 0, 3) is the bit number of the source and Gather(e, 6, 9) its byte address. */
  function Gather(e: nat, base: nat, n: nat): nat {
    if n == 0 then 0 else Or(Gather(e, base, n - 1), And(Shr(e, base + n - 1), Pow2(n - 1)))
  }

  lemma {:induction false} GatherBits(e: nat, base: nat, n: nat, k: nat)
    ensures Bit(Gather(e, base, n), k) == (k < n && Bit(e, base + 2 * k))
  {
    if n == 0 {
      ZeroBits(k);
    } else {
      GatherBits(e, base, n - 1, k);
      OrBits(Gather(e, base, n - 1), And(Shr(e, base + n - 1), Pow2(n - 1)), k);
      AndBits(Shr(e, base + n - 1), Pow2(n - 1), k);
      Pow2Bits(n - 1, k);
      ShrBits(e, base + n - 1, k);
    }
  }

  lemma GatherBound(e: nat, base: nat, n: nat)
    ensures Gather(e, base, n) < Pow2(n)
  {
    forall k: nat | n <= k ensures !Bit(Gather(e, base, n), k) { GatherBits(e, base, n, k); }
    BoundedBits(Gather(e, base, n), n);
  }

  /** The decoder reassembles the address that the syndrome spells. */
  lemma DecodedAddress(generated: nat, read: nat, power: nat)
    requires power <= 12
    ensures var e := And(Shr(SyndromeWord(generated, read, power), 1), CorrectableMask(power));
            Gather(e, 0, 3) < 8 && 8 * Gather(e, 6, 9) + Gather(e, 0, 3) == Address(generated, read, power, 0)
  {
    hide Gather, And, Shr, SyndromeWord, CorrectableMask, Address, Bit, Pow2;
    var e := And(Shr(SyndromeWord(generated, read, power), 1), CorrectableMask(power));
    var t, i := Gather(e, 0, 3), Gather(e, 6, 9);
    GatherBound(e, 0, 3);
    Pow2Values();
    forall j: nat ensures Bit(8 * i + t, j) == Bit(Address(generated, read, power, 0), j) {
      AddressBits(generated, read, power, 0, j);
      ParityWordBits(generated, read, power, 2 * j);
      AddrBits(i, t, j);
      LowAddrBits(0, t);
      if j < 3 { GatherBits(e, 0, 3, j); } else { GatherBits(e, 6, 9, j - 3); }
    }
    SameBits(8 * i + t, Address(generated, read, power, 0));
  }

  /** Repairs the `dataLen` bytes at `data[start]` in place and says how. */
  method EccCorrect(generated: nat, read: nat, data: array<byte>, start: nat, dataLen: nat) returns (result: EccResult)
    requires start + dataLen <= data.Length && ValidLength(dataLen)
    modifies data
    ensures (result, data[start..start + dataLen]) == Repair(generated, read, old(data[start..start + dataLen]))
    ensures data[..start] == old(data[..start]) && data[start + dataLen..] == old(data[start + dataLen..])
  {
    hide Bit, Ctz, Pow2, Xor, And, Shr, Gather, Address, Clean, OneOfEachPair, Weight, SyndromeWord, CorrectableMask;
    ghost var s := data[start..start + dataLen];
    PowerBounds(dataLen);
    var power := Ctz(dataLen * 8);
    assert power == Power(dataLen);
    DecoderTests(generated, read, power);
    var correctableMask := CorrectableMask(power);
    var syndrome := SyndromeWord(generated, read, power);
    if syndrome == 0 {
      return NoError;
    }
    var eccPn := And(syndrome, correctableMask);
    var eccP := And(Shr(syndrome, 1), correctableMask);
    if Xor(eccPn, eccP) == correctableMask {
      DecodedAddress(generated, read, power);
      AddressBits(generated, read, power, 0, 0);
      var bitNum := Gather(eccP, 0, 3);
      var byteAddr := Gather(eccP, 6, 9);
      data[start + byteAddr] := FlipByte(data[start + byteAddr], bitNum);
      assert data[start..start + dataLen] == FlipBit(s, 8 * byteAddr + bitNum);
      return Corrected;
    }
    var count := CountOnes(generated, read, power, syndrome);
    if count == 1 {
      return Corrupted;
    }
    return NotCorrected;
  }

  /** The loop of EccCorrect over the 24 bits of the syndrome. */
  method CountOnes(ghost generated: nat, ghost read: nat, ghost power: nat, syndrome: nat) returns (count: nat)
    requires syndrome == SyndromeWord(generated, read, power)
    ensures count == Weight(generated, read, 2 * power, 24)
  {
    hide Bit, And, SyndromeWord, Syndrome;
    Pow2Values();
    count := 0;
    var mask := 0x00800000;
    ghost var t: nat := 24;
    assert Pow2(24) == 2 * Pow2(23);
    while mask != 0
      invariant mask == if t == 0 then 0 else Pow2(t - 1)
      invariant count + Weight(generated, read, 2 * power, t) == Weight(generated, read, 2 * power, 24)
      decreases t
    {
      SyndromeWordBits(generated, read, power, t - 1);
      MaskTest(syndrome, t - 1);
      if And(syndrome, mask) != 0 {
        count := count + 1;
      }
      mask := Shr(mask, 1);
      assert mask == Pow2(t - 1) / 2 by { assert Shr(Pow2(t - 1), 1) == Shr(Pow2(t - 1) / 2, 0); }
      t := t - 1;
    }
  }

  lemma MaskTest(w: nat, k: nat)
    ensures And(w, Pow2(k)) != 0 <==> Bit(w, k)
  {
    AndBits(w, Pow2(k), k);
    Pow2Bits(k, k);
    ZeroBits(k);
    if And(w, Pow2(k)) != 0 {
      var i := BitsDiffer(And(w, Pow2(k)), 0);
      ZeroBits(i);
      AndBits(w, Pow2(k), i);
      Pow2Bits(k, i);
    }
  }
}
