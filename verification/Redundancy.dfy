/** Voting over redundant copies (libs/base/redundancy.cpp and the templates of redundancy.hpp). */
module Redundancy {
  import opened Words

  function Correct3(a: nat, b: nat, c: nat): nat {
    Or(Or(And(a, b), And(b, c)), And(a, c))
  }

  function Correct5(a: nat, b: nat, c: nat, d: nat, e: nat): nat {
    Or(Or(Or(Or(Or(Or(Or(Or(Or(And(And(c, d), e), And(And(b, d), e)), And(And(b, c), e)), And(And(b, c), d)),
       And(And(a, d), e)), And(And(a, c), e)), And(And(a, c), d)), And(And(a, b), e)), And(And(a, b), d)), And(And(a, b), c))
  }

  function Ones3(x: bool, y: bool, z: bool): nat {
    One(x) + One(y) + One(z)
  }

  function Ones5(x: bool, y: bool, z: bool, u: bool, v: bool): nat {
    One(x) + One(y) + One(z) + One(u) + One(v)
  }

  /** Each bit of the vote is the majority of the bits voted on. */
  lemma Correct3Majority(a: nat, b: nat, c: nat, k: nat)
    ensures Bit(Correct3(a, b, c), k) <==> Ones3(Bit(a, k), Bit(b, k), Bit(c, k)) >= 2
  {
    hide Bit, And, Or;
    AndBits(a, b, k);
    AndBits(b, c, k);
    AndBits(a, c, k);
    OrBits(And(a, b), And(b, c), k);
    OrBits(Or(And(a, b), And(b, c)), And(a, c), k);
  }

  lemma And3Bits(a: nat, b: nat, c: nat, k: nat)
    ensures Bit(And(And(a, b), c), k) == (Bit(a, k) && Bit(b, k) && Bit(c, k))
  {
    AndBits(a, b, k);
    AndBits(And(a, b), c, k);
  }

  lemma Correct5Majority(a: nat, b: nat, c: nat, d: nat, e: nat, k: nat)
    ensures Bit(Correct5(a, b, c, d, e), k) <==> Ones5(Bit(a, k), Bit(b, k), Bit(c, k), Bit(d, k), Bit(e, k)) >= 3
  {
    hide Bit, And, Or, Ones5;
    FiveVotes(Bit(a, k), Bit(b, k), Bit(c, k), Bit(d, k), Bit(e, k));
    var t0 := And(And(c, d), e);  And3Bits(c, d, e, k);
    var t1 := And(And(b, d), e);  And3Bits(b, d, e, k);
    var t2 := And(And(b, c), e);  And3Bits(b, c, e, k);
    var t3 := And(And(b, c), d);  And3Bits(b, c, d, k);
    var t4 := And(And(a, d), e);  And3Bits(a, d, e, k);
    var t5 := And(And(a, c), e);  And3Bits(a, c, e, k);
    var t6 := And(And(a, c), d);  And3Bits(a, c, d, k);
    var t7 := And(And(a, b), e);  And3Bits(a, b, e, k);
    var t8 := And(And(a, b), d);  And3Bits(a, b, d, k);
    var t9 := And(And(a, b), c);  And3Bits(a, b, c, k);
    var o1 := Or(t0, t1);  OrBits(t0, t1, k);
    var o2 := Or(o1, t2);  OrBits(o1, t2, k);
    var o3 := Or(o2, t3);  OrBits(o2, t3, k);
    var o4 := Or(o3, t4);  OrBits(o3, t4, k);
    var o5 := Or(o4, t5);  OrBits(o4, t5, k);
    var o6 := Or(o5, t6);  OrBits(o5, t6, k);
    var o7 := Or(o6, t7);  OrBits(o6, t7, k);
    var o8 := Or(o7, t8);  OrBits(o7, t8, k);
    OrBits(o8, t9, k);
  }

  /** At least three of five are true when some three of them are. */
  lemma FiveVotes(a: bool, b: bool, c: bool, d: bool, e: bool)
    ensures Ones5(a, b, c, d, e) >= 3
        <==> (c && d && e) || (b && d && e) || (b && c && e) || (b && c && d) || (a && d && e) || (a && c && e)
             || (a && c && d) || (a && b && e) || (a && b && d) || (a && b && c)
  {
  }

  /** A vote over words of `n` bits has `n` bits. */
  lemma Correct3Below(a: nat, b: nat, c: nat, n: nat)
    requires a < Pow2(n) && b < Pow2(n) && c < Pow2(n)
    ensures Correct3(a, b, c) < Pow2(n)
  {
    hide Correct3;
    forall k: nat | n <= k ensures !Bit(Correct3(a, b, c), k) {
      Correct3Majority(a, b, c, k);
      HighBits(a, n, k); HighBits(b, n, k); HighBits(c, n, k);
    }
    BoundedBits(Correct3(a, b, c), n);
  }

  lemma Correct3Byte(a: byte, b: byte, c: byte)
    ensures Correct3(a, b, c) < 256
  {
    Pow2Values();
    Correct3Below(a, b, c, 8);
  }

  lemma Correct5Byte(a: byte, b: byte, c: byte, d: byte, e: byte)
    ensures Correct5(a, b, c, d, e) < 256
  {
    hide Correct5;
    Pow2Values();
    forall k: nat | 8 <= k ensures !Bit(Correct5(a, b, c, d, e), k) {
      Correct5Majority(a, b, c, d, e, k);
      HighBits(a, 8, k); HighBits(b, 8, k); HighBits(c, 8, k); HighBits(d, 8, k); HighBits(e, 8, k);
    }
    BoundedBits(Correct5(a, b, c, d, e), 8);
  }

  function VotedByte3(a: byte, b: byte, c: byte): byte {
    Correct3Byte(a, b, c);
    Correct3(a, b, c)
  }

  function VotedByte5(a: byte, b: byte, c: byte, d: byte, e: byte): byte {
    Correct5Byte(a, b, c, d, e);
    Correct5(a, b, c, d, e)
  }

  /** Two bytes that agree outvote the third. */
  lemma TwoAgree(a: byte, b: byte, c: byte, v: byte)
    requires (a == b == v) || (b == c == v) || (a == c == v)
    ensures VotedByte3(a, b, c) == v
  {
    hide Correct3, Bit;
    forall k: nat ensures Bit(VotedByte3(a, b, c), k) == Bit(v, k) { Correct3Majority(a, b, c, k); }
    SameBits(VotedByte3(a, b, c), v);
  }

  // ---------- Words ----------

  /** Voting on words votes on their bytes. */
  lemma Correct3Bytes(a: nat, b: nat, c: nat, i: nat)
    ensures ByteOf(Correct3(a, b, c), i) == VotedByte3(ByteOf(a, i), ByteOf(b, i), ByteOf(c, i))
  {
    hide Correct3, ByteOf, Bit;
    var x, y := ByteOf(Correct3(a, b, c), i), VotedByte3(ByteOf(a, i), ByteOf(b, i), ByteOf(c, i));
    if x != y {
      var k := BitsDiffer(x, y);
      if k >= 8 { ByteHighBits(x, k); ByteHighBits(y, k); }
      Correct3Majority(a, b, c, 8 * i + k);
      Correct3Majority(ByteOf(a, i), ByteOf(b, i), ByteOf(c, i), k);
      ByteOfBits(a, i, k); ByteOfBits(b, i, k); ByteOfBits(c, i, k);
      ByteOfBits(Correct3(a, b, c), i, k);
      assert false;
    }
  }

  lemma Correct5Bytes(a: nat, b: nat, c: nat, d: nat, e: nat, i: nat)
    ensures ByteOf(Correct5(a, b, c, d, e), i) == VotedByte5(ByteOf(a, i), ByteOf(b, i), ByteOf(c, i), ByteOf(d, i), ByteOf(e, i))
  {
    hide Correct5, ByteOf, Bit;
    var x, y := ByteOf(Correct5(a, b, c, d, e), i), VotedByte5(ByteOf(a, i), ByteOf(b, i), ByteOf(c, i), ByteOf(d, i), ByteOf(e, i));
    if x != y {
      var k := BitsDiffer(x, y);
      if k >= 8 { ByteHighBits(x, k); ByteHighBits(y, k); }
      Correct5Majority(a, b, c, d, e, 8 * i + k);
      Correct5Majority(ByteOf(a, i), ByteOf(b, i), ByteOf(c, i), ByteOf(d, i), ByteOf(e, i), k);
      ByteOfBits(a, i, k); ByteOfBits(b, i, k); ByteOfBits(c, i, k); ByteOfBits(d, i, k); ByteOfBits(e, i, k);
      ByteOfBits(Correct5(a, b, c, d, e), i, k);
      assert false;
    }
  }

  // ---------- Buffers ----------

  function Voted3(x: seq<byte>, y: seq<byte>, z: seq<byte>): (v: seq<byte>)
    requires |x| == |y| == |z|
    ensures |v| == |x|
  {
    seq(|x|, i requires 0 <= i < |x| => VotedByte3(x[i], y[i], z[i]))
  }

  /** Two buffers that agree outvote the third. */
  lemma BuffersAgree(x: seq<byte>, y: seq<byte>, z: seq<byte>, v: seq<byte>)
    requires |x| == |y| == |z| && ((x == y == v) || (y == z == v) || (x == z == v))
    ensures Voted3(x, y, z) == v
  {
    hide VotedByte3;
    forall i | 0 <= i < |v| ensures Voted3(x, y, z)[i] == v[i] { TwoAgree(x[i], y[i], z[i], v[i]); }
  }

  function Voted5(c: seq<seq<byte>>): (v: seq<byte>)
    requires |c| == 5 && forall i | 0 <= i < 5 :: |c[i]| == |c[0]|
    ensures |v| == |c[0]|
  {
    seq(|c[0]|, i requires 0 <= i < |c[0]| => VotedByte5(c[0][i], c[1][i], c[2][i], c[3][i], c[4][i]))
  }

  /** The i-th 32-bit word of a buffer. */
  function WordAt(s: seq<byte>, i: nat): nat
    requires 4 * i + 4 <= |s|
  {
    Word(s[4 * i], s[4 * i + 1], s[4 * i + 2], s[4 * i + 3])
  }

  method StoreWord(buffer: array<byte>, i: nat, w: nat)
    requires 4 * i + 4 <= buffer.Length
    modifies buffer
    ensures forall k | 0 <= k < buffer.Length && !(4 * i <= k < 4 * i + 4) :: buffer[k] == old(buffer[k])
    ensures forall k | 4 * i <= k < 4 * i + 4 :: buffer[k] == ByteOf(w, k - 4 * i)
  {
    buffer[4 * i] := ByteOf(w, 0);
    buffer[4 * i + 1] := ByteOf(w, 1);
    buffer[4 * i + 2] := ByteOf(w, 2);
    buffer[4 * i + 3] := ByteOf(w, 3);
  }

  lemma WordVote3(x: seq<byte>, y: seq<byte>, z: seq<byte>, i: nat)
    requires |x| == |y| == |z| && 4 * i + 4 <= |x|
    ensures forall k | 4 * i <= k < 4 * i + 4 ::
              Voted3(x, y, z)[k] == ByteOf(Correct3(WordAt(x, i), WordAt(y, i), WordAt(z, i)), k - 4 * i)
  {
    hide Correct3, Word;
    WordBytes(x[4 * i], x[4 * i + 1], x[4 * i + 2], x[4 * i + 3]);
    WordBytes(y[4 * i], y[4 * i + 1], y[4 * i + 2], y[4 * i + 3]);
    WordBytes(z[4 * i], z[4 * i + 1], z[4 * i + 2], z[4 * i + 3]);
    hide WordAt;
    forall k | 4 * i <= k < 4 * i + 4
      ensures Voted3(x, y, z)[k] == ByteOf(Correct3(WordAt(x, i), WordAt(y, i), WordAt(z, i)), k - 4 * i)
    {
      hide ByteOf;
      Correct3Bytes(WordAt(x, i), WordAt(y, i), WordAt(z, i), k - 4 * i);
    }
  }

  lemma WordVote5(c: seq<seq<byte>>, i: nat)
    requires |c| == 5 && (forall j | 0 <= j < 5 :: |c[j]| == |c[0]|) && 4 * i + 4 <= |c[0]|
    ensures forall k | 4 * i <= k < 4 * i + 4 ::
              Voted5(c)[k]
              == ByteOf(Correct5(WordAt(c[0], i), WordAt(c[1], i), WordAt(c[2], i), WordAt(c[3], i), WordAt(c[4], i)), k - 4 * i)
  {
    hide Correct5, Word;
    forall j | 0 <= j < 5
      ensures forall k | 4 * i <= k < 4 * i + 4 :: c[j][k] == ByteOf(WordAt(c[j], i), k - 4 * i)
    {
      WordBytes(c[j][4 * i], c[j][4 * i + 1], c[j][4 * i + 2], c[j][4 * i + 3]);
    }
    hide ByteOf, WordAt;
    forall k | 4 * i <= k < 4 * i + 4
      ensures Voted5(c)[k]
              == ByteOf(Correct5(WordAt(c[0], i), WordAt(c[1], i), WordAt(c[2], i), WordAt(c[3], i), WordAt(c[4], i)), k - 4 * i)
    {
      Correct5Bytes(WordAt(c[0], i), WordAt(c[1], i), WordAt(c[2], i), WordAt(c[3], i), WordAt(c[4], i), k - 4 * i);
    }
  }

  /** Votes into a separate buffer. `aligned` says that the voted buffers start on word boundaries. */
  method CorrectBuffer(output: array<byte>, b1: seq<byte>, b2: seq<byte>, b3: seq<byte>, aligned: bool) returns (ok: bool)
    modifies output
    ensures ok <==> output.Length == |b1| == |b2| == |b3| && output.Length % 4 == 0 && aligned
    ensures output[..] == if ok then Voted3(b1, b2, b3) else old(output[..])
  {
    hide Correct3, ByteOf, WordAt, Voted3;
    if output.Length != |b1| || |b1| != |b2| || |b2| != |b3| {
      return false;
    }
    if output.Length % 4 != 0 {
      return false;
    }
    if !aligned {
      return false;
    }
    for i := 0 to output.Length / 4
      invariant forall k | 0 <= k < 4 * i :: output[..][k] == Voted3(b1, b2, b3)[k]
    {
      WordVote3(b1, b2, b3, i);
      var word := Correct3(WordAt(b1, i), WordAt(b2, i), WordAt(b3, i));
      StoreWord(output, i, word);
    }
    return true;
  }

  /** Votes in place: `buffer1` is both voted on and overwritten. */
  method CorrectBufferInPlace(buffer1: array<byte>, b2: seq<byte>, b3: seq<byte>, aligned: bool) returns (ok: bool)
    modifies buffer1
    ensures ok <==> buffer1.Length == |b2| == |b3| && buffer1.Length % 4 == 0 && aligned
    ensures buffer1[..] == if ok then Voted3(old(buffer1[..]), b2, b3) else old(buffer1[..])
  {
    hide Correct3, ByteOf, Word, Voted3;
    if buffer1.Length != |b2| || |b2| != |b3| {
      return false;
    }
    if buffer1.Length % 4 != 0 {
      return false;
    }
    if !aligned {
      return false;
    }
    ghost var b1 := buffer1[..];
    for i := 0 to buffer1.Length / 4
      invariant forall k | 0 <= k < 4 * i :: buffer1[..][k] == Voted3(b1, b2, b3)[k]
      invariant forall k | 4 * i <= k < buffer1.Length :: buffer1[k] == b1[k]
    {
      WordVote3(b1, b2, b3, i);
      var word := Correct3(WordAt(buffer1[..], i), WordAt(b2, i), WordAt(b3, i));
      StoreWord(buffer1, i, word);
    }
    return true;
  }

  method CorrectBuffer5(result: array<byte>, buffers: seq<seq<byte>>, aligned: bool) returns (ok: bool)
    requires |buffers| == 5
    modifies result
    ensures ok <==> (forall i | 0 <= i < 5 :: |buffers[i]| == result.Length) && result.Length % 4 == 0 && aligned
    ensures result[..] == if ok then Voted5(buffers) else old(result[..])
  {
    hide Correct5, ByteOf, WordAt, Voted5;
    if |buffers[0]| != |buffers[1]| || |buffers[1]| != |buffers[2]| || |buffers[2]| != |buffers[3]|
       || |buffers[3]| != |buffers[4]| || result.Length != |buffers[0]| {
      return false;
    }
    if result.Length % 4 != 0 {
      return false;
    }
    if !aligned {
      return false;
    }
    for i := 0 to result.Length / 4
      invariant forall k | 0 <= k < 4 * i :: result[..][k] == Voted5(buffers)[k]
    {
      WordVote5(buffers, i);
      var word := Correct5(WordAt(buffers[0], i), WordAt(buffers[1], i), WordAt(buffers[2], i), WordAt(buffers[3], i),
                           WordAt(buffers[4], i));
      StoreWord(result, i, word);
    }
    return true;
  }
}
