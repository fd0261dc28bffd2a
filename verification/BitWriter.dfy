/** Bit-packed writing, least significant bit first (libs/base/BitWriter.cpp). */
module BitWriter {
  import opened Words

  const BITS_PER_WORD := 16
  const BITS_PER_DWORD := 32
  const BITS_PER_QWORD := 64
  /** Sizes in bits are computed in signed 32-bit arithmetic. */
  const BIT_LIMIT := 0x8000_0000

  const WORD_MASK: seq<nat> :=
    [0x0, 0x1, 0x3, 0x7, 0xf, 0x1f, 0x3f, 0x7f, 0xff, 0x1ff, 0x3ff, 0x7ff, 0xfff, 0x1fff, 0x3fff, 0x7fff, 0xffff]

  // ---------- Bit streams ----------

  /** Bit `i` of a buffer, counting from the least significant bit of its first byte. */
  predicate BitAt(s: seq<byte>, i: nat)
    requires i / 8 < |s|
  {
    Bit(s[i / 8], i % 8)
  }

  function Stream(s: seq<byte>, n: nat): (bits: seq<bool>)
    requires n <= 8 * |s|
    ensures |bits| == n
  {
    seq(n, i requires 0 <= i < n => BitAt(s, i))
  }

  function LowBits(value: nat, length: nat): (bits: seq<bool>)
    ensures |bits| == length
  {
    seq(length, i requires 0 <= i < length => Bit(value, i))
  }

  /** A request to a writer. */
  datatype Op = Word(value: nat, length: nat) | DoubleWord(value: nat, length: nat) | QuadWord(value: nat, length: nat)
    | Span(bytes: seq<byte>)

  /** The bits an operation appends. */
  function Payload(op: Op): seq<bool> {
    match op
    case Word(value, length) => LowBits(value, length)
    case DoubleWord(value, length) => LowBits(value, length)
    case QuadWord(value, length) => LowBits(value, length)
    case Span(bytes) => Stream(bytes, 8 * |bytes|)
  }

  function LengthLimit(op: Op): nat {
    match op
    case Word(_, _) => BITS_PER_WORD
    case DoubleWord(_, _) => BITS_PER_DWORD
    case QuadWord(_, _) => BITS_PER_QWORD
    case Span(bytes) => 8 * |bytes|
  }

  /** A writer as its clients see it: what was written, and whether every write so far succeeded. */
  datatype Written = Written(valid: bool, bits: seq<bool>, limit: nat)

  predicate Accepts(v: Written, op: Op) {
    v.valid && |Payload(op)| <= LengthLimit(op) && |v.bits| + |Payload(op)| <= v.limit
  }

  function Apply(v: Written, op: Op): Written {
    if Accepts(v, op) then v.(bits := v.bits + Payload(op)) else v.(valid := false)
  }

  function ApplyAll(v: Written, ops: seq<Op>): Written {
    if ops == [] then v else Apply(ApplyAll(v, ops[..|ops| - 1]), ops[|ops| - 1])
  }

  function Concat(ops: seq<Op>): seq<bool> {
    if ops == [] then [] else Concat(ops[..|ops| - 1]) + Payload(ops[|ops| - 1])
  }

  /**
    * A write of at most 16, 32 or 64 bits, or of a span, succeeds exactly when none failed before and its bits fit; bit
    * `i` of what it appends is bit `i` of the value, or of the span.
    */
  lemma WritesBits(v: Written, value: nat, length: nat, bytes: seq<byte>)
    ensures Apply(v, Word(value, length))
         == if v.valid && length <= 16 && |v.bits| + length <= v.limit then v.(bits := v.bits + LowBits(value, length))
            else v.(valid := false)
    ensures Apply(v, DoubleWord(value, length))
         == if v.valid && length <= 32 && |v.bits| + length <= v.limit then v.(bits := v.bits + LowBits(value, length))
            else v.(valid := false)
    ensures Apply(v, QuadWord(value, length))
         == if v.valid && length <= 64 && |v.bits| + length <= v.limit then v.(bits := v.bits + LowBits(value, length))
            else v.(valid := false)
    ensures Apply(v, Span(bytes))
         == if v.valid && |v.bits| + 8 * |bytes| <= v.limit then v.(bits := v.bits + Stream(bytes, 8 * |bytes|)) else v.(valid := false)
    ensures forall i | 0 <= i < length :: LowBits(value, length)[i] == Bit(value, i)
    ensures forall i: nat | i < 8 * |bytes| :: Stream(bytes, 8 * |bytes|)[i] == Bit(bytes[i / 8], i % 8)
  {
    hide Bit;
  }

  /** The writes succeed up to the first that is refused; exactly those are in the stream and none after it. */
  lemma {:induction false} WritesConcatenate(v: Written, ops: seq<Op>) returns (n: nat)
    requires v.valid
    ensures n <= |ops| && ApplyAll(v, ops) == Written(n == |ops|, v.bits + Concat(ops[..n]), v.limit)
    ensures n < |ops| ==> !Accepts(ApplyAll(v, ops[..n]), ops[n]) && ApplyAll(v, ops[..n]).valid
  {
    hide Payload;
    if ops == [] {
      n := 0;
    } else {
      var before := ops[..|ops| - 1];
      n := WritesConcatenate(v, before);
      assert before[..n] == ops[..n];
      if n == |before| {
        assert before == ops[..n];
        if Accepts(ApplyAll(v, before), ops[n]) {
          n := |ops|;
          assert ops[..n] == ops;
          assert (v.bits + Concat(before)) + Payload(ops[n - 1]) == v.bits + Concat(ops);
        }
      }
    }
  }

  // ---------- One word ----------

  lemma WordMasks(n: nat)
    requires n <= BITS_PER_WORD
    ensures WORD_MASK[n] == Pow2(n) - 1
  {
    Pow2Values();
    assert Pow2(16) == 65536;
    if n == 4 { assert Pow2(4) == 16; } else if n == 5 { assert Pow2(5) == 32; } else if n == 6 { assert Pow2(6) == 64; }
    else if n == 7 { assert Pow2(7) == 128; } else if n == 10 { assert Pow2(10) == 1024; } else if n == 11 { assert Pow2(11) == 2048; }
    else if n == 13 { assert Pow2(13) == 8192; } else if n == 14 { assert Pow2(14) == 16384; } else if n == 15 { assert Pow2(15) == 32768; }
  }

  lemma Masked(w: nat, n: nat, k: nat)
    requires n <= BITS_PER_WORD
    ensures Bit(And(w, WORD_MASK[n]), k) == (Bit(w, k) && k < n)
  {
    WordMasks(n);
    AndBits(w, WORD_MASK[n], k);
    OnesBits(n, k);
  }

  lemma MaskedBound(w: nat, n: nat)
    requires n <= BITS_PER_WORD
    ensures And(w, WORD_MASK[n]) < Pow2(n)
  {
    forall k: nat | n <= k ensures !Bit(And(w, WORD_MASK[n]), k) { Masked(w, n, k); }
    BoundedBits(And(w, WORD_MASK[n]), n);
  }

  /** Adding below a shifted word puts the two side by side. */
  lemma {:induction false} SideBySide(high: nat, low: nat, n: nat, k: nat)
    requires low < Pow2(n)
    ensures Bit(high * Pow2(n) + low, k) == if k < n then Bit(low, k) else Bit(high, k - n)
  {
    if n == 0 {
    } else {
      var half := high * Pow2(n - 1);
      assert high * Pow2(n) == 2 * half;
      if k > 0 {
        assert (2 * half + low) / 2 == half + low / 2;
        SideBySide(high, low / 2, n - 1, k - 1);
      }
    }
  }

  /** What the private WriteWord combines: the bits already in the byte, then those of the value, then zeros. */
  function Combined(value: nat, held: byte, bitPosition: nat, length: nat): nat
    requires bitPosition < 8 && length <= BITS_PER_WORD
  {
    Shl(And(value, WORD_MASK[length]), bitPosition) + And(held, WORD_MASK[bitPosition])
  }

  lemma CombinedBits(value: nat, held: byte, bitPosition: nat, length: nat, k: nat)
    requires bitPosition < 8 && length <= BITS_PER_WORD
    ensures Bit(Combined(value, held, bitPosition, length), k)
         == if k < bitPosition then Bit(held, k) else Bit(value, k - bitPosition) && k < bitPosition + length
  {
    hide And, Shl, Bit;
    var high, low := And(value, WORD_MASK[length]), And(held, WORD_MASK[bitPosition]);
    MaskedBound(value, length);
    MaskedBound(held, bitPosition);
    NoOverflow(high, length, bitPosition);
    SideBySide(high, low, bitPosition, k);
    if k < bitPosition { Masked(held, bitPosition, k); } else { Masked(value, length, k - bitPosition); }
  }

  lemma NoOverflow(w: nat, length: nat, n: nat)
    requires w < Pow2(length) && length <= 16 && n < 8
    ensures Shl(w, n) == w * Pow2(n)
  {
    hide Pow2;
    Pow2Monotone(length, 16);
    Pow2Monotone(n, 8);
    LargePowers();
    SmallProduct(w, Pow2(n));
  }

  lemma LargePowers()
    ensures Pow2(8) == 256 && Pow2(16) == 65536
  {
    Pow2Values();
    assert Pow2(16) == 16 * Pow2(12);
  }

  lemma SmallProduct(w: nat, p: nat)
    requires w < 65536 && p <= 256
    ensures w * p < WORD_LIMIT
  {
    Product(w, 65536, p, 256);
  }

  lemma Product(a: nat, b: nat, c: nat, d: nat)
    requires a <= b && c <= d
    ensures a * c <= b * d
  {
    MulLe(a, b, c);
    assert b * c == c * b;
    MulLe(c, d, b);
    assert d * b == b * d;
  }

  /** Byte `t` of a word, as the shifts and the truncating stores of the source take it. */
  function StoredByte(w: nat, t: nat): byte {
    Shr(w, 8 * t) % 256
  }

  lemma StoredBits(w: nat, t: nat, k: nat)
    requires k < 8
    ensures Bit(StoredByte(w, t), k) == Bit(w, 8 * t + k)
  {
    LowByteBits(Shr(w, 8 * t), k, 8);
    ShrBits(w, 8 * t, k);
  }

  /** The buffer after some bytes from `at` on are overwritten with those of a word. */
  ghost predicate Overwritten(before: seq<byte>, after: seq<byte>, at: nat, w: nat, bytes: nat) {
    && |after| == |before| && at + bytes <= |before|
    && (forall p | 0 <= p < |before| && !(at <= p < at + bytes) :: after[p] == before[p])
    && (forall p | at <= p < at + bytes :: after[p] == StoredByte(w, p - at))
  }

  lemma OverwrittenBits(before: seq<byte>, after: seq<byte>, at: nat, w: nat, bytes: nat, i: nat)
    requires Overwritten(before, after, at, w, bytes) && i < 8 * |before|
    ensures BitAt(after, i) == if 8 * at <= i < 8 * (at + bytes) then Bit(w, i - 8 * at) else BitAt(before, i)
  {
    hide StoredByte, Bit;
    if at <= i / 8 < at + bytes {
      StoredBits(w, i / 8 - at, i % 8);
      assert 8 * (i / 8 - at) + i % 8 == i - 8 * at;
    }
  }

  /** The bits from the end of the stream to the end of its last byte are zero. */
  ghost predicate Padded(s: seq<byte>, n: nat)
    requires n <= 8 * |s|
  {
    forall i: nat | n <= i < (n + 7) / 8 * 8 :: !BitAt(s, i)
  }

  /** Overwriting with a combined word appends to the stream and leaves zeros up to the next byte. */
  lemma Appended(before: seq<byte>, after: seq<byte>, at: nat, bitPosition: nat, value: nat, length: nat)
    requires bitPosition < 8 && 0 < length <= BITS_PER_WORD && 8 * at + bitPosition + length <= 8 * |before|
    requires Overwritten(before, after, at, Combined(value, before[at], bitPosition, length), (bitPosition + length + 7) / 8)
    ensures var n := 8 * at + bitPosition;
            Stream(after, n + length) == Stream(before, n) + LowBits(value, length) && Padded(after, n + length)
  {
    hide Combined, Bit;
    var n, w := 8 * at + bitPosition, Combined(value, before[at], bitPosition, length);
    forall i: nat | i < (n + length + 7) / 8 * 8
      ensures BitAt(after, i) == if i < n then BitAt(before, i) else Bit(value, i - n) && i < n + length
    {
      OverwrittenBits(before, after, at, w, (bitPosition + length + 7) / 8, i);
      if i >= 8 * at {
        CombinedBits(value, before[at], bitPosition, length, i - 8 * at);
        if i < n { assert i / 8 == at && i % 8 == i - 8 * at; }
      }
    }
    hide BitAt;
    assert Stream(after, n + length) == Stream(before, n) + LowBits(value, length);
  }

  // ---------- The writer ----------

  class Writer {
    var buffer: array<byte>
    var bitPosition: nat
    var bytePosition: nat
    var bitLimit: nat
    var isValid: bool

    ghost predicate Valid()
      reads this, buffer
    {
      && bitPosition < 8 && bitLimit == 8 * buffer.Length < BIT_LIMIT
      && 8 * bytePosition + bitPosition <= bitLimit
      && Padded(buffer[..], 8 * bytePosition + bitPosition)
    }

    /** The writer as its clients see it. */
    ghost function View(): Written
      reads this, buffer
      requires Valid()
    {
      Written(isValid, Stream(buffer[..], GetBitDataLength()), bitLimit)
    }

    constructor (view: array<byte>)
      requires 8 * view.Length < BIT_LIMIT
      ensures Valid() && buffer == view && View() == Written(view.Length > 0, [], 8 * view.Length)
    {
      buffer := view;
      bitPosition, bytePosition := 0, 0;
      bitLimit := 8 * view.Length;
      isValid := view.Length > 0;
    }

    function GetBitDataLength(): nat
      reads this
    {
      bitPosition + bytePosition * 8
    }

    function GetByteDataLength(): nat
      reads this
    {
      (bitPosition + 7) / 8 + bytePosition
    }

    method UpdateStatus(length: nat, lengthLimit: nat) returns (ok: bool)
      requires Valid() && length < BIT_LIMIT
      modifies this`isValid
      ensures ok == isValid == (old(isValid) && length <= lengthLimit && GetBitDataLength() + length <= bitLimit)
    {
      isValid := isValid && length <= lengthLimit && (GetBitDataLength() + length) % WORD_LIMIT <= bitLimit;
      return isValid;
    }

    method PutWord(value: nat, length: nat)
      requires Valid() && 0 < length <= BITS_PER_WORD && GetBitDataLength() + length <= bitLimit
      modifies this`bitPosition, this`bytePosition, buffer
      ensures Valid() && View() == old(View()).(bits := old(View()).bits + LowBits(value, length))
      ensures forall p | 0 <= p < old(bytePosition) || GetByteDataLength() <= p < buffer.Length :: buffer[p] == old(buffer[p])
    {
      hide Combined, StoredByte, Stream, LowBits, Padded;
      ghost var before := buffer[..];
      var combined := Combined(value, buffer[bytePosition], bitPosition, length);
      var bits := length + bitPosition;
      var bytes := (bits + 7) / 8;
      var position := bytePosition;
      buffer[position] := StoredByte(combined, 0);
      if bytes > 1 {
        buffer[position + 1] := StoredByte(combined, 1);
        if bytes > 2 {
          buffer[position + 2] := StoredByte(combined, 2);
        }
      }
      assert Overwritten(before, buffer[..], position, combined, bytes);
      Appended(before, buffer[..], position, bitPosition, value, length);
      bytePosition := bytePosition + bits / 8;
      bitPosition := bits % 8;
    }

    method WriteWord(value: nat, length: byte) returns (ok: bool)
      requires Valid()
      modifies this`bitPosition, this`bytePosition, this`isValid, buffer
      ensures Valid() && View() == Apply(old(View()), Word(value, length)) && ok == isValid
      ensures !ok ==> buffer[..] == old(buffer[..])
      ensures forall p | 0 <= p < old(bytePosition) || GetByteDataLength() <= p < buffer.Length :: buffer[p] == old(buffer[p])
    {
      hide Stream, LowBits, Padded;
      ok := UpdateStatus(length, BITS_PER_WORD);
      if !ok {
        return;
      }
      if length > 0 {
        PutWord(value, Min(length, BITS_PER_WORD));
      } else {
        NoBits(value, View().bits);
      }
    }

    method WriteDoubleWord(value: nat, length: byte) returns (ok: bool)
      requires Valid()
      modifies this`bitPosition, this`bytePosition, this`isValid, buffer
      ensures Valid() && View() == Apply(old(View()), DoubleWord(value, length)) && ok == isValid
      ensures !ok ==> buffer[..] == old(buffer[..])
      ensures forall p | 0 <= p < old(bytePosition) || GetByteDataLength() <= p < buffer.Length :: buffer[p] == old(buffer[p])
    {
      hide Stream, LowBits, Padded;
      ok := UpdateStatus(length, BITS_PER_DWORD);
      if !ok {
        return;
      }
      if length > 0 {
        PutWord(value, Min(length, BITS_PER_WORD));
        if length > BITS_PER_WORD {
          PutWord(Shr(value, 16), length - BITS_PER_WORD);
          Chunks(old(View()).bits, value, 16, length - 16);
        }
      } else {
        NoBits(value, View().bits);
      }
    }

    /** Writes the next bits of a value whose first `done` bits are written. */
    method PutChunk(value: nat, done: nat, length: nat, ghost start: seq<bool>)
      requires Valid() && 0 < length <= BITS_PER_WORD && GetBitDataLength() + length <= bitLimit
      requires View().bits == start + LowBits(value, done)
      modifies this`bitPosition, this`bytePosition, buffer
      ensures Valid() && View() == old(View()).(bits := start + LowBits(value, done + length))
      ensures GetBitDataLength() == old(GetBitDataLength()) + length
      ensures forall p | 0 <= p < old(bytePosition) || GetByteDataLength() <= p < buffer.Length :: buffer[p] == old(buffer[p])
    {
      hide Stream, LowBits, Padded;
      PutWord(Shr(value, done), length);
      Chunks(start, value, done, length);
    }

    method WriteQuadWord(value: nat, length: byte) returns (ok: bool)
      requires Valid()
      modifies this`bitPosition, this`bytePosition, this`isValid, buffer
      ensures Valid() && View() == Apply(old(View()), QuadWord(value, length)) && ok == isValid
      ensures !ok ==> buffer[..] == old(buffer[..])
      ensures forall p | 0 <= p < old(bytePosition) || GetByteDataLength() <= p < buffer.Length :: buffer[p] == old(buffer[p])
    {
      hide Stream, LowBits, Padded;
      ok := UpdateStatus(length, BITS_PER_QWORD);
      if !ok {
        return;
      }
      if length > 0 {
        ghost var start := View().bits;
        PutWord(value, Min(length, BITS_PER_WORD));
        if length > BITS_PER_WORD {
          PutChunk(value, 16, Min(length - BITS_PER_WORD, BITS_PER_WORD), start);
          if length > 2 * BITS_PER_WORD {
            PutChunk(value, 32, Min(length - 2 * BITS_PER_WORD, BITS_PER_WORD), start);
            if length > 3 * BITS_PER_WORD {
              PutChunk(value, 48, length - 3 * BITS_PER_WORD, start);
            }
          }
        }
      } else {
        NoBits(value, View().bits);
      }
    }

    method WriteSpan(bytes: seq<byte>) returns (ok: bool)
      requires Valid() && 8 * |bytes| < BIT_LIMIT
      modifies this`bitPosition, this`bytePosition, this`isValid, buffer
      ensures Valid() && View() == Apply(old(View()), Span(bytes)) && ok == isValid
      ensures !ok ==> buffer[..] == old(buffer[..])
      ensures forall p | 0 <= p < old(bytePosition) || GetByteDataLength() <= p < buffer.Length :: buffer[p] == old(buffer[p])
    {
      hide Stream, LowBits, Padded;
      var size := 8 * |bytes|;
      ok := UpdateStatus(size, size);
      if !ok {
        return;
      }
      if bitPosition == 0 {
        CopyBytes(bytes);
      } else {
        PutBytes(bytes);
      }
    }

    /** The fast path of WriteSpan, on a byte boundary. */
    method CopyBytes(bytes: seq<byte>)
      requires Valid() && bitPosition == 0 && GetBitDataLength() + 8 * |bytes| <= bitLimit
      modifies this`bytePosition, buffer
      ensures Valid() && View() == old(View()).(bits := old(View()).bits + Stream(bytes, 8 * |bytes|))
      ensures forall p | 0 <= p < old(bytePosition) || GetByteDataLength() <= p < buffer.Length :: buffer[p] == old(buffer[p])
    {
      hide Stream, Padded;
      ghost var before := buffer[..];
      for i := 0 to |bytes|
        invariant bytePosition == old(bytePosition)
        invariant forall p | 0 <= p < buffer.Length ::
                    buffer[p] == if bytePosition <= p < bytePosition + i then bytes[p - bytePosition] else before[p]
      {
        buffer[bytePosition + i] := bytes[i];
      }
      Copied(before, buffer[..], bytePosition, bytes);
      bytePosition := bytePosition + |bytes|;
    }

    method PutBytes(bytes: seq<byte>)
      requires Valid() && bitPosition > 0 && GetBitDataLength() + 8 * |bytes| <= bitLimit
      modifies this`bitPosition, this`bytePosition, buffer
      ensures Valid() && View() == old(View()).(bits := old(View()).bits + Stream(bytes, 8 * |bytes|))
      ensures forall p | 0 <= p < old(bytePosition) || GetByteDataLength() <= p < buffer.Length :: buffer[p] == old(buffer[p])
    {
      hide Stream, LowBits, Padded;
      ghost var start, from := View().bits, GetBitDataLength();
      EmptySpan(start);
      for i := 0 to |bytes|
        invariant Valid() && GetBitDataLength() == from + 8 * i
        invariant View() == old(View()).(bits := start + Stream(bytes[..i], 8 * i))
        invariant forall p | 0 <= p < old(bytePosition) || GetByteDataLength() <= p < buffer.Length :: buffer[p] == old(buffer[p])
      {
        PutWord(bytes[i], 8);
        SpanGrows(start, bytes, i);
      }
      assert bytes[..|bytes|] == bytes;
    }

    /** The bytes written so far; nothing once a write has failed. */
    method Capture() returns (view: seq<byte>)
      requires Valid()
      ensures !isValid ==> view == []
      ensures isValid ==> |view| == (GetBitDataLength() + 7) / 8 && Stream(view, GetBitDataLength()) == View().bits
                          && Padded(view, GetBitDataLength())
    {
      if !isValid {
        return [];
      }
      hide Stream, Padded;
      view := buffer[..GetByteDataLength()];
      WholeBytes(buffer[..], GetBitDataLength());
    }
  }

  lemma NoBits(value: nat, bits: seq<bool>)
    ensures bits + LowBits(value, 0) == bits
  {
  }

  /** Writing the next chunk of a value extends the bits of it already written. */
  lemma Chunks(start: seq<bool>, value: nat, done: nat, length: nat)
    ensures start + LowBits(value, done) + LowBits(Shr(value, done), length) == start + LowBits(value, done + length)
  {
    hide Bit, Shr;
    forall i: nat | i < length ensures Bit(Shr(value, done), i) == Bit(value, done + i) { ShrBits(value, done, i); }
  }

  lemma Copied(before: seq<byte>, after: seq<byte>, at: nat, bytes: seq<byte>)
    requires at + |bytes| <= |before| == |after|
    requires forall p | 0 <= p < |before| :: after[p] == if at <= p < at + |bytes| then bytes[p - at] else before[p]
    ensures Stream(after, 8 * (at + |bytes|)) == Stream(before, 8 * at) + Stream(bytes, 8 * |bytes|)
    ensures Padded(after, 8 * (at + |bytes|))
  {
    hide Bit;
    var s, t := Stream(after, 8 * (at + |bytes|)), Stream(before, 8 * at) + Stream(bytes, 8 * |bytes|);
    forall i | 0 <= i < |s| ensures s[i] == t[i] {
      if i >= 8 * at {
        assert (i - 8 * at) / 8 == i / 8 - at && (i - 8 * at) % 8 == i % 8;
        assert after[i / 8] == bytes[i / 8 - at];
      }
    }
  }

  lemma EmptySpan(start: seq<bool>)
    ensures start + Stream([], 0) == start
  {
  }

  lemma WholeBytes(s: seq<byte>, n: nat)
    requires n <= 8 * |s| && Padded(s, n)
    ensures var m := (n + 7) / 8;
            m <= |s| && Stream(s[..m], n) == Stream(s, n) && Padded(s[..m], n)
  {
    hide Bit;
    var t := s[..(n + 7) / 8];
    forall i: nat | i < 8 * |t| ensures BitAt(t, i) == BitAt(s, i) { assert t[i / 8] == s[i / 8]; }
    hide BitAt;
  }

  lemma SpanGrows(start: seq<bool>, bytes: seq<byte>, i: nat)
    requires i < |bytes|
    ensures start + Stream(bytes[..i], 8 * i) + LowBits(bytes[i], 8) == start + Stream(bytes[..i + 1], 8 * (i + 1))
  {
    hide Bit;
    var s, t := Stream(bytes[..i], 8 * i) + LowBits(bytes[i], 8), Stream(bytes[..i + 1], 8 * (i + 1));
    forall j | 0 <= j < |s| ensures s[j] == t[j] {
      if j >= 8 * i { assert j / 8 == i && j % 8 == j - 8 * i; }
    }
    assert s == t;
    assert start + Stream(bytes[..i], 8 * i) + LowBits(bytes[i], 8) == start + s;
  }
}
