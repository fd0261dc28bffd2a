/** Downlink frame headers: written on board (libs/telecommunication/downlink.cpp), parsed on the ground
    (integration_tests/devices/comm.py). */
module Downlink {
  import opened Words
  import opened BitWriter

  const MAX_FRAME_SIZE := 235
  const HEADER_SIZE := 3

  datatype Parsed = Parsed(apid: nat, number: nat, payload: seq<byte>)

  /** The 24 header bits as the ground assembles them. */
  function HeaderWord(s: seq<byte>): nat
    requires |s| >= HEADER_SIZE
  {
    Or(Or(Or(0, Shl(s[0], 0)), Shl(s[1], 8)), Shl(s[2], 16))
  }

  function Parse(s: seq<byte>): Parsed
    requires |s| >= HEADER_SIZE
  {
    Parsed(And(HeaderWord(s), 63), Shr(HeaderWord(s), 6), s[HEADER_SIZE..])
  }

  lemma ShiftedByte(b: byte, n: nat, k: nat)
    requires n <= 16
    ensures Bit(Shl(b, n), k) == (n <= k < n + 8 && Bit(b, k - n))
  {
    LargePowers();
    Pow2Monotone(n, 16);
    Product(b, 255, Pow2(n), 65536);
    ShlBits(b, n, k);
    if k >= n + 8 { HighBits(b, 8, k - n); }
  }

  lemma HeaderBits(s: seq<byte>, k: nat)
    requires |s| >= HEADER_SIZE
    ensures Bit(HeaderWord(s), k) == (k < 24 && BitAt(s, k))
  {
    hide Bit, Or, Shl;
    var b0, b1, b2 := Shl(s[0], 0), Shl(s[1], 8), Shl(s[2], 16);
    ShiftedByte(s[0], 0, k);
    ShiftedByte(s[1], 8, k);
    ShiftedByte(s[2], 16, k);
    OrBits(0, b0, k);
    OrBits(Or(0, b0), b1, k);
    OrBits(Or(Or(0, b0), b1), b2, k);
    ZeroBits(k);
  }

  lemma LowPart(w: nat, n: nat, k: nat)
    ensures Bit(w % Pow2(n), k) == (k < n && Bit(w, k))
  {
    if k < n { LowByteBits(w, k, n); } else { HighBits(w % Pow2(n), n, k); }
  }

  /** A header of 6 APID bits and 18 sequence bits is parsed back; whatever follows it is the payload. */
  lemma HeaderRoundTrip(s: seq<byte>, apid: nat, number: nat)
    requires |s| >= HEADER_SIZE && Stream(s, 24) == LowBits(apid, 6) + LowBits(number, 18)
    ensures Parse(s) == Parsed(apid % 64, number % 0x40000, s[HEADER_SIZE..])
  {
    hide Bit, HeaderWord;
    Pow2Values();
    assert Pow2(6) == 64;
    var w := HeaderWord(s);
    forall k: nat | k < 24 ensures Bit(w, k) == if k < 6 then Bit(apid, k) else Bit(number, k - 6) {
      HeaderBits(s, k);
      assert Stream(s, 24)[k] == BitAt(s, k);
    }
    forall k: nat ensures Bit(And(w, 63), k) == Bit(apid % 64, k) {
      AndBits(w, 63, k);
      OnesBits(6, k);
      LowPart(apid, 6, k);
    }
    SameBits(And(w, 63), apid % 64);
    forall k: nat ensures Bit(Shr(w, 6), k) == Bit(number % 0x40000, k) {
      ShrBits(w, 6, k);
      LowPart(number, 18, k);
      HeaderBits(s, 6 + k);
    }
    SameBits(Shr(w, 6), number % 0x40000);
  }

  class DownlinkFrame {
    const frame: array<byte>

    /** The ground recovers every APID below 64 and sequence number below 2^18, whatever payload is written later. */
    constructor (apid: byte, number: nat)
      requires number < WORD_LIMIT
      ensures fresh(frame) && frame.Length == MAX_FRAME_SIZE
      ensures Stream(frame[..], 24) == LowBits(apid, 6) + LowBits(number, 18)
      ensures forall p | HEADER_SIZE <= p < MAX_FRAME_SIZE :: frame[p] == 0
      ensures Parse(frame[..]) == Parsed(apid % 64, number % 0x40000, frame[HEADER_SIZE..])
    {
      frame := new byte[MAX_FRAME_SIZE](i => 0);
      new;
      hide Stream, LowBits, Parse;
      var w := new Writer(frame);
      var ok := w.WriteWord(apid, 6);
      ok := w.WriteDoubleWord(number, 18);
      assert w.View().bits == LowBits(apid, 6) + LowBits(number, 18);
      HeaderRoundTrip(frame[..], apid, number);
    }
  }
}
