/** Boot settings kept in FRAM (libs/boot_settings/settings.cpp). */
module BootSettings {
  import opened Words
  import opened BootTable

  const MAGIC := 0x7D53C5D5
  const DEFAULT_SLOTS: byte := 7
  const DEFAULT_FAILSAFE: byte := 56
  const DEFAULT_COUNTER := 0
  const SAFE_MODE: byte := 0x40
  const UPPER: byte := 0x80
  const COUNTER_TOP := 0xFFFF

  // Offsets of the fields.
  const SLOTS_AT := 4
  const FAILSAFE_AT := 5
  const COUNTER_AT := 6
  const CONFIRMED_AT := 10
  const SIZE := 14

  /** The fields as stored, whether or not the magic number is right. */
  datatype Stored = Stored(magic: nat, slots: byte, failsafe: byte, counter: nat, lastConfirmed: nat)

  function ReadDoubleWordLE(s: seq<byte>, at: nat): (w: nat)
    requires at + 4 <= |s|
    ensures w < WORD_LIMIT
  {
    Word(s[at], s[at + 1], s[at + 2], s[at + 3])
  }

  function DoubleWordLE(w: nat): (s: seq<byte>)
    ensures |s| == 4
  {
    [ByteOf(w, 0), ByteOf(w, 1), ByteOf(w, 2), ByteOf(w, 3)]
  }

  /** A double word is read back as it was written. */
  lemma DoubleWordRoundTrip(w: nat)
    requires w < WORD_LIMIT
    ensures ReadDoubleWordLE(DoubleWordLE(w), 0) == w
  {
    assert ByteOf(w, 1) == w / 256 % 256;
    assert ByteOf(w, 2) == ByteOf(w / 256, 1) == w / 256 / 256 % 256;
    assert ByteOf(w, 3) == ByteOf(w / 256, 2) == ByteOf(w / 256 / 256, 1) == w / 256 / 256 / 256 % 256;
  }

  /** The layout of the fields. */
  function Decoded(s: seq<byte>): Stored
    requires |s| == SIZE
  {
    Stored(ReadDoubleWordLE(s, 0), s[SLOTS_AT], s[FAILSAFE_AT], ReadDoubleWordLE(s, COUNTER_AT), ReadDoubleWordLE(s, CONFIRMED_AT))
  }

  predicate IsValidBootSlot(mask: byte) {
    mask == UPPER || mask == SAFE_MODE || PopCount(mask % 64) == 3
  }

  class Settings {
    const fram: array<byte>

    ghost predicate Valid() {
      fram.Length == SIZE
    }

    constructor (fram: array<byte>)
      requires fram.Length == SIZE
      ensures Valid() && this.fram == fram
    {
      this.fram := fram;
    }

    function View(): (s: Stored)
      reads fram
      requires Valid()
      ensures s.counter < WORD_LIMIT && s.lastConfirmed < WORD_LIMIT
    {
      Decoded(fram[..])
    }

    method Write(at: nat, data: seq<byte>)
      requires Valid() && at + |data| <= SIZE
      modifies fram
      ensures fram[..] == old(fram[..])[..at] + data + old(fram[..])[at + |data|..]
    {
      for i := 0 to |data|
        invariant fram[..] == old(fram[..])[..at] + data[..i] + old(fram[..])[at + i..]
      {
        fram[at + i] := data[i];
      }
    }

    predicate CheckMagicNumber()
      reads fram
      requires Valid()
    {
      View().magic == MAGIC
    }

    function BootSlots(): byte
      reads fram
      requires Valid()
    {
      if !CheckMagicNumber() then DEFAULT_SLOTS else View().slots
    }

    method SetBootSlots(slots: byte) returns (ok: bool)
      requires Valid()
      modifies fram
      ensures View() == old(View()).(slots := slots)
      ensures ok <==> CheckMagicNumber() || slots == DEFAULT_SLOTS
    {
      Write(SLOTS_AT, [slots]);
      return BootSlots() == slots;
    }

    function FailsafeBootSlots(): byte
      reads fram
      requires Valid()
    {
      if !CheckMagicNumber() then DEFAULT_FAILSAFE else View().failsafe
    }

    method SetFailsafeBootSlots(slots: byte) returns (ok: bool)
      requires Valid()
      modifies fram
      ensures View() == old(View()).(failsafe := slots)
      ensures ok <==> CheckMagicNumber() || slots == DEFAULT_FAILSAFE
    {
      Write(FAILSAFE_AT, [slots]);
      return FailsafeBootSlots() == slots;
    }

    function BootCounter(): nat
      reads fram
      requires Valid()
    {
      if !CheckMagicNumber() then DEFAULT_COUNTER else View().counter
    }

    method SetBootCounter(counter: nat) returns (ok: bool)
      requires Valid() && counter < WORD_LIMIT
      modifies fram
      ensures View() == old(View()).(counter := counter)
      ensures ok <==> CheckMagicNumber() || counter == DEFAULT_COUNTER
    {
      hide ByteOf, Word;
      Write(COUNTER_AT, DoubleWordLE(counter));
      DoubleWordRoundTrip(counter);
      return BootCounter() == counter;
    }

    method MarkAsValid()
      requires Valid()
      modifies fram
      ensures View() == old(View()).(magic := MAGIC) && CheckMagicNumber()
    {
      hide ByteOf, Word;
      Write(0, DoubleWordLE(MAGIC));
      DoubleWordRoundTrip(MAGIC);
    }

    function LastConfirmedBootCounter(): nat
      reads fram
      requires Valid()
    {
      View().lastConfirmed
    }

    /** The current boot is confirmed; without the magic number the counter counts as 0. */
    method ConfirmBoot() returns (ok: bool)
      requires Valid()
      modifies fram
      ensures View() == old(View()).(lastConfirmed := if old(View()).magic == MAGIC then old(View()).counter else DEFAULT_COUNTER)
      ensures ok
    {
      hide ByteOf, Word;
      var counter := BootCounter();
      Write(CONFIRMED_AT, DoubleWordLE(counter));
      DoubleWordRoundTrip(counter);
      return LastConfirmedBootCounter() == counter;
    }

    /** Afterwards every getter that checks the magic number answers with its default. */
    method Erase()
      requires Valid()
      modifies fram
      ensures forall i | 0 <= i < SIZE :: fram[i] == 255
      ensures BootSlots() == DEFAULT_SLOTS && FailsafeBootSlots() == DEFAULT_FAILSAFE && BootCounter() == DEFAULT_COUNTER
    {
      var buf := seq(SIZE, i => 255 as byte);
      Write(0, buf);
      assert fram[..] == buf;
    }
  }
}
