/** The program that scrubbing keeps is the program that is booted (libs/scrubber/program.cpp, boot/boot.cpp). */
module ProgramBoot {
  import opened Words
  import opened Redundancy
  import opened BootTable
  import opened BootSettings
  import Boot
  import ProgramScrubber

  lemma VotedAt(mem: seq<byte>, slots: seq<nat>, original: seq<byte>, k: nat)
    requires Slots(slots) && ENTRIES * ENTRY_SIZE <= |mem| && ProgramScrubber.Image(mem, slots) == original && k < ENTRY_SIZE
    ensures original[k] == VotedByte3(mem[slots[0] * ENTRY_SIZE + k], mem[slots[1] * ENTRY_SIZE + k], mem[slots[2] * ENTRY_SIZE + k])
  {
    hide VotedByte3;
    assert ProgramScrubber.Image(mem, slots)[k] == original[k];
  }

  lemma WordOfBytes(w: nat)
    requires w < WORD_LIMIT
    ensures Word(ByteOf(w, 0), ByteOf(w, 1), ByteOf(w, 2), ByteOf(w, 3)) == w
  {
    hide Word, ByteOf;
    DoubleWordRoundTrip(w);
  }

  lemma LengthByte(mem: seq<byte>, slots: seq<nat>, original: seq<byte>, i: nat)
    requires Slots(slots) && ENTRIES * ENTRY_SIZE <= |mem| && ProgramScrubber.Image(mem, slots) == original && i < 4
    ensures ByteOf(Boot.ProgramLength(mem, slots), i) == original[i]
  {
    hide VotedByte3, ProgramScrubber.Image, Word, ByteOf, Correct3;
    var w0 := ReadDoubleWordLE(mem, slots[0] * ENTRY_SIZE);
    var w1 := ReadDoubleWordLE(mem, slots[1] * ENTRY_SIZE);
    var w2 := ReadDoubleWordLE(mem, slots[2] * ENTRY_SIZE);
    Correct3Bytes(w0, w1, w2, i);
    WordByte(mem, slots[0] * ENTRY_SIZE, i);
    WordByte(mem, slots[1] * ENTRY_SIZE, i);
    WordByte(mem, slots[2] * ENTRY_SIZE, i);
    VotedAt(mem, slots, original, i);
  }

  lemma WordByte(mem: seq<byte>, at: nat, i: nat)
    requires at + 4 <= |mem| && i < 4
    ensures ByteOf(ReadDoubleWordLE(mem, at), i) == mem[at + i]
  {
    hide Word, ByteOf;
    WordBytes(mem[at], mem[at + 1], mem[at + 2], mem[at + 3]);
  }

  /** The length the bootloader votes for is that of the program the slots vote for. */
  lemma LengthVoted(mem: seq<byte>, slots: seq<nat>, original: seq<byte>)
    requires Slots(slots) && ENTRIES * ENTRY_SIZE <= |mem| && ProgramScrubber.Image(mem, slots) == original
    ensures Boot.ProgramLength(mem, slots) == ReadDoubleWordLE(original, 0)
  {
    hide ProgramScrubber.Image, Boot.ProgramLength, Word, ByteOf;
    LengthByte(mem, slots, original, 0);
    LengthByte(mem, slots, original, 1);
    LengthByte(mem, slots, original, 2);
    LengthByte(mem, slots, original, 3);
    WordOfBytes(Boot.ProgramLength(mem, slots));
  }

  /** So is the content, up to the end of the entry. */
  lemma ContentVoted(mem: seq<byte>, beyond: nat -> byte, slots: seq<nat>, original: seq<byte>, k: nat)
    requires Slots(slots) && ENTRIES * ENTRY_SIZE <= |mem| && ProgramScrubber.Image(mem, slots) == original
    requires CONTENT_AT + k < ENTRY_SIZE
    ensures Boot.VotedByte(mem, beyond, slots, k) == original[CONTENT_AT + k]
  {
    VotedAt(mem, slots, original, CONTENT_AT + k);
    hide VotedByte3, ProgramScrubber.Image;
    assert forall i | 0 <= i < 3 :: slots[i] * ENTRY_SIZE + CONTENT_AT + k < |mem|;
  }

  lemma InPlace(p: nat, length: nat)
    requires Boot.APPLICATION_BASE <= p < WORD_LIMIT && p - Boot.APPLICATION_BASE < length
    ensures Boot.Loads(p) == p - Boot.APPLICATION_BASE < Boot.Pages(length) * Boot.PAGE_SIZE
  {
  }

  /** Loading three slots that vote for a program puts it at the base of the application, over its length. */
  lemma LoadsImage(mem: seq<byte>, slots: seq<nat>, original: seq<byte>, beyond: nat -> byte, was: seq<byte>, now: seq<byte>)
    requires Slots(slots) && ENTRIES * ENTRY_SIZE <= |mem| && ProgramScrubber.Image(mem, slots) == original && |now| <= WORD_LIMIT
    requires Boot.Loaded(mem, beyond, slots, Boot.Pages(Boot.ProgramLength(mem, slots)) * Boot.PAGE_SIZE, was, now)
    ensures Boot.ProgramLength(mem, slots) == ReadDoubleWordLE(original, 0)
    ensures InternalHolds(now, original)
  {
    LengthVoted(mem, slots, original);
    hide ProgramScrubber.Image, Boot.ProgramLength, Boot.VotedByte, Boot.Loads, Boot.Pages, ReadDoubleWordLE;
    var length := Boot.ProgramLength(mem, slots);
    forall p | Boot.APPLICATION_BASE <= p < |now| && p - Boot.APPLICATION_BASE < length
               && CONTENT_AT + p - Boot.APPLICATION_BASE < ENTRY_SIZE
      ensures now[p] == original[CONTENT_AT + p - Boot.APPLICATION_BASE]
    {
      ContentVoted(mem, beyond, slots, original, p - Boot.APPLICATION_BASE);
      InPlace(p, length);
    }
  }

  /** The internal flash holds the program of an entry over its length, as far as that lies within the entry. */
  ghost predicate InternalHolds(now: seq<byte>, entry: seq<byte>)
    requires |entry| == ENTRY_SIZE
  {
    forall p | Boot.APPLICATION_BASE <= p < |now| && p - Boot.APPLICATION_BASE < ReadDoubleWordLE(entry, 0)
               && CONTENT_AT + p - Boot.APPLICATION_BASE < ENTRY_SIZE ::
      now[p] == entry[CONTENT_AT + p - Boot.APPLICATION_BASE]
  }

  /** Loading three slots after any run of scrubs and tolerable upsets loads the original program. */
  lemma LoadsOriginal(start: ProgramScrubber.State, events: seq<ProgramScrubber.Event>, slots: seq<nat>, original: seq<byte>,
                      beyond: nat -> byte, was: seq<byte>, now: seq<byte>)
    requires ProgramScrubber.WellFormed(start) && ProgramScrubber.Distinct(slots) && |original| == ENTRY_SIZE
    requires ProgramScrubber.AllIntact(start, slots, original) && forall e | e in events :: ProgramScrubber.Possible(e)
    requires forall k | 0 <= k <= |events| :: ProgramScrubber.Tolerable(ProgramScrubber.Run(start, events[..k], slots), slots)
    requires |now| <= WORD_LIMIT
    requires var mem := ProgramScrubber.Run(start, events, slots).mem;
             Boot.Loaded(mem, beyond, slots, Boot.Pages(Boot.ProgramLength(mem, slots)) * Boot.PAGE_SIZE, was, now)
    ensures Boot.ProgramLength(ProgramScrubber.Run(start, events, slots).mem, slots) == ReadDoubleWordLE(original, 0)
    ensures InternalHolds(now, original)
  {
    ProgramScrubber.ImageSurvives(start, events, slots, original);
    LoadsImage(ProgramScrubber.Run(start, events, slots).mem, slots, original, beyond, was, now);
    hide *;
  }

  // ---------- The marks ----------

  predicate MarkRight(mem: seq<byte>, slots: seq<nat>, i: nat)
    requires Slots(slots) && ENTRIES * ENTRY_SIZE <= |mem| && i < 3
  {
    mem[slots[i] * ENTRY_SIZE + MARK_AT] == 0xAA
  }

  /** Slots a mask names may boot exactly when at most one of their marks is wrong; the vote over the marks is not asked. */
  lemma BootableExactly(mem: seq<byte>, mask: byte)
    requires ENTRIES * ENTRY_SIZE <= |mem| && PopCount(mask) == 3
    ensures Slots(FirstThree(Named(mask, ENTRIES)))
    ensures Boot.Bootable(mask, Marks(mem))
       <==> forall i: nat, j: nat | i < j < 3 ::
              MarkRight(mem, FirstThree(Named(mask, ENTRIES)), i) || MarkRight(mem, FirstThree(Named(mask, ENTRIES)), j)
  {
    SlotsNamed(mask);
    hide Named, FirstThree, PopCount;
    var slots := FirstThree(Named(mask, ENTRIES));
    var r := (i: nat) requires i < 3 => MarkRight(mem, slots, i);
    assert r(0) == Marks(mem)[slots[0]] && r(1) == Marks(mem)[slots[1]] && r(2) == Marks(mem)[slots[2]];
    assert (r(0) || r(1)) && (r(1) || r(2)) && (r(0) || r(2)) <==> Ones3(r(0), r(1), r(2)) >= 2;
  }

  /** An entry with nothing but the mark of a valid program, in every slot. */
  function Entry(): (entry: seq<byte>)
    ensures |entry| == ENTRY_SIZE
  {
    seq<byte>(ENTRY_SIZE, p => if p == MARK_AT then 0xAA else 0)
  }

  function SameEntries(): (mem: seq<byte>)
    ensures |mem| == ENTRIES * ENTRY_SIZE
  {
    seq<byte>(ENTRIES * ENTRY_SIZE, p => if p % ENTRY_SIZE == MARK_AT then 0xAA else 0)
  }

  /** Two upsets in the marks of two slots: the slots vote for the original entry, with its mark, and are refused. */
  lemma MarksLostArises()
    ensures var start := ProgramScrubber.State(SameEntries(), 0, {});
            var first, second := ProgramScrubber.Upset(0, MARK_AT, 0), ProgramScrubber.Upset(1, MARK_AT, 1);
            var events := [ProgramScrubber.Flip(first), ProgramScrubber.Flip(second)];
            && (forall e | e in events :: ProgramScrubber.Possible(e))
            && (var s := ProgramScrubber.Run(start, events, [0, 1, 2]);
                && ProgramScrubber.Tolerable(s, [0, 1, 2]) && ProgramScrubber.Image(s.mem, [0, 1, 2]) == Entry()
                && !Boot.Bootable(DEFAULT_SLOTS, Marks(s.mem)))
  {
    var start := ProgramScrubber.State(SameEntries(), 0, {});
    var slots := [0, 1, 2];
    var first, second := ProgramScrubber.Upset(0, MARK_AT, 0), ProgramScrubber.Upset(1, MARK_AT, 1);
    var events := [ProgramScrubber.Flip(first), ProgramScrubber.Flip(second)];
    var mem := SameEntries()[MARK_AT := FlipByte(0xAA, 0)][ENTRY_SIZE + MARK_AT := FlipByte(0xAA, 1)];
    TwoFlips(start, events, slots, first, second);
    EntriesIntact(start);
    ProgramScrubber.ImageSurvives(start, events, slots, Entry());
    MarksLost(SameEntries()[MARK_AT := FlipByte(0xAA, 0)][ENTRY_SIZE + MARK_AT := FlipByte(0xAA, 1)]);
    hide *;
  }

  lemma TwoFlips(start: ProgramScrubber.State, events: seq<ProgramScrubber.Event>, slots: seq<nat>,
                 first: ProgramScrubber.Upset, second: ProgramScrubber.Upset)
    requires start == ProgramScrubber.State(SameEntries(), 0, {}) && slots == [0, 1, 2]
    requires first == ProgramScrubber.Upset(0, MARK_AT, 0) && second == ProgramScrubber.Upset(1, MARK_AT, 1)
    requires events == [ProgramScrubber.Flip(first), ProgramScrubber.Flip(second)]
    ensures forall e | e in events :: ProgramScrubber.Possible(e)
    ensures ProgramScrubber.Run(start, events, slots).mem
         == SameEntries()[MARK_AT := FlipByte(0xAA, 0)][ENTRY_SIZE + MARK_AT := FlipByte(0xAA, 1)]
    ensures forall k | 0 <= k <= 2 :: ProgramScrubber.Tolerable(ProgramScrubber.Run(start, events[..k], slots), slots)
    ensures events[..2] == events
  {
    hide FlipByte;
    assert events[..1] == [events[0]] && events[..1][..0] == [] && events[..0] == [] && events[..2] == events;
    assert ProgramScrubber.Run(start, events[..0], slots) == start;
    assert ProgramScrubber.Run(start, events[..1], slots) == ProgramScrubber.Step(start, events[0], slots);
    assert (ENTRY_SIZE + MARK_AT) % ENTRY_SIZE == MARK_AT;
  }

  lemma EntriesIntact(start: ProgramScrubber.State)
    requires start == ProgramScrubber.State(SameEntries(), 0, {})
    ensures ProgramScrubber.WellFormed(start) && ProgramScrubber.Distinct([0, 1, 2])
    ensures ProgramScrubber.AllIntact(start, [0, 1, 2], Entry())
  {
    SameEntry(0);
    SameEntry(1);
    SameEntry(2);
    hide Entry, SameEntries, ProgramScrubber.Slot, Bit;
  }

  lemma SameEntry(i: nat)
    requires i < ENTRIES
    ensures ProgramScrubber.Slot(SameEntries(), i) == Entry()
  {
    forall k | 0 <= k < ENTRY_SIZE ensures ProgramScrubber.Slot(SameEntries(), i)[k] == Entry()[k] {
      assert (i * ENTRY_SIZE + k) % ENTRY_SIZE == k;
    }
  }

  lemma MarksLost(mem: seq<byte>)
    requires mem == SameEntries()[MARK_AT := FlipByte(0xAA, 0)][ENTRY_SIZE + MARK_AT := FlipByte(0xAA, 1)]
    ensures !Boot.Bootable(DEFAULT_SLOTS, Marks(mem))
  {
    FlippedWord(0xAA, 0, 0);
    FlippedWord(0xAA, 1, 1);
    assert Named(DEFAULT_SLOTS, 6) == [0, 1, 2];
    hide FlipWord, SameEntries, Bit, Named, PopCount;
    assert FirstThree(Named(DEFAULT_SLOTS, 6)) == [0, 1, 2];
    assert !Marks(mem)[0] && !Marks(mem)[1];
  }
}
