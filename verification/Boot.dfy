/** Choosing and loading what to boot (boot/boot.cpp). */
module Boot {
  import opened Words
  import opened Redundancy
  import opened Flash
  import opened BootTable
  import opened BootSettings

  const PAGE_SIZE := 4096
  const APPLICATION_BASE := 0x80000
  const SAFE_MODE_BASE := 0x12000000
  const ATTEMPTS := 10
  /** The greatest program length a 32-bit offset that moves on by pages can reach. */
  const LAST_LENGTH := 0xFFFFF000

  datatype Reason =
    PrimaryBootSlots | BootNotConfirmed | BootToUpper | InvalidPrimaryBootSlots | InvalidFailsafeBootSlots | CounterExpired

  // ---------- Decisions ----------

  /** Boots since the last confirmed one, as an unsigned difference. */
  function Unconfirmed(s: Stored): nat {
    (s.counter - s.lastConfirmed) % WORD_LIMIT
  }

  /** Three slots are named and most of them are marked valid. */
  predicate Bootable(mask: byte, marks: seq<bool>)
    requires |marks| == ENTRIES
  {
    SlotsNamed(mask);
    var slots := FirstThree(Named(mask, ENTRIES));
    PopCount(mask) == 3 && Ones3(marks[slots[0]], marks[slots[1]], marks[slots[2]]) >= 2
  }

  predicate GivesUp(s: Stored) {
    s.slots != SAFE_MODE && s.slots != UPPER && Unconfirmed(s) >= ATTEMPTS
  }

  /** The slots after a look at the boots that were not confirmed. */
  function Resolved(s: Stored): byte {
    if !GivesUp(s) then s.slots else if s.failsafe != s.slots then s.failsafe else SAFE_MODE
  }

  datatype Outcome = Outcome(stored: Stored, booted: byte, reason: Reason)

  /** What is booted from the stored settings and which settings are left. */
  function Booted(s: Stored, marks: seq<bool>): Outcome
    requires |marks| == ENTRIES
  {
    var reason := if GivesUp(s) then BootNotConfirmed else PrimaryBootSlots;
    var slots := Resolved(s);
    var t := s.(slots := slots);
    var counted := t.(counter := (s.counter + 1) % WORD_LIMIT);
    if s.magic != MAGIC then Outcome(s, SAFE_MODE, PrimaryBootSlots)
    else if slots == SAFE_MODE then Outcome(t, SAFE_MODE, reason)
    else if slots == UPPER then Outcome(counted, UPPER, BootToUpper)
    else if !Bootable(slots, marks) then
      if Bootable(s.failsafe, marks) then Outcome(t.(slots := s.failsafe), s.failsafe, InvalidPrimaryBootSlots)
      else Outcome(t.(slots := SAFE_MODE), SAFE_MODE, InvalidFailsafeBootSlots)
    else if s.counter >= COUNTER_TOP then Outcome(t.(slots := SAFE_MODE), SAFE_MODE, CounterExpired)
    else Outcome(counted, slots, reason)
  }

  /** Only safe mode, upper or bootable slots are booted, and they are the ones stored. */
  lemma BootsWhatIsStored(s: Stored, marks: seq<bool>)
    requires |marks| == ENTRIES
    ensures var o := Booted(s, marks);
            && o.booted != SAFE_MODE && o.booted != UPPER ==> Bootable(o.booted, marks)
    ensures s.magic == MAGIC ==> Booted(s, marks).stored.slots == Booted(s, marks).booted
    ensures s.magic != MAGIC ==> Booted(s, marks).booted == SAFE_MODE && Booted(s, marks).stored == s
  {
    SpecialMasks(marks);
  }

  /**
    * Primary slots that are not bootable give way to the failsafe ones, which are stored and booted when they are
    * bootable; only otherwise is it safe mode. The boot is not counted.
    */
  lemma FallsBack(s: Stored, marks: seq<bool>)
    requires |marks| == ENTRIES && s.magic == MAGIC && Unconfirmed(s) < 10
    requires s.slots != SAFE_MODE && s.slots != UPPER && !Bootable(s.slots, marks)
    ensures var o := Booted(s, marks);
            && o.booted == (if Bootable(s.failsafe, marks) then s.failsafe else SAFE_MODE) && o.stored == s.(slots := o.booted)
            && o.reason == if Bootable(s.failsafe, marks) then InvalidPrimaryBootSlots else InvalidFailsafeBootSlots
  {
    hide Bootable;
  }

  /** Slots are bootable when exactly three bits of the mask are set and at least two of the slots they name are marked. */
  lemma BootableMeans(mask: byte, marks: seq<bool>)
    requires |marks| == ENTRIES
    ensures var slots := FirstThree(Named(mask, ENTRIES));
            && Slots(slots)
            && (Bootable(mask, marks) <==>
                  && |Named(mask, 8)| == 3
                  && ((marks[slots[0]] && marks[slots[1]]) || (marks[slots[1]] && marks[slots[2]]) || (marks[slots[0]] && marks[slots[2]])))
  {
    SlotsNamed(mask);
    hide Named, FirstThree;
  }

  /** Without the magic number, and with safe mode stored, safe mode is booted and nothing changes. */
  lemma SafeModeBoots(s: Stored, marks: seq<bool>)
    requires |marks| == ENTRIES && (s.magic != MAGIC || s.slots == SAFE_MODE)
    ensures Booted(s, marks) == Outcome(s, SAFE_MODE, PrimaryBootSlots)
  {
  }

  /** The upper slot is booted whatever its marks, and the boot is counted. */
  lemma UpperBoots(s: Stored, marks: seq<bool>)
    requires |marks| == ENTRIES && s.magic == MAGIC && s.slots == UPPER
    ensures Booted(s, marks) == Outcome(s.(counter := (s.counter + 1) % WORD_LIMIT), UPPER, BootToUpper)
  {
  }

  /**
    * After ten boots that were not confirmed the failsafe slots are taken, if they differ, and boot as they would with
    * fewer unconfirmed boots; if they do not differ it is safe mode.
    */
  lemma TenUnconfirmed(s: Stored, marks: seq<bool>)
    requires |marks| == ENTRIES && s.magic == MAGIC && Unconfirmed(s) >= 10 && s.slots != SAFE_MODE && s.slots != UPPER
    ensures var o := Booted(s, marks);
            if s.failsafe == s.slots || s.failsafe == SAFE_MODE then o == Outcome(s.(slots := SAFE_MODE), SAFE_MODE, BootNotConfirmed)
            else if s.failsafe == UPPER then
              o == Outcome(s.(slots := UPPER, counter := (s.counter + 1) % WORD_LIMIT), UPPER, BootToUpper)
            else if !Bootable(s.failsafe, marks) then o == Outcome(s.(slots := SAFE_MODE), SAFE_MODE, InvalidFailsafeBootSlots)
            else if s.counter >= COUNTER_TOP then o == Outcome(s.(slots := SAFE_MODE), SAFE_MODE, CounterExpired)
            else o == Outcome(s.(slots := s.failsafe, counter := (s.counter + 1) % WORD_LIMIT), s.failsafe, BootNotConfirmed)
  {
    hide Bootable;
  }

  /** The failsafe slots 3, 4 and 5 are booted when only they are marked. */
  lemma FailsafeArises()
    ensures Booted(Stored(MAGIC, 7, 56, 0, 0), [false, false, false, true, true, true])
         == Outcome(Stored(MAGIC, 56, 56, 0, 0), 56, InvalidPrimaryBootSlots)
  {
    var marks := [false, false, false, true, true, true];
    assert Named(7, 6) == [0, 1, 2] && Named(7, 8) == [0, 1, 2];
    assert Named(56, 6) == [3, 4, 5] && Named(56, 8) == [3, 4, 5];
    assert !Bootable(7, marks) && Bootable(56, marks);
    FallsBack(Stored(MAGIC, 7, 56, 0, 0), marks);
    hide *;
  }

  lemma SpecialMasks(marks: seq<bool>)
    requires |marks| == ENTRIES
    ensures !Bootable(SAFE_MODE, marks) && !Bootable(UPPER, marks)
  {
    assert PopCount(SAFE_MODE) == 1 && PopCount(UPPER) == 1;
  }

  /** The six slot bits and the two bits above them are counted apart. */
  lemma CountedApart(mask: byte)
    ensures PopCount(mask) == PopCount(mask % 64) + mask / 64 % 2 + mask / 128
  {
    hide Named;
    LowBits(mask, 6);
    UpperNamed(mask);
    UpperNamed(mask % 64);
    assert mask % 64 / 64 % 2 == 0 && mask % 64 / 128 == 0;
    assert Named(mask % 64, 8) == Named(mask % 64, 6);
  }

  lemma UpperNamed(mask: byte)
    ensures Named(mask, 8) == Named(mask, 6) + (if mask / 64 % 2 == 1 then [6] else []) + if mask / 128 == 1 then [7] else []
  {
    TopBits(mask);
    assert Named(mask, 7) == Named(mask, 6) + if Bit(mask, 6) then [6] else [];
    hide Bit;
    assert Named(mask, 8) == Named(mask, 7) + if Bit(mask, 7) then [7] else [];
  }

  /**
    * Masks accepted when they are set and masks that may boot differ exactly in how the two upper bits count: the checks
    * agree if none of these is set, or if the slot bits make three neither alone nor together with them.
    */
  lemma MaskChecksAgree(mask: byte)
    requires mask != SAFE_MODE && mask != UPPER
    ensures var low, up := PopCount(mask % 64), mask / 64 % 2 + mask / 128;
            (IsValidBootSlot(mask) <==> PopCount(mask) == 3) <==> up == 0 || (low != 3 && low + up != 3)
  {
    hide PopCount;
    CountedApart(mask);
  }

  /** A mask that may be set and never boots, and one that is refused and could boot. */
  lemma MaskChecksDiffer()
    ensures IsValidBootSlot(0x47) && PopCount(0x47) == 4 && forall marks | |marks| == ENTRIES :: !Bootable(0x47, marks)
    ensures !IsValidBootSlot(0x43) && Bootable(0x43, seq(ENTRIES, i => true))
  {
    assert Named(0x47, 8) == [0, 1, 2, 6];
    assert Named(0x43, 6) == [0, 1] && Named(0x43, 8) == [0, 1, 6] && Named(3, 8) == [0, 1];
  }

  lemma TopBits(mask: byte)
    ensures Bit(mask, 6) == (mask / 64 % 2 == 1) && Bit(mask, 7) == (mask / 128 == 1)
  {
    assert mask / 64 == mask / 2 / 2 / 2 / 2 / 2 / 2;
    assert mask / 128 == mask / 64 / 2;
    assert Bit(mask, 6) == Bit(mask / 2, 5) == Bit(mask / 2 / 2, 4) == Bit(mask / 2 / 2 / 2, 3);
    assert Bit(mask / 2 / 2 / 2, 3) == Bit(mask / 2 / 2 / 2 / 2, 2) == Bit(mask / 2 / 2 / 2 / 2 / 2, 1);
    assert Bit(mask, 7) == Bit(mask / 2, 6) == Bit(mask / 2 / 2, 5) == Bit(mask / 2 / 2 / 2, 4);
    assert Bit(mask / 2 / 2 / 2, 4) == Bit(mask / 2 / 2 / 2 / 2, 3) == Bit(mask / 2 / 2 / 2 / 2 / 2, 2);
  }

  lemma {:induction false} LowBits(mask: byte, n: nat)
    requires n <= 6
    ensures Named(mask % 64, n) == Named(mask, n)
  {
    if n == 0 {
    } else {
      LowBits(mask, n - 1);
      Pow2Values();
      assert Pow2(6) == 64;
      LowByteBits(mask, n - 1, 6);
    }
  }

  // ---------- Runs of boots that are not confirmed ----------

  /** The settings after `n` boots none of which is confirmed; the marks may differ from boot to boot. */
  function After(s: Stored, marks: seq<seq<bool>>, n: nat): Stored
    requires n <= |marks| && forall m | m in marks :: |m| == ENTRIES
  {
    if n == 0 then s else Booted(After(s, marks, n - 1), marks[n - 1]).stored
  }

  predicate BootsSafe(s: Stored, marks: seq<seq<bool>>, n: nat)
    requires n < |marks| && forall m | m in marks :: |m| == ENTRIES
  {
    Booted(After(s, marks, n), marks[n]).booted == SAFE_MODE
  }

  /** Within this many boots safe mode is booted. */
  function Bound(s: Stored): nat {
    if Unconfirmed(s) >= ATTEMPTS then 2 else ATTEMPTS - Unconfirmed(s) + 2
  }

  /** The stored counter runs one behind the last confirmed one and both of the next boots count. */
  predicate Escapes(s: Stored, first: seq<bool>, second: seq<bool>)
    requires |first| == |second| == ENTRIES
  {
    && Unconfirmed(s) == WORD_LIMIT - 1
    && s.slots != SAFE_MODE && s.failsafe != s.slots && s.failsafe != SAFE_MODE
    && s.counter + 1 < COUNTER_TOP && Bootable(s.failsafe, first) && Bootable(s.failsafe, second)
  }

  ghost predicate Tracked(s: Stored) {
    && s.magic == MAGIC && s.slots != UPPER && s.failsafe != UPPER
    && s.counter < WORD_LIMIT && s.lastConfirmed < WORD_LIMIT
  }

  /** How many boots are left, the one into safe mode included. */
  function Left(s: Stored): nat {
    if s.slots == SAFE_MODE then 1
    else (if s.slots == s.failsafe then 1 else 2) + if Unconfirmed(s) >= ATTEMPTS then 0 else ATTEMPTS - Unconfirmed(s)
  }

  /** A boot that does not reach safe mode leaves fewer boots, unless the difference of the counters wraps to 0. */
  lemma BootApproaches(s: Stored, marks: seq<bool>)
    requires |marks| == ENTRIES && Tracked(s)
    ensures var o := Booted(s, marks);
            Tracked(o.stored)
            && (o.booted == SAFE_MODE
                || Left(o.stored) < Left(s)
                || (Unconfirmed(s) == WORD_LIMIT - 1 && Unconfirmed(o.stored) == 0))
    ensures Left(s) == 1 ==> Booted(s, marks).booted == SAFE_MODE || Unconfirmed(s) == WORD_LIMIT - 1
  {
    hide Bootable;
    SpecialMasks(marks);
    CountedOnce(s);
  }

  lemma CountedOnce(s: Stored)
    requires s.counter < WORD_LIMIT && s.lastConfirmed < WORD_LIMIT
    ensures Unconfirmed(s.(counter := (s.counter + 1) % WORD_LIMIT)) == (Unconfirmed(s) + 1) % WORD_LIMIT
  {
  }

  lemma {:induction false} RecoversFrom(s: Stored, marks: seq<seq<bool>>) returns (n: nat)
    requires Tracked(s) && Left(s) <= |marks| && (forall m | m in marks :: |m| == ENTRIES)
    requires Unconfirmed(s) <= ATTEMPTS || (Unconfirmed(s) < WORD_LIMIT - 1 || s.slots == s.failsafe || s.slots == SAFE_MODE)
    ensures n < Left(s) && BootsSafe(s, marks, n)
    decreases Left(s)
  {
    hide Bootable;
    assert marks[0] in marks;
    BootApproaches(s, marks[0]);
    if Booted(s, marks[0]).booted == SAFE_MODE {
      n := 0;
    } else {
      var t := Booted(s, marks[0]).stored;
      CountedOnce(s);
      n := RecoversFrom(t, marks[1..]);
      AfterShifts(s, marks, n);
      n := n + 1;
    }
  }

  lemma {:induction false} AfterShifts(s: Stored, marks: seq<seq<bool>>, n: nat)
    requires n < |marks| && forall m | m in marks :: |m| == ENTRIES
    ensures marks[0] in marks && forall m | m in marks[1..] :: |m| == ENTRIES
    ensures After(s, marks, n + 1) == After(Booted(s, marks[0]).stored, marks[1..], n)
  {
    if n == 0 {
    } else {
      AfterShifts(s, marks, n - 1);
    }
  }

  /**
    * Unconfirmed boots reach safe mode within ten attempts and two more, whatever happens to the marks on the way,
    * exactly when the unsigned difference of the counters does not wrap to 0 on the first of them.
    */
  lemma BoundedRecovery(s: Stored, marks: seq<seq<bool>>)
    requires Tracked(s) && Bound(s) <= |marks| && forall m | m in marks :: |m| == ENTRIES
    ensures marks[0] in marks && marks[1] in marks
    ensures (exists n: nat | n < Bound(s) :: BootsSafe(s, marks, n)) <==> !Escapes(s, marks[0], marks[1])
  {
    hide Bootable;
    assert marks[0] in marks && marks[1] in marks;
    SpecialMasks(marks[0]);
    CountedOnce(s);
    var t := Booted(s, marks[0]).stored;
    assert After(s, marks, 0) == s && After(s, marks, 1) == t;
    if Escapes(s, marks[0], marks[1]) {
      assert !BootsSafe(s, marks, 0);
      assert !BootsSafe(s, marks, 1);
    } else if Unconfirmed(s) < WORD_LIMIT - 1 || s.slots == s.failsafe || s.slots == SAFE_MODE {
      var n := RecoversFrom(s, marks);
      assert BootsSafe(s, marks, n);
    } else {
      assert BootsSafe(s, marks, 0) || BootsSafe(s, marks, 1);
    }
  }

  /** Settings that do not reach safe mode in the two boots that the difference of their counters promises. */
  lemma EscapeArises()
    ensures var s := Stored(MAGIC, DEFAULT_SLOTS, DEFAULT_FAILSAFE, 4, 5);
            var marks := [true, true, true, true, true, true];
            Tracked(s) && Bound(s) == 2 && Escapes(s, marks, marks)
  {
    assert Named(DEFAULT_FAILSAFE, 8) == [3, 4, 5];
  }

  /** Twelve unconfirmed boots reach safe mode from any tracked settings, the escape included. */
  lemma TwelveBootsSuffice(s: Stored, marks: seq<seq<bool>>) returns (n: nat)
    requires Tracked(s) && |marks| >= ATTEMPTS + 2 && forall m | m in marks :: |m| == ENTRIES
    ensures n < ATTEMPTS + 2 && BootsSafe(s, marks, n)
  {
    hide Bootable;
    assert marks[0] in marks;
    if Unconfirmed(s) < WORD_LIMIT - 1 || s.slots == s.failsafe || s.slots == SAFE_MODE {
      n := RecoversFrom(s, marks);
    } else {
      BootApproaches(s, marks[0]);
      CountedOnce(s);
      assert After(s, marks, 0) == s;
      if Booted(s, marks[0]).booted == SAFE_MODE {
        n := 0;
      } else {
        n := RecoversFrom(Booted(s, marks[0]).stored, marks[1..]);
        AfterShifts(s, marks, n);
        n := n + 1;
      }
    }
  }

  /** Stored safe mode stays stored and is booted every time. */
  lemma {:induction false} SafeModeAbsorbs(s: Stored, marks: seq<seq<bool>>, n: nat)
    requires s.magic == MAGIC && s.slots == SAFE_MODE && n < |marks| && forall m | m in marks :: |m| == ENTRIES
    ensures After(s, marks, n) == s && BootsSafe(s, marks, n)
  {
    if n == 0 {
    } else {
      SafeModeAbsorbs(s, marks, n - 1);
    }
  }

  // ---------- Runs of confirmed boots ----------

  function Confirmed(s: Stored): Stored {
    s.(lastConfirmed := if s.magic == MAGIC then s.counter else DEFAULT_COUNTER)
  }

  /** The settings after `n` boots each of which is confirmed before the next. */
  function AfterConfirmed(s: Stored, marks: seq<seq<bool>>, n: nat): Stored
    requires n <= |marks| && forall m | m in marks :: |m| == ENTRIES
  {
    if n == 0 then s else Confirmed(Booted(AfterConfirmed(s, marks, n - 1), marks[n - 1]).stored)
  }

  /** Confirmed boots from valid slots boot the same slots until the counter reaches its top, and then safe mode. */
  lemma {:induction false} ConfirmedBootsKeepSlots(s: Stored, marks: seq<seq<bool>>, n: nat)
    requires Tracked(s) && s.slots != SAFE_MODE && Unconfirmed(s) < ATTEMPTS && s.counter + n <= COUNTER_TOP
    requires n < |marks| && forall m | m in marks :: |m| == ENTRIES && Bootable(s.slots, m)
    ensures AfterConfirmed(s, marks, n)
         == if n == 0 then s else s.(counter := s.counter + n, lastConfirmed := s.counter + n)
    ensures Booted(AfterConfirmed(s, marks, n), marks[n])
         == if s.counter + n < COUNTER_TOP
            then Outcome(AfterConfirmed(s, marks, n).(counter := s.counter + n + 1), s.slots, PrimaryBootSlots)
            else Outcome(AfterConfirmed(s, marks, n).(slots := SAFE_MODE), SAFE_MODE, CounterExpired)
  {
    assert marks[n] in marks && (n > 0 ==> marks[n - 1] in marks);
    hide Bootable, Booted, Unconfirmed;
    if n == 0 {
      BootsOn(s, marks[0]);
    } else {
      ConfirmedBootsKeepSlots(s, marks, n - 1);
      JustConfirmed(AfterConfirmed(s, marks, n));
      BootsOn(AfterConfirmed(s, marks, n), marks[n]);
    }
  }

  lemma JustConfirmed(s: Stored)
    requires s.lastConfirmed == s.counter
    ensures Unconfirmed(s) == 0
  {
  }

  /** A boot with few unconfirmed ones before it and valid slots. */
  lemma BootsOn(s: Stored, marks: seq<bool>)
    requires |marks| == ENTRIES && Bootable(s.slots, marks) && s.magic == MAGIC && s.slots != SAFE_MODE && s.slots != UPPER
    requires Unconfirmed(s) < ATTEMPTS && s.counter <= COUNTER_TOP
    ensures Booted(s, marks) == if s.counter < COUNTER_TOP then Outcome(s.(counter := s.counter + 1), s.slots, PrimaryBootSlots)
                                else Outcome(s.(slots := SAFE_MODE), SAFE_MODE, CounterExpired)
  {
    hide Bootable;
  }

  // ---------- The bootloader ----------

  /** The voted length of the program in three slots. */
  function ProgramLength(mem: seq<byte>, slots: seq<nat>): (length: nat)
    requires Slots(slots) && ENTRIES * ENTRY_SIZE <= |mem|
    ensures length < WORD_LIMIT
  {
    var l0 := ReadDoubleWordLE(mem, slots[0] * ENTRY_SIZE);
    var l1 := ReadDoubleWordLE(mem, slots[1] * ENTRY_SIZE);
    var l2 := ReadDoubleWordLE(mem, slots[2] * ENTRY_SIZE);
    Pow2Values();
    Correct3Below(l0, l1, l2, 32);
    Correct3(l0, l1, l2)
  }

  function Pages(length: nat): nat {
    (length + PAGE_SIZE - 1) / PAGE_SIZE
  }

  /** The pages hold the length and are no more than needed. */
  lemma PagesHold(length: nat)
    ensures length <= Pages(length) * PAGE_SIZE < length + PAGE_SIZE
  {
  }

  /** The external flash at `at`; `beyond` are the bytes read past its end. */
  function External(mem: seq<byte>, beyond: nat -> byte, at: nat): byte {
    if at < |mem| then mem[at] else beyond(at)
  }

  /** Byte `k` of the program three slots vote for. */
  function VotedByte(mem: seq<byte>, beyond: nat -> byte, slots: seq<nat>, k: nat): byte
    requires Slots(slots)
  {
    VotedByte3(External(mem, beyond, slots[0] * ENTRY_SIZE + CONTENT_AT + k),
               External(mem, beyond, slots[1] * ENTRY_SIZE + CONTENT_AT + k),
               External(mem, beyond, slots[2] * ENTRY_SIZE + CONTENT_AT + k))
  }

  function Page(mem: seq<byte>, beyond: nat -> byte, slot: nat, offset: nat): (p: seq<byte>)
    ensures |p| == PAGE_SIZE
  {
    seq<byte>(PAGE_SIZE, i requires 0 <= i => External(mem, beyond, slot * ENTRY_SIZE + CONTENT_AT + offset + i))
  }

  function VotedPage(mem: seq<byte>, beyond: nat -> byte, slots: seq<nat>, offset: nat): (p: seq<byte>)
    requires Slots(slots)
    ensures |p| == PAGE_SIZE
  {
    Voted3(Page(mem, beyond, slots[0], offset), Page(mem, beyond, slots[1], offset), Page(mem, beyond, slots[2], offset))
  }

  lemma PageVoted(mem: seq<byte>, beyond: nat -> byte, slots: seq<nat>, offset: nat, k: nat)
    requires Slots(slots) && offset <= k < offset + PAGE_SIZE
    ensures VotedPage(mem, beyond, slots, offset)[k - offset] == VotedByte(mem, beyond, slots, k)
  {
    hide VotedByte3, External;
  }

  /** Which byte of the program goes to address `p`: addresses have 32 bits. */
  function Loads(p: nat): nat {
    (p - APPLICATION_BASE) % WORD_LIMIT
  }

  /** The first `size` bytes of the voted program are loaded, as far as they belong to the internal flash; the rest is as it was. */
  ghost predicate Loaded(mem: seq<byte>, beyond: nat -> byte, slots: seq<nat>, size: nat, was: seq<byte>, now: seq<byte>)
    requires Slots(slots)
  {
    |now| == |was| && forall p | 0 <= p < |now| :: now[p] == if Loads(p) < size then VotedByte(mem, beyond, slots, Loads(p)) else was[p]
  }

  lemma LoadsInPlace(p: nat, size: nat)
    requires p < WORD_LIMIT && APPLICATION_BASE + size <= WORD_LIMIT
    ensures if APPLICATION_BASE <= p < APPLICATION_BASE + size then Loads(p) == p - APPLICATION_BASE else Loads(p) >= size
  {
  }

  /** A program that stays below the top of the address space lies at the base of the application, and nothing else changes. */
  lemma ProgramInPlace(mem: seq<byte>, beyond: nat -> byte, slots: seq<nat>, size: nat, was: seq<byte>, now: seq<byte>)
    requires Slots(slots) && Loaded(mem, beyond, slots, size, was, now)
    requires APPLICATION_BASE + size <= WORD_LIMIT && |now| <= WORD_LIMIT
    ensures forall p | 0 <= p < |now| ::
              now[p] == if APPLICATION_BASE <= p < APPLICATION_BASE + size
                        then VotedByte(mem, beyond, slots, p - APPLICATION_BASE) else was[p]
  {
    hide VotedByte, Loads;
    forall p | 0 <= p < |now|
      ensures now[p] == if APPLICATION_BASE <= p < APPLICATION_BASE + size
                        then VotedByte(mem, beyond, slots, p - APPLICATION_BASE) else was[p]
    {
      LoadsInPlace(p, size);
    }
  }

  /** A page goes to consecutive addresses, which lie within the internal flash or past it. */
  lemma PageAddresses(offset: nat, length: nat, p: nat)
    requires offset % PAGE_SIZE == length % PAGE_SIZE == 0 && offset < WORD_LIMIT && p < length <= WORD_LIMIT
    ensures var ptr := (APPLICATION_BASE + offset) % WORD_LIMIT;
            && (ptr <= p < ptr + PAGE_SIZE <==> offset <= Loads(p) < offset + PAGE_SIZE)
            && (ptr <= p < ptr + PAGE_SIZE ==> ptr + PAGE_SIZE <= length && Loads(p) - offset == p - ptr)
  {
    var ptr := (APPLICATION_BASE + offset) % WORD_LIMIT;
    assert ptr % PAGE_SIZE == 0;
    if ptr <= p < ptr + PAGE_SIZE {
      assert p / PAGE_SIZE == ptr / PAGE_SIZE;
    }
  }

  /** One more page is loaded. */
  lemma OnePageMore(mem: seq<byte>, beyond: nat -> byte, slots: seq<nat>, offset: nat, was: seq<byte>, now: seq<byte>, next: seq<byte>)
    requires Slots(slots) && offset % PAGE_SIZE == |now| % PAGE_SIZE == 0 && offset < WORD_LIMIT && |now| <= WORD_LIMIT
    requires Loaded(mem, beyond, slots, offset, was, now) && |next| == |now|
    requires var ptr := (APPLICATION_BASE + offset) % WORD_LIMIT;
             && (forall p | 0 <= p < |now| && !(ptr <= p < ptr + PAGE_SIZE) :: next[p] == now[p])
             && (ptr + PAGE_SIZE <= |now| ==> next[ptr..ptr + PAGE_SIZE] == VotedPage(mem, beyond, slots, offset))
    ensures Loaded(mem, beyond, slots, offset + PAGE_SIZE, was, next)
  {
    hide VotedByte, VotedPage, Loads;
    var ptr := (APPLICATION_BASE + offset) % WORD_LIMIT;
    forall p | 0 <= p < |next|
      ensures next[p] == if Loads(p) < offset + PAGE_SIZE then VotedByte(mem, beyond, slots, Loads(p)) else was[p]
    {
      PageAddresses(offset, |now|, p);
      if ptr <= p < ptr + PAGE_SIZE {
        assert next[p] == next[ptr..ptr + PAGE_SIZE][p - ptr];
        PageVoted(mem, beyond, slots, offset, Loads(p));
      }
    }
  }

  /** The loop visits exactly the pages of the program. */
  lemma PagesLeft(offset: nat, length: nat)
    requires offset % PAGE_SIZE == 0 && offset < length <= WORD_LIMIT
    ensures offset + PAGE_SIZE <= Pages(length) * PAGE_SIZE <= WORD_LIMIT
    ensures offset + PAGE_SIZE >= length ==> offset + PAGE_SIZE == Pages(length) * PAGE_SIZE
  {
  }

  /** The offset at turn `k` of the loop, in 32 bits. */
  function OffsetAt(k: nat): (offset: nat)
    ensures offset < WORD_LIMIT
  {
    k * PAGE_SIZE % WORD_LIMIT
  }

  /** At every turn of the loop the offset is below the length. */
  ghost predicate GuardNeverFails(length: nat) {
    forall k: nat :: OffsetAt(k) < length
  }

  /** The loop never ends exactly for lengths above the greatest offset. */
  lemma EndlessExactly(length: nat)
    ensures GuardNeverFails(length) <==> length > LAST_LENGTH
  {
    if length > LAST_LENGTH {
      forall k: nat ensures OffsetAt(k) < length { OffsetsAreAligned(k); }
    } else {
      assert OffsetAt(0xFFFFF) == LAST_LENGTH;
    }
  }

  lemma OffsetsAreAligned(k: nat)
    ensures OffsetAt(k) % PAGE_SIZE == 0 && OffsetAt(k) <= LAST_LENGTH
  {
    var q, r := k * PAGE_SIZE / WORD_LIMIT, k * PAGE_SIZE % WORD_LIMIT;
    assert r == k * PAGE_SIZE - q * WORD_LIMIT == (k - q * 0x100000) * PAGE_SIZE;
    assert r % PAGE_SIZE == 0;
  }

  /** After a whole round every page is found right, so an endless loop writes nothing more. */
  lemma LaterRoundsWriteNothing(mem: seq<byte>, beyond: nat -> byte, slots: seq<nat>, was: seq<byte>, now: seq<byte>, k: nat)
    requires Slots(slots) && Loaded(mem, beyond, slots, WORD_LIMIT, was, now)
    requires |now| % PAGE_SIZE == 0 && |now| <= WORD_LIMIT
    ensures var ptr := (APPLICATION_BASE + OffsetAt(k)) % WORD_LIMIT;
            ptr + PAGE_SIZE <= |now| ==> now[ptr..ptr + PAGE_SIZE] == VotedPage(mem, beyond, slots, OffsetAt(k))
  {
    hide OffsetAt, VotedByte, VotedPage;
    var offset := OffsetAt(k);
    var ptr := (APPLICATION_BASE + offset) % WORD_LIMIT;
    OffsetsAreAligned(k);
    if ptr + PAGE_SIZE <= |now| {
      forall p | ptr <= p < ptr + PAGE_SIZE ensures now[p] == VotedPage(mem, beyond, slots, offset)[p - ptr] {
        PageAddresses(offset, |now|, p);
        PageVoted(mem, beyond, slots, offset, Loads(p));
      }
    }
  }

  /** Entries in which everything is erased but the mark of a valid program: the length was never programmed. */
  function Unmeasured(): (mem: seq<byte>)
    ensures |mem| == ENTRIES * ENTRY_SIZE
  {
    seq<byte>(ENTRIES * ENTRY_SIZE, p => if p % ENTRY_SIZE == MARK_AT then 0xAA else 0xFF)
  }

  /** Such entries are chosen for booting, and loading them never ends. */
  lemma EndlessLoadArises()
    ensures var mem := Unmeasured();
            && FirstThree(Named(DEFAULT_SLOTS, ENTRIES)) == [0, 1, 2]
            && ProgramLength(mem, [0, 1, 2]) > LAST_LENGTH && GuardNeverFails(ProgramLength(mem, [0, 1, 2]))
            && Booted(Stored(MAGIC, DEFAULT_SLOTS, DEFAULT_FAILSAFE, 0, 0), Marks(mem)).booted == DEFAULT_SLOTS
  {
    hide Named, FirstThree, Unmeasured, ProgramLength, GuardNeverFails, Bootable, Booted, Marks;
    UnmeasuredLength();
    UnmeasuredBootable();
    EndlessExactly(ProgramLength(Unmeasured(), [0, 1, 2]));
    FreshSettings(Marks(Unmeasured()));
  }

  lemma FreshSettings(marks: seq<bool>)
    requires |marks| == ENTRIES && Bootable(DEFAULT_SLOTS, marks)
    ensures Booted(Stored(MAGIC, DEFAULT_SLOTS, DEFAULT_FAILSAFE, 0, 0), marks).booted == DEFAULT_SLOTS
  {
    hide Bootable;
  }

  lemma UnmeasuredLength()
    ensures ProgramLength(Unmeasured(), [0, 1, 2]) == 0xFFFFFFFF
  {
    hide Correct3, Unmeasured, Word;
    ErasedLength(0);
    ErasedLength(1);
    ErasedLength(2);
    WordsAgree(0xFFFFFFFF);
  }

  lemma UnmeasuredBootable()
    ensures FirstThree(Named(DEFAULT_SLOTS, ENTRIES)) == [0, 1, 2] && Bootable(DEFAULT_SLOTS, Marks(Unmeasured()))
  {
    hide Unmeasured;
    ErasedLength(0);
    ErasedLength(1);
    ErasedLength(2);
    assert Named(DEFAULT_SLOTS, 6) == [0, 1, 2] && Named(DEFAULT_SLOTS, 8) == [0, 1, 2];
  }

  lemma ErasedLength(i: nat)
    requires i < ENTRIES
    ensures MarkedValid(Unmeasured(), i) && ReadDoubleWordLE(Unmeasured(), i * ENTRY_SIZE) == 0xFFFFFFFF
  {
    var mem := Unmeasured();
    EntryByte(i, 0);
    EntryByte(i, 1);
    EntryByte(i, 2);
    EntryByte(i, 3);
    EntryByte(i, MARK_AT);
    hide Unmeasured;
    assert mem[i * ENTRY_SIZE + 0] == 0xFF;
  }

  lemma EntryByte(i: nat, k: nat)
    requires i < ENTRIES && k < ENTRY_SIZE
    ensures Unmeasured()[i * ENTRY_SIZE + k] == if k == MARK_AT then 0xAA else 0xFF
  {
    assert (i * ENTRY_SIZE + k) % ENTRY_SIZE == k;
  }

  lemma WordsAgree(w: nat)
    ensures Correct3(w, w, w) == w
  {
    forall k: nat ensures Bit(Correct3(w, w, w), k) == Bit(w, k) { Correct3Majority(w, w, w, k); }
    SameBits(Correct3(w, w, w), w);
  }

  lemma NothingLoaded(mem: seq<byte>, beyond: nat -> byte, slots: seq<nat>, was: seq<byte>)
    requires Slots(slots)
    ensures Loaded(mem, beyond, slots, 0, was, was)
  {
  }

  lemma AlignedPage(offset: nat)
    requires offset % PAGE_SIZE == 0
    ensures (APPLICATION_BASE + offset) % WORD_LIMIT % PAGE_SIZE == 0
  {
  }

  method ToSlotNumbers(slotsMask: byte) returns (slots: array<nat>)
    ensures fresh(slots) && slots[..] == FirstThree(Named(slotsMask, ENTRIES))
  {
    slots := new nat[3][0, 0, 0];
    var j := 0;
    for i := 0 to ENTRIES
      invariant j == |Named(slotsMask, i)| < 3
      invariant slots[..] == FirstThree(Named(slotsMask, i))
    {
      if Bit(slotsMask, i) {
        slots[j] := i;
        j := j + 1;
      }
      if j == 3 {
        NamedExactly(slotsMask, ENTRIES);
        assert Named(slotsMask, i + 1) <= Named(slotsMask, ENTRIES);
        break;
      }
    }
  }

  class Bootloader {
    const settings: Settings
    const flash: Device
    const internal: Device
    const pageBuffer: array<byte>
    var bootReason: Reason
    var index: byte

    ghost predicate Valid() {
      && settings.Valid() && internal.sector == PAGE_SIZE == pageBuffer.Length && ENTRIES * ENTRY_SIZE <= flash.mem.Length
      && internal.mem.Length % PAGE_SIZE == 0 && internal.mem.Length <= WORD_LIMIT
      && settings.fram != flash.mem && settings.fram != internal.mem && settings.fram != pageBuffer
      && flash.mem != internal.mem && flash.mem != pageBuffer && internal.mem != pageBuffer
    }

    constructor (settings: Settings, flash: Device, internal: Device)
      requires settings.Valid() && internal.sector == PAGE_SIZE && ENTRIES * ENTRY_SIZE <= flash.mem.Length
      requires internal.mem.Length % PAGE_SIZE == 0 && internal.mem.Length <= WORD_LIMIT
      requires settings.fram != flash.mem && settings.fram != internal.mem && flash.mem != internal.mem
      ensures Valid() && this.settings == settings && this.flash == flash && this.internal == internal
    {
      this.settings, this.flash, this.internal := settings, flash, internal;
      pageBuffer := new byte[PAGE_SIZE];
      bootReason, index := PrimaryBootSlots, 0;
    }

    /**
      * The internal flash gets the program the slots vote for, page by page; pages that are right are left alone.
      * If the offset wraps to 0 on the way, every later turn finds it below the length and the pages right: the loop
      * never ends and changes nothing more.
      */
    method LoadApplicationTMR(slots: seq<nat>, beyond: nat -> byte) returns (ends: bool)
      requires Valid() && Slots(slots)
      modifies internal.mem, pageBuffer
      ensures ends <==> !GuardNeverFails(ProgramLength(flash.mem[..], slots))
      ensures Loaded(flash.mem[..], beyond, slots, Pages(ProgramLength(flash.mem[..], slots)) * PAGE_SIZE,
                     old(internal.mem[..]), internal.mem[..])
    {
      hide ProgramLength, Loaded, GuardNeverFails;
      ghost var mem, was := flash.mem[..], internal.mem[..];
      var length := ProgramLength(flash.mem[..], slots);
      EndlessExactly(length);
      var offset := 0;
      NothingLoaded(mem, beyond, slots, was);
      while offset < length
        invariant offset % PAGE_SIZE == 0 && offset < WORD_LIMIT && flash.mem[..] == mem
        invariant if offset < length then offset <= LAST_LENGTH else length <= LAST_LENGTH && offset == Pages(length) * PAGE_SIZE
        invariant Loaded(mem, beyond, slots, offset, was, internal.mem[..])
        decreases length - offset
      {
        PagesLeft(offset, length);
        LoadPage(slots, beyond, offset, was);
        offset := (offset + PAGE_SIZE) % WORD_LIMIT;
        if offset == 0 {
          return false;
        }
      }
      return true;
    }

    /** Past the internal flash nothing can be compared or programmed. */
    method LoadPage(slots: seq<nat>, beyond: nat -> byte, offset: nat, ghost was: seq<byte>)
      requires Valid() && Slots(slots) && offset % PAGE_SIZE == 0 && offset < WORD_LIMIT
      requires Loaded(flash.mem[..], beyond, slots, offset, was, internal.mem[..])
      modifies internal.mem, pageBuffer
      ensures Loaded(flash.mem[..], beyond, slots, offset + PAGE_SIZE, was, internal.mem[..])
    {
      ghost var now := internal.mem[..];
      var page0 := Page(flash.mem[..], beyond, slots[0], offset);
      var page1 := Page(flash.mem[..], beyond, slots[1], offset);
      var page2 := Page(flash.mem[..], beyond, slots[2], offset);
      hide Voted3, Page, Loaded;
      var ptr := (APPLICATION_BASE + offset) % WORD_LIMIT;
      var voted := CorrectBuffer(pageBuffer, page0, page1, page2, true);
      assert pageBuffer[..] == VotedPage(flash.mem[..], beyond, slots, offset);
      hide VotedPage;
      if ptr + PAGE_SIZE <= internal.mem.Length {
        var internalOk := pageBuffer[..] == internal.mem[ptr..ptr + PAGE_SIZE];
        if !internalOk {
          AlignedPage(offset);
          internal.Rewrite(ptr, pageBuffer[..]);
        }
      }
      OnePageMore(flash.mem[..], beyond, slots, offset, was, now, internal.mem[..]);
    }

    /** `ends` says whether the loader comes to an end. */
    method LoadApplication(slotsMask: byte, beyond: nat -> byte) returns (base: nat, ends: bool)
      requires Valid()
      modifies internal.mem, pageBuffer
      ensures base == if slotsMask == SAFE_MODE then SAFE_MODE_BASE else APPLICATION_BASE
      ensures slotsMask == SAFE_MODE || slotsMask == UPPER ==> ends && internal.mem[..] == old(internal.mem[..])
      ensures slotsMask != SAFE_MODE && slotsMask != UPPER ==>
                var slots := FirstThree(Named(slotsMask, ENTRIES));
                && Slots(slots) && (ends <==> !GuardNeverFails(ProgramLength(flash.mem[..], slots)))
                && Loaded(flash.mem[..], beyond, slots, Pages(ProgramLength(flash.mem[..], slots)) * PAGE_SIZE,
                          old(internal.mem[..]), internal.mem[..])
    {
      hide Loaded, ProgramLength, GuardNeverFails;
      if slotsMask == SAFE_MODE {
        return SAFE_MODE_BASE, true;
      } else if slotsMask != UPPER {
        var slots := ToSlotNumbers(slotsMask);
        SlotsNamed(slotsMask);
        ends := LoadApplicationTMR(slots[..], beyond);
        return APPLICATION_BASE, ends;
      }
      return APPLICATION_BASE, true;
    }

    method ResolveFailedBoot()
      requires Valid() && settings.CheckMagicNumber()
      modifies this`bootReason, settings.fram
      ensures settings.View() == old(settings.View()).(slots := Resolved(old(settings.View())))
      ensures bootReason == if GivesUp(old(settings.View())) then BootNotConfirmed else old(bootReason)
    {
      hide Decoded;
      var currentSlots := settings.BootSlots();
      if currentSlots == SAFE_MODE {
        return;
      }
      if currentSlots == UPPER {
        return;
      }
      var counter := settings.BootCounter();
      var lastConfirmed := settings.LastConfirmedBootCounter();
      if (counter - lastConfirmed) % WORD_LIMIT >= ATTEMPTS {
        var failsafe := settings.FailsafeBootSlots();
        if failsafe != settings.BootSlots() {
          var ok := settings.SetBootSlots(failsafe);
        } else {
          var ok := settings.SetBootSlots(SAFE_MODE);
        }
        bootReason := BootNotConfirmed;
      }
    }

    method IsBootSlotsValid(mask: byte) returns (ok: bool)
      requires Valid()
      ensures ok <==> Bootable(mask, Marks(flash.mem[..]))
    {
      if PopCount(mask) != 3 {
        return false;
      }
      SlotsNamed(mask);
      var decoded := ToSlotNumbers(mask);
      var slots := decoded[..];
      var v0, v1, v2 := MarkedValid(flash.mem[..], slots[0]), MarkedValid(flash.mem[..], slots[1]), MarkedValid(flash.mem[..], slots[2]);
      return (v0 && v1) || (v1 && v2) || (v0 && v2);
    }

    method CountBootAttempts()
      requires Valid() && settings.CheckMagicNumber()
      modifies settings.fram
      ensures settings.View() == old(settings.View()).(counter := (old(settings.View()).counter + 1) % WORD_LIMIT)
    {
      hide Decoded;
      var counter := settings.BootCounter();
      var ok := settings.SetBootCounter((counter + 1) % WORD_LIMIT);
    }

    /** Chooses the slots to boot; leaves the settings and the reason as decided. */
    method ChooseSlots() returns (slotsMask: byte)
      requires Valid()
      modifies this`bootReason, settings.fram
      ensures Outcome(settings.View(), slotsMask, bootReason) == Booted(old(settings.View()), Marks(flash.mem[..]))
    {
      hide Bootable, Marks, Decoded, Resolved;
      bootReason := PrimaryBootSlots;
      if settings.CheckMagicNumber() {
        ResolveFailedBoot();
        slotsMask := settings.BootSlots();
      } else {
        slotsMask := SAFE_MODE;
      }
      SpecialMasks(Marks(flash.mem[..]));
      if slotsMask == SAFE_MODE {
        return;
      } else if slotsMask == UPPER {
        bootReason := BootToUpper;
        CountBootAttempts();
        return;
      }
      var valid := IsBootSlotsValid(slotsMask);
      if !valid {
        bootReason := InvalidPrimaryBootSlots;
        slotsMask := settings.FailsafeBootSlots();
        var failsafeValid := IsBootSlotsValid(slotsMask);
        if failsafeValid {
          var ok := settings.SetBootSlots(slotsMask);
        } else {
          bootReason := InvalidFailsafeBootSlots;
          slotsMask := SAFE_MODE;
          var ok := settings.SetBootSlots(SAFE_MODE);
        }
      } else if settings.BootCounter() >= COUNTER_TOP {
        slotsMask := SAFE_MODE;
        var ok := settings.SetBootSlots(SAFE_MODE);
        bootReason := CounterExpired;
      } else {
        CountBootAttempts();
      }
    }

    /** One boot, up to the jump to the address returned, which is reached if the loader comes to an end. */
    method ProceedWithBooting(beyond: nat -> byte) returns (base: nat, jumps: bool)
      requires Valid()
      modifies this, settings.fram, internal.mem, pageBuffer
      ensures Outcome(settings.View(), index, bootReason) == Booted(old(settings.View()), Marks(flash.mem[..]))
      ensures base == if index == SAFE_MODE then SAFE_MODE_BASE else APPLICATION_BASE
      ensures index == SAFE_MODE || index == UPPER ==> jumps && internal.mem[..] == old(internal.mem[..])
      ensures index != SAFE_MODE && index != UPPER ==>
                var slots := FirstThree(Named(index, ENTRIES));
                && Slots(slots) && (jumps <==> !GuardNeverFails(ProgramLength(flash.mem[..], slots)))
                && Loaded(flash.mem[..], beyond, slots, Pages(ProgramLength(flash.mem[..], slots)) * PAGE_SIZE,
                          old(internal.mem[..]), internal.mem[..])
    {
      hide Booted, Loaded, ProgramLength, GuardNeverFails, Decoded, Marks, Named, FirstThree;
      var slotsMask := ChooseSlots();
      index := slotsMask;
      base, jumps := LoadApplication(slotsMask, beyond);
    }
  }
}
