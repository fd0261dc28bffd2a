/** Scrubbing of the three copies of a program (libs/scrubber/program.cpp). */
module ProgramScrubber {
  import opened Words
  import opened Redundancy
  import opened Flash
  import opened BootTable

  const SCRUB_SIZE := SECTOR
  const AREA := ENTRY_SIZE

  method DecodeSlotsMask(mask: byte) returns (result: array<nat>)
    ensures fresh(result) && result[..] == FirstThree(Named(mask, ENTRIES))
  {
    result := new nat[3][0, 0, 0];
    var j := 0;
    var i := 0;
    while i < ENTRIES
      invariant 0 <= i <= ENTRIES && j == |Named(mask, i)| <= 3 && (i < ENTRIES ==> j < 3)
      invariant result[..] == FirstThree(Named(mask, i))
      decreases ENTRIES - i
    {
      if Bit(mask, i) {
        result[j] := i;
        j := j + 1;
      }
      if j == 3 {
        NamedExactly(mask, ENTRIES);
        assert Named(mask, i + 1) <= Named(mask, ENTRIES);
        return;
      }
      i := i + 1;
    }
  }

  // ---------- One scrub ----------

  predicate InWindow(slots: seq<nat>, offset: nat, p: nat) {
    p / AREA in slots && offset <= p % AREA < offset + SCRUB_SIZE
  }

  function Window(mem: seq<byte>, slot: nat, offset: nat): (w: seq<byte>)
    requires slot < ENTRIES && offset + SCRUB_SIZE <= AREA && ENTRIES * AREA <= |mem|
    ensures |w| == SCRUB_SIZE
  {
    mem[slot * AREA + offset..slot * AREA + offset + SCRUB_SIZE]
  }

  /** The memory with the window of each of some slots replaced. */
  function Replaced(mem: seq<byte>, slots: seq<nat>, offset: nat, data: seq<byte>): (m: seq<byte>)
    requires |data| == SCRUB_SIZE
    ensures |m| == |mem|
  {
    seq(|mem|, p requires 0 <= p < |mem| => if InWindow(slots, offset, p) then data[p % AREA - offset] else mem[p])
  }

  function VotedWindow(mem: seq<byte>, slots: seq<nat>, offset: nat): (w: seq<byte>)
    requires Slots(slots) && offset + SCRUB_SIZE <= AREA && ENTRIES * AREA <= |mem|
    ensures |w| == SCRUB_SIZE
  {
    Voted3(Window(mem, slots[0], offset), Window(mem, slots[1], offset), Window(mem, slots[2], offset))
  }

  /** What a scrub makes of the flash: each of the three windows becomes their vote. */
  function Scrubbed(mem: seq<byte>, slots: seq<nat>, offset: nat): (m: seq<byte>)
    requires Slots(slots) && offset + SCRUB_SIZE <= AREA && ENTRIES * AREA <= |mem|
    ensures |m| == |mem|
  {
    Replaced(mem, slots, offset, VotedWindow(mem, slots, offset))
  }

  function NextOffset(offset: nat): nat {
    if offset + SCRUB_SIZE >= AREA then 0 else offset + SCRUB_SIZE
  }

  /** How many of the three windows differ from their vote. */
  function Wrong(mem: seq<byte>, slots: seq<nat>, offset: nat, n: nat): nat
    requires Slots(slots) && offset + SCRUB_SIZE <= AREA && ENTRIES * AREA <= |mem| && n <= 3
  {
    if n == 0 then 0
    else Wrong(mem, slots, offset, n - 1) + One(Window(mem, slots[n - 1], offset) != VotedWindow(mem, slots, offset))
  }

  /** It is the number of slots, of three, whose window is not what they vote for. */
  lemma {:induction false} WrongCounts(mem: seq<byte>, slots: seq<nat>, offset: nat, n: nat)
    requires Slots(slots) && offset + SCRUB_SIZE <= AREA && ENTRIES * AREA <= |mem| && n <= 3
    ensures Wrong(mem, slots, offset, n) == |set i: nat | i < n && Window(mem, slots[i], offset) != VotedWindow(mem, slots, offset)|
  {
    hide Window, VotedWindow;
    if n == 0 {
    } else {
      WrongCounts(mem, slots, offset, n - 1);
      var before := set i: nat | i < n - 1 && Window(mem, slots[i], offset) != VotedWindow(mem, slots, offset);
      var now := set i: nat | i < n && Window(mem, slots[i], offset) != VotedWindow(mem, slots, offset);
      assert now == before + if Window(mem, slots[n - 1], offset) != VotedWindow(mem, slots, offset) then {n - 1} else {};
    }
  }

  lemma Located(slots: seq<nat>, offset: nat, slot: nat, pos: nat)
    requires pos < AREA
    ensures (slot * AREA + pos) / AREA == slot && (slot * AREA + pos) % AREA == pos
    ensures InWindow(slots, offset, slot * AREA + pos) <==> slot in slots && offset <= pos < offset + SCRUB_SIZE
  {
  }

  lemma ReplaceMore(mem: seq<byte>, slots: seq<nat>, offset: nat, data: seq<byte>, slot: nat, now: seq<byte>)
    requires slot < ENTRIES && offset + SCRUB_SIZE <= AREA && ENTRIES * AREA <= |mem| == |now| && |data| == SCRUB_SIZE
    requires Window(now, slot, offset) == data
    requires forall p | 0 <= p < |mem| && !(slot * AREA + offset <= p < slot * AREA + offset + SCRUB_SIZE) ::
               now[p] == Replaced(mem, slots, offset, data)[p]
    ensures now == Replaced(mem, slots + [slot], offset, data)
  {
    var more := Replaced(mem, slots + [slot], offset, data);
    forall p | 0 <= p < |mem| ensures now[p] == more[p] {
      if slot * AREA + offset <= p < slot * AREA + offset + SCRUB_SIZE {
        assert p / AREA == slot && p % AREA == p - slot * AREA;
        assert now[p] == Window(now, slot, offset)[p - (slot * AREA + offset)];
        assert slot in slots + [slot];
      } else {
        assert !InWindow([slot], offset, p);
        assert p / AREA in slots + [slot] <==> p / AREA in slots || p / AREA == slot;
      }
    }
  }

  class Scrubber {
    const buffer: array<byte>
    const flash: Device
    const slotsMask: byte
    var offset: nat
    var iterationsCount: nat
    var slotsCorrected: nat

    ghost predicate Valid()
      reads this
    {
      && buffer.Length == flash.sector == SCRUB_SIZE && buffer != flash.mem && ENTRIES * AREA <= flash.mem.Length
      && offset % SCRUB_SIZE == 0 && offset < AREA
      && iterationsCount < WORD_LIMIT && slotsCorrected < WORD_LIMIT
    }

    ghost function ScrubbedSlots(): seq<nat>
      ensures Slots(ScrubbedSlots())
    {
      SlotsNamed(slotsMask);
      FirstThree(Named(slotsMask, ENTRIES))
    }

    constructor (buffer: array<byte>, flash: Device, slotsMask: byte)
      requires buffer.Length == flash.sector == SCRUB_SIZE && buffer != flash.mem && ENTRIES * AREA <= flash.mem.Length
      ensures Valid() && this.buffer == buffer && this.flash == flash && this.slotsMask == slotsMask
      ensures offset == 0 && iterationsCount == 0 && slotsCorrected == 0
    {
      this.buffer, this.flash, this.slotsMask := buffer, flash, slotsMask;
      offset, iterationsCount, slotsCorrected := 0, 0, 0;
    }

    /**
      * One scrubbing iteration. `lockTaken` says whether the boot table lock was free, `power` for how many flash
      * commands the power supply lasts.
      */
    method ScrubSlots(lockTaken: bool, power: nat) returns (finished: bool)
      requires Valid()
      modifies this`offset, this`iterationsCount, this`slotsCorrected, buffer, flash.mem
      ensures Valid() && (power >= 6 ==> finished)
      ensures !lockTaken ==> finished && flash.mem[..] == old(flash.mem[..]) && offset == old(offset)
                             && iterationsCount == old(iterationsCount) && slotsCorrected == old(slotsCorrected)
      ensures !finished ==> exists i: nat :: Halted(old(flash.mem[..]), flash.mem[..], ScrubbedSlots(), old(offset), i)
      ensures lockTaken && finished ==> flash.mem[..] == Scrubbed(old(flash.mem[..]), ScrubbedSlots(), old(offset))
                                        && offset == NextOffset(old(offset))
                                        && iterationsCount == (old(iterationsCount) + 1) % WORD_LIMIT
                                        && slotsCorrected
                                           == (old(slotsCorrected)
                                               + Wrong(old(flash.mem[..]), ScrubbedSlots(), old(offset), 3)) % WORD_LIMIT
    {
      hide Voted3, Named, FirstThree, Scrubbed, Window, Wrong, Slots, Halted;
      var decoded := DecodeSlotsMask(slotsMask);
      var slots := decoded[..];
      if !lockTaken {
        return true;
      }
      SlotsNamed(slotsMask);
      SlotBounds(slots);
      ghost var was := flash.mem[..];
      var span0 := Span(slots[0]);
      var span1 := Span(slots[1]);
      var span2 := Span(slots[2]);
      var voted := CorrectBuffer(buffer, span0, span1, span2, true);
      assert buffer[..] == VotedWindow(was, slots, offset) && flash.mem[..] == was;
      hide VotedWindow;
      var isCorrect := [span0 == buffer[..], span1 == buffer[..], span2 == buffer[..]];
      finished := Rewrite(slots, isCorrect, power);
      if !finished {
        ghost var i: nat :| Halted(was, flash.mem[..], slots, offset, i);
        assert Halted(was, flash.mem[..], ScrubbedSlots(), old(offset), i);
        return;
      }
      offset := offset + SCRUB_SIZE;
      if offset >= AREA {
        offset := 0;
      }
      iterationsCount := (iterationsCount + 1) % WORD_LIMIT;
    }

    /** The part of a slot at the current offset. */
    method Span(slot: nat) returns (w: seq<byte>)
      requires Valid() && slot < ENTRIES
      ensures w == Window(flash.mem[..], slot, offset)
    {
      w := flash.mem[slot * AREA + offset..slot * AREA + offset + SCRUB_SIZE];
    }

    /** Erases and programs the window of one slot. */
    method RewriteSlot(slot: nat, data: seq<byte>, power: nat, ghost was: seq<byte>, ghost done: seq<nat>)
      returns (left: nat, alive: bool)
      requires Valid() && slot < ENTRIES && |data| == SCRUB_SIZE && flash.mem[..] == Replaced(was, done, offset, data)
      modifies flash.mem
      ensures alive <==> power >= 2
      ensures alive ==> left == power - 2 && flash.mem[..] == Replaced(was, done + [slot], offset, data)
      ensures !alive ==> AnythingIn(Replaced(was, done, offset, data), flash.mem[..], slot, offset)
    {
      hide Replaced, Window, AnythingIn;
      ghost var before := flash.mem[..];
      var flashOffset := slot * AREA + offset;
      left, alive := flash.RewriteUnder(power, flashOffset, data);
      if alive {
        WindowIs(flash.mem[..], slot, offset);
        ReplaceMore(was, done, offset, data, slot, flash.mem[..]);
      } else {
        OnlyWindow(before, flash.mem[..], slot, offset);
      }
    }

    /** Copies the buffer into the slots that were found incorrect. */
    method Rewrite(slots: seq<nat>, isCorrect: seq<bool>, power: nat) returns (finished: bool)
      requires Valid() && Slots(slots) && |isCorrect| == 3 && buffer[..] == VotedWindow(flash.mem[..], slots, offset)
      requires forall i | 0 <= i < 3 :: isCorrect[i] <==> Window(flash.mem[..], slots[i], offset) == buffer[..]
      modifies this`slotsCorrected, flash.mem
      ensures Valid() && (power >= 6 ==> finished)
      ensures finished ==> flash.mem[..] == Scrubbed(old(flash.mem[..]), slots, offset)
                           && slotsCorrected == (old(slotsCorrected) + Wrong(old(flash.mem[..]), slots, offset, 3)) % WORD_LIMIT
      ensures !finished ==> exists i: nat :: Halted(old(flash.mem[..]), flash.mem[..], slots, offset, i)
    {
      hide Voted3, VotedWindow, Replaced, Window, AnythingIn;
      ghost var was := flash.mem[..];
      var data := buffer[..];
      var left: nat := power;
      NothingReplaced(was, offset, data);
      assert slots[..0] == [];
      for i := 0 to 3
        invariant Valid() && buffer[..] == data && (power >= 2 * i ==> left >= power - 2 * i)
        invariant flash.mem[..] == Replaced(was, slots[..i], offset, data)
        invariant slotsCorrected == (old(slotsCorrected) + Wrong(was, slots, offset, i)) % WORD_LIMIT
      {
        assert slots[..i + 1] == slots[..i] + [slots[i]];
        if !isCorrect[i] {
          var alive;
          left, alive := RewriteSlot(slots[i], data, left, was, slots[..i]);
          if !alive {
            assert Halted(was, flash.mem[..], slots, offset, i);
            return false;
          }
          slotsCorrected := (slotsCorrected + 1) % WORD_LIMIT;
        } else {
          CorrectStays(was, slots[..i], offset, data, slots[i]);
          ReplaceMore(was, slots[..i], offset, data, slots[i], flash.mem[..]);
        }
      }
      assert slots[..3] == slots;
      return true;
    }
  }

  lemma WindowIs(mem: seq<byte>, slot: nat, offset: nat)
    requires slot < ENTRIES && offset + SCRUB_SIZE <= AREA && ENTRIES * AREA <= |mem|
    ensures Window(mem, slot, offset) == mem[slot * AREA + offset..slot * AREA + offset + SCRUB_SIZE]
  {
  }

  lemma NothingReplaced(mem: seq<byte>, offset: nat, data: seq<byte>)
    requires |data| == SCRUB_SIZE
    ensures Replaced(mem, [], offset, data) == mem
  {
  }

  lemma CorrectStays(mem: seq<byte>, slots: seq<nat>, offset: nat, data: seq<byte>, slot: nat)
    requires slot < ENTRIES && offset + SCRUB_SIZE <= AREA && ENTRIES * AREA <= |mem| && |data| == SCRUB_SIZE
    requires Window(mem, slot, offset) == data
    ensures Window(Replaced(mem, slots, offset, data), slot, offset) == data
  {
    var now := Replaced(mem, slots, offset, data);
    forall k | 0 <= k < SCRUB_SIZE ensures Window(now, slot, offset)[k] == data[k] {
      Located(slots, offset, slot, offset + k);
      hide InWindow;
      assert mem[slot * AREA + offset + k] == Window(mem, slot, offset)[k];
    }
  }

  // ---------- Power loss during a scrub ----------

  /** Only the window of one slot changed, and it may hold anything. */
  ghost predicate AnythingIn(before: seq<byte>, now: seq<byte>, slot: nat, offset: nat)
    requires slot < ENTRIES && offset + SCRUB_SIZE <= AREA && ENTRIES * AREA <= |before|
  {
    |now| == |before| && now == Replaced(before, [slot], offset, Window(now, slot, offset))
  }

  /**
    * The power failed while slot number `i`, which was wrong, was rewritten: the slots before it hold the vote, its own
    * window anything, and the slots after it are as they were.
    */
  ghost predicate Halted(was: seq<byte>, now: seq<byte>, slots: seq<nat>, offset: nat, i: nat)
    requires Slots(slots) && offset + SCRUB_SIZE <= AREA && ENTRIES * AREA <= |was|
  {
    && i < 3 && Window(was, slots[i], offset) != VotedWindow(was, slots, offset)
    && AnythingIn(Replaced(was, slots[..i], offset, VotedWindow(was, slots, offset)), now, slots[i], offset)
  }

  lemma OnlyWindow(before: seq<byte>, now: seq<byte>, slot: nat, offset: nat)
    requires slot < ENTRIES && offset + SCRUB_SIZE <= AREA && ENTRIES * AREA <= |before| == |now|
    requires forall p | 0 <= p < |now| && !(slot * AREA + offset <= p < slot * AREA + offset + SCRUB_SIZE) :: now[p] == before[p]
    ensures AnythingIn(before, now, slot, offset)
  {
    var data := Window(now, slot, offset);
    NothingReplaced(before, offset, data);
    assert [] + [slot] == [slot];
    hide Window, Replaced;
    ReplaceMore(before, [], offset, data, slot, now);
  }

  /** What slot number `j` holds after the power failed at slot number `i`. */
  function Other(was: seq<byte>, slots: seq<nat>, offset: nat, i: nat, j: nat): (w: seq<byte>)
    requires Slots(slots) && offset + SCRUB_SIZE <= AREA && ENTRIES * AREA <= |was| && j < 3
    ensures |w| == SCRUB_SIZE
  {
    if j < i then VotedWindow(was, slots, offset) else Window(was, slots[j], offset)
  }

  lemma ReplacedWindow(mem: seq<byte>, slots: seq<nat>, offset: nat, data: seq<byte>, slot: nat)
    requires slot < ENTRIES && offset + SCRUB_SIZE <= AREA && ENTRIES * AREA <= |mem| && |data| == SCRUB_SIZE
    ensures Window(Replaced(mem, slots, offset, data), slot, offset) == if slot in slots then data else Window(mem, slot, offset)
  {
    var now := Window(Replaced(mem, slots, offset, data), slot, offset);
    forall k | 0 <= k < SCRUB_SIZE ensures now[k] == if slot in slots then data[k] else Window(mem, slot, offset)[k] {
      Located(slots, offset, slot, offset + k);
      hide InWindow;
    }
  }

  /** The memory after the power failed at slot number `i` with `junk` in the window of that slot. */
  function HaltedWith(was: seq<byte>, slots: seq<nat>, offset: nat, i: nat, junk: seq<byte>): (now: seq<byte>)
    requires Slots(slots) && offset + SCRUB_SIZE <= AREA && ENTRIES * AREA <= |was| && i < 3 && |junk| == SCRUB_SIZE
    ensures |now| == |was|
  {
    Replaced(Replaced(was, slots[..i], offset, VotedWindow(was, slots, offset)), [slots[i]], offset, junk)
  }

  lemma HaltedWindows(was: seq<byte>, slots: seq<nat>, offset: nat, i: nat, junk: seq<byte>, j: nat)
    requires Distinct(slots) && offset + SCRUB_SIZE <= AREA && ENTRIES * AREA <= |was| && i < 3 && j < 3 && |junk| == SCRUB_SIZE
    ensures Window(HaltedWith(was, slots, offset, i, junk), slots[j], offset)
         == if j == i then junk else Other(was, slots, offset, i, j)
  {
    hide Replaced, Window, VotedWindow;
    var repaired := Replaced(was, slots[..i], offset, VotedWindow(was, slots, offset));
    ReplacedWindow(was, slots[..i], offset, VotedWindow(was, slots, offset), slots[j]);
    ReplacedWindow(repaired, [slots[i]], offset, junk, slots[j]);
    assert slots[j] in slots[..i] <==> j < i by {
      if j < i { assert slots[..i][j] == slots[j]; }
    }
  }

  /** If two slots hold the same, that is what the three vote for. */
  lemma TwoWindows(mem: seq<byte>, slots: seq<nat>, offset: nat, j: nat, k: nat)
    requires Slots(slots) && offset + SCRUB_SIZE <= AREA && ENTRIES * AREA <= |mem| && j < k < 3
    requires Window(mem, slots[j], offset) == Window(mem, slots[k], offset)
    ensures VotedWindow(mem, slots, offset) == Window(mem, slots[j], offset)
  {
    hide Window, Voted3;
    BuffersAgree(Window(mem, slots[0], offset), Window(mem, slots[1], offset), Window(mem, slots[2], offset),
                 Window(mem, slots[j], offset));
  }

  /**
    * Whatever a slot holds that was being rewritten when the power failed, the three still vote for the image
    * exactly when no bit of the window was wrong in the other two at that time.
    */
  lemma SurvivesPowerLoss(was: seq<byte>, slots: seq<nat>, offset: nat, i: nat, image: seq<byte>)
    requires Distinct(slots) && offset + SCRUB_SIZE <= AREA && ENTRIES * AREA <= |was|
    requires i < 3 && Window(was, slots[i], offset) != VotedWindow(was, slots, offset)
    ensures (forall now: seq<byte> | Halted(was, now, slots, offset, i) :: VotedWindow(now, slots, offset) == image)
       <==> (forall j | 0 <= j < 3 && j != i :: Other(was, slots, offset, i, j) == image)
  {
    hide Replaced, Window, VotedWindow, Other;
    if forall j | 0 <= j < 3 && j != i :: Other(was, slots, offset, i, j) == image {
      forall now: seq<byte> | Halted(was, now, slots, offset, i) ensures VotedWindow(now, slots, offset) == image {
        RestRight(was, now, slots, offset, i, image);
      }
    } else {
      var j :| 0 <= j < 3 && j != i && Other(was, slots, offset, i, j) != image;
      OtherOutvotes(was, slots, offset, i, j);
    }
  }

  lemma RestRight(was: seq<byte>, now: seq<byte>, slots: seq<nat>, offset: nat, i: nat, image: seq<byte>)
    requires Distinct(slots) && offset + SCRUB_SIZE <= AREA && ENTRIES * AREA <= |was| && Halted(was, now, slots, offset, i)
    requires forall j | 0 <= j < 3 && j != i :: Other(was, slots, offset, i, j) == image
    ensures VotedWindow(now, slots, offset) == image
  {
    hide Replaced, Window, VotedWindow, Other;
    var junk := Window(now, slots[i], offset);
    assert now == HaltedWith(was, slots, offset, i, junk);
    HaltedWindows(was, slots, offset, i, junk, 0);
    HaltedWindows(was, slots, offset, i, junk, 1);
    HaltedWindows(was, slots, offset, i, junk, 2);
    TwoWindows(now, slots, offset, if i == 0 then 1 else 0, if i == 2 then 1 else 2);
  }

  /** Slot number `j` gets its way if the one being rewritten happens to hold the same. */
  lemma OtherOutvotes(was: seq<byte>, slots: seq<nat>, offset: nat, i: nat, j: nat)
    requires Distinct(slots) && offset + SCRUB_SIZE <= AREA && ENTRIES * AREA <= |was|
    requires i < 3 && Window(was, slots[i], offset) != VotedWindow(was, slots, offset) && j < 3 && j != i
    ensures exists now: seq<byte> | Halted(was, now, slots, offset, i) :: VotedWindow(now, slots, offset) == Other(was, slots, offset, i, j)
  {
    hide Replaced, Window, VotedWindow, Other;
    var junk := Other(was, slots, offset, i, j);
    var now := HaltedWith(was, slots, offset, i, junk);
    HaltedWindows(was, slots, offset, i, junk, i);
    HaltedWindows(was, slots, offset, i, junk, j);
    TwoWindows(now, slots, offset, if i < j then i else j, if i < j then j else i);
    assert Halted(was, now, slots, offset, i);
  }

  /** A flash with one upset bit in slot 0 and another in slot 1: the vote is right, and may be lost with the power. */
  function TwoUpsets(): (mem: seq<byte>) {
    seq<byte>(ENTRIES * AREA, p => if p == 0 then 1 else if p == AREA then 2 else 0)
  }

  lemma PowerLossBreaks()
    ensures var image := seq<byte>(SCRUB_SIZE, k => 0);
            && VotedWindow(TwoUpsets(), [0, 1, 2], 0) == image
            && exists now: seq<byte> | Halted(TwoUpsets(), now, [0, 1, 2], 0, 0) :: VotedWindow(now, [0, 1, 2], 0) != image
  {
    var mem, image, slots := TwoUpsets(), seq<byte>(SCRUB_SIZE, k => 0), [0, 1, 2];
    var w0, w1, w2 := Window(mem, 0, 0), Window(mem, 1, 0), Window(mem, 2, 0);
    assert w0[0] == 1 && w1[0] == 2 && w2[0] == 0 && VotedByte3(1, 2, 0) == 0;
    hide VotedByte3;
    forall k | 0 <= k < SCRUB_SIZE ensures VotedWindow(mem, slots, 0)[k] == 0 {
      assert VotedWindow(mem, slots, 0)[k] == VotedByte3(w0[k], w1[k], w2[k]);
      if k > 0 { TwoAgree(w0[k], w1[k], w2[k], 0); }
    }
    assert image[0] == 0;
    assert VotedWindow(mem, slots, 0) == image;
    SurvivesPowerLoss(mem, slots, 0, 0, image);
    assert Other(mem, slots, 0, 0, 1) != image;
  }

  // ---------- Scrubbing and upsets over whole runs ----------

  datatype Upset = Upset(slot: nat, pos: nat, bit: nat)

  /** `upsets` are the bits upset since their window was last scrubbed. */
  datatype State = State(mem: seq<byte>, offset: nat, upsets: set<Upset>)

  datatype Event = Scrub(lockTaken: bool) | Flip(upset: Upset)

  ghost predicate WellFormed(s: State) {
    ENTRIES * AREA <= |s.mem| && s.offset % SCRUB_SIZE == 0 && s.offset < AREA
  }

  predicate Possible(e: Event) {
    e.Flip? ==> e.upset.slot < ENTRIES && e.upset.pos < AREA && e.upset.bit < 8
  }

  function Step(s: State, e: Event, slots: seq<nat>): (t: State)
    requires WellFormed(s) && Slots(slots) && Possible(e)
    ensures WellFormed(t) && |t.mem| == |s.mem|
  {
    match e
    case Scrub(false) => s
    case Scrub(true) =>
      State(Scrubbed(s.mem, slots, s.offset), NextOffset(s.offset),
            set u | u in s.upsets && !(u.slot in slots && s.offset <= u.pos < s.offset + SCRUB_SIZE))
    case Flip(u) =>
      var p := u.slot * AREA + u.pos;
      s.(mem := s.mem[p := FlipByte(s.mem[p], u.bit)], upsets := s.upsets + {u})
  }

  function Run(s: State, events: seq<Event>, slots: seq<nat>): (t: State)
    requires WellFormed(s) && Slots(slots) && forall e | e in events :: Possible(e)
    ensures WellFormed(t) && |t.mem| == |s.mem|
  {
    if events == [] then s
    else
      var last := |events| - 1;
      assert events[last] in events;
      Step(Run(s, events[..last], slots), events[last], slots)
  }

  /** Since its window was last scrubbed, each bit position was upset in at most one of the slots. */
  ghost predicate Tolerable(s: State, slots: seq<nat>) {
    forall u, v | u in s.upsets && v in s.upsets && u.slot in slots && v.slot in slots && u.pos == v.pos && u.bit == v.bit ::
      u.slot == v.slot
  }

  function Image(mem: seq<byte>, slots: seq<nat>): (v: seq<byte>)
    requires Slots(slots) && ENTRIES * AREA <= |mem|
    ensures |v| == AREA
  {
    Voted3(Slot(mem, slots[0]), Slot(mem, slots[1]), Slot(mem, slots[2]))
  }

  function Slot(mem: seq<byte>, slot: nat): (w: seq<byte>)
    requires slot < ENTRIES && ENTRIES * AREA <= |mem|
    ensures |w| == AREA
  {
    mem[slot * AREA..slot * AREA + AREA]
  }

  /** A bit of a slot that was not upset holds the original program. */
  ghost predicate Intact(s: State, slot: nat, original: seq<byte>)
    requires slot < ENTRIES && ENTRIES * AREA <= |s.mem| && |original| == AREA
  {
    forall pos: nat, bit: nat | pos < AREA && bit < 8 && Upset(slot, pos, bit) !in s.upsets ::
      Bit(Slot(s.mem, slot)[pos], bit) == Bit(original[pos], bit)
  }

  ghost predicate AllIntact(s: State, slots: seq<nat>, original: seq<byte>)
    requires Slots(slots) && ENTRIES * AREA <= |s.mem| && |original| == AREA
  {
    Intact(s, slots[0], original) && Intact(s, slots[1], original) && Intact(s, slots[2], original)
  }

  ghost predicate Distinct(slots: seq<nat>) {
    Slots(slots) && slots[0] != slots[1] && slots[1] != slots[2] && slots[0] != slots[2]
  }

  lemma SameByte(a: byte, b: byte)
    requires forall k: nat | k < 8 :: Bit(a, k) == Bit(b, k)
    ensures a == b
  {
    if a != b {
      var k := BitsDiffer(a, b);
      if k >= 8 { ByteHighBits(a, k); ByteHighBits(b, k); }
    }
  }

  /** The vote over a byte is the original byte. */
  lemma VoteRight(s: State, slots: seq<nat>, original: seq<byte>, pos: nat)
    requires WellFormed(s) && Distinct(slots) && |original| == AREA && pos < AREA
    requires AllIntact(s, slots, original) && Tolerable(s, slots)
    ensures VotedByte3(Slot(s.mem, slots[0])[pos], Slot(s.mem, slots[1])[pos], Slot(s.mem, slots[2])[pos]) == original[pos]
  {
    hide Bit, Slot, Correct3;
    var a, b, c := Slot(s.mem, slots[0])[pos], Slot(s.mem, slots[1])[pos], Slot(s.mem, slots[2])[pos];
    var u0, u1, u2 := slots[0], slots[1], slots[2];
    forall k: nat | k < 8 ensures Bit(VotedByte3(a, b, c), k) == Bit(original[pos], k) {
      Correct3Majority(a, b, c, k);
      TwoRight(s.upsets, slots, pos, k);
      assert Upset(u0, pos, k) !in s.upsets ==> Bit(a, k) == Bit(original[pos], k);
      assert Upset(u1, pos, k) !in s.upsets ==> Bit(b, k) == Bit(original[pos], k);
      assert Upset(u2, pos, k) !in s.upsets ==> Bit(c, k) == Bit(original[pos], k);
    }
    SameByte(VotedByte3(a, b, c), original[pos]);
  }

  lemma TwoRight(upsets: set<Upset>, slots: seq<nat>, pos: nat, k: nat)
    requires Distinct(slots) && Tolerable(State([], 0, upsets), slots)
    ensures One(Upset(slots[0], pos, k) in upsets) + One(Upset(slots[1], pos, k) in upsets) + One(Upset(slots[2], pos, k) in upsets) <= 1
  {
  }

  /** As long as the upsets are tolerable the voted program is the original one. */
  lemma ImageIntact(s: State, slots: seq<nat>, original: seq<byte>)
    requires WellFormed(s) && Distinct(slots) && |original| == AREA && AllIntact(s, slots, original) && Tolerable(s, slots)
    ensures Image(s.mem, slots) == original
  {
    hide Slot, VotedByte3, AllIntact, Tolerable;
    forall pos | 0 <= pos < AREA ensures Image(s.mem, slots)[pos] == original[pos] { VoteRight(s, slots, original, pos); }
  }

  lemma ScrubbedByte(mem: seq<byte>, slots: seq<nat>, offset: nat, slot: nat, pos: nat)
    requires Slots(slots) && slot in slots && ENTRIES * AREA <= |mem| && offset + SCRUB_SIZE <= AREA && pos < AREA
    ensures slot < ENTRIES
    ensures Slot(Scrubbed(mem, slots, offset), slot)[pos]
         == if offset <= pos < offset + SCRUB_SIZE
            then VotedByte3(Slot(mem, slots[0])[pos], Slot(mem, slots[1])[pos], Slot(mem, slots[2])[pos])
            else Slot(mem, slot)[pos]
  {
    hide VotedByte3, Voted3, VotedWindow, Slot, Replaced;
    ReplacedByte(mem, slots, offset, VotedWindow(mem, slots, offset), slot, pos);
    if offset <= pos < offset + SCRUB_SIZE {
      VotedWindowByte(mem, slots, offset, pos);
    }
  }

  lemma ReplacedByte(mem: seq<byte>, slots: seq<nat>, offset: nat, data: seq<byte>, slot: nat, pos: nat)
    requires slot < ENTRIES && slot in slots && ENTRIES * AREA <= |mem| && pos < AREA && |data| == SCRUB_SIZE
    ensures Slot(Replaced(mem, slots, offset, data), slot)[pos]
         == if offset <= pos < offset + SCRUB_SIZE then data[pos - offset] else Slot(mem, slot)[pos]
  {
    Located(slots, offset, slot, pos);
    hide InWindow;
  }

  lemma VotedWindowByte(mem: seq<byte>, slots: seq<nat>, offset: nat, pos: nat)
    requires Slots(slots) && ENTRIES * AREA <= |mem| && offset + SCRUB_SIZE <= AREA && offset <= pos < offset + SCRUB_SIZE
    ensures VotedWindow(mem, slots, offset)[pos - offset]
         == VotedByte3(Slot(mem, slots[0])[pos], Slot(mem, slots[1])[pos], Slot(mem, slots[2])[pos])
  {
    hide VotedByte3;
    WindowOfSlot(mem, slots[0], offset, pos);
    WindowOfSlot(mem, slots[1], offset, pos);
    WindowOfSlot(mem, slots[2], offset, pos);
    hide Slot, Window;
  }

  lemma WindowOfSlot(mem: seq<byte>, slot: nat, offset: nat, pos: nat)
    requires slot < ENTRIES && ENTRIES * AREA <= |mem| && offset + SCRUB_SIZE <= AREA && offset <= pos < offset + SCRUB_SIZE
    ensures Window(mem, slot, offset)[pos - offset] == Slot(mem, slot)[pos]
  {
  }

  lemma ScrubKeepsIntact(s: State, slots: seq<nat>, original: seq<byte>, slot: nat)
    requires WellFormed(s) && Distinct(slots) && |original| == AREA && AllIntact(s, slots, original) && Tolerable(s, slots)
    requires slot in slots
    ensures slot < ENTRIES && Intact(Step(s, Scrub(true), slots), slot, original)
  {
    hide VotedByte3, Bit, Slot, Scrubbed;
    var t := Step(s, Scrub(true), slots);
    forall pos: nat, bit: nat | pos < AREA && bit < 8 && Upset(slot, pos, bit) !in t.upsets
      ensures Bit(Slot(t.mem, slot)[pos], bit) == Bit(original[pos], bit)
    {
      VoteRight(s, slots, original, pos);
      ScrubbedByte(s.mem, slots, s.offset, slot, pos);
    }
  }

  lemma FlipKeepsIntact(s: State, u: Upset, slots: seq<nat>, original: seq<byte>, slot: nat)
    requires WellFormed(s) && Slots(slots) && Possible(Flip(u)) && slot < ENTRIES && |original| == AREA && Intact(s, slot, original)
    ensures Intact(Step(s, Flip(u), slots), slot, original)
  {
    hide Bit, FlipWord;
    var t := Step(s, Flip(u), slots);
    forall pos: nat, bit: nat | pos < AREA && bit < 8 && Upset(slot, pos, bit) !in t.upsets
      ensures Bit(Slot(t.mem, slot)[pos], bit) == Bit(original[pos], bit)
    {
      FlippedWord(Slot(s.mem, slot)[pos], u.bit, bit);
      if slot * AREA + pos == u.slot * AREA + u.pos {
        assert slot == u.slot && pos == u.pos;
      }
    }
  }

  lemma StepKeepsIntact(s: State, e: Event, slots: seq<nat>, original: seq<byte>)
    requires WellFormed(s) && Distinct(slots) && |original| == AREA && Possible(e)
    requires AllIntact(s, slots, original) && Tolerable(s, slots)
    ensures AllIntact(Step(s, e, slots), slots, original)
  {
    hide Intact, Tolerable, Step;
    match e
    case Scrub(false) => IdleStep(s, slots);
    case Scrub(true) =>
      ScrubKeepsIntact(s, slots, original, slots[0]);
      ScrubKeepsIntact(s, slots, original, slots[1]);
      ScrubKeepsIntact(s, slots, original, slots[2]);
    case Flip(u) =>
      FlipKeepsIntact(s, u, slots, original, slots[0]);
      FlipKeepsIntact(s, u, slots, original, slots[1]);
      FlipKeepsIntact(s, u, slots, original, slots[2]);
  }

  lemma IdleStep(s: State, slots: seq<nat>)
    requires WellFormed(s) && Slots(slots)
    ensures Step(s, Scrub(false), slots) == s
  {
  }

  lemma {:induction false} RunKeepsIntact(start: State, events: seq<Event>, slots: seq<nat>, original: seq<byte>)
    requires WellFormed(start) && Distinct(slots) && |original| == AREA && AllIntact(start, slots, original)
    requires forall e | e in events :: Possible(e)
    requires forall k | 0 <= k < |events| :: Tolerable(Run(start, events[..k], slots), slots)
    ensures AllIntact(Run(start, events, slots), slots, original)
  {
    hide AllIntact, Tolerable, Step;
    if events == [] {
    } else {
      var last := |events| - 1;
      var before := events[..last];
      forall k | 0 <= k < last ensures Tolerable(Run(start, before[..k], slots), slots) { assert before[..k] == events[..k]; }
      RunKeepsIntact(start, before, slots, original);
      StepKeepsIntact(Run(start, before, slots), events[last], slots, original);
    }
  }

  /**
    * Over any run of scrubs (done or skipped) and upsets, the program the three slots vote for stays the original one,
    * provided that between two visits to a window each bit position is upset in at most one of the slots.
    */
  lemma ImageSurvives(start: State, events: seq<Event>, slots: seq<nat>, original: seq<byte>)
    requires WellFormed(start) && Distinct(slots) && |original| == AREA && AllIntact(start, slots, original)
    requires forall e | e in events :: Possible(e)
    requires forall k | 0 <= k <= |events| :: Tolerable(Run(start, events[..k], slots), slots)
    ensures Image(Run(start, events, slots).mem, slots) == original
  {
    hide AllIntact, Tolerable, Step, Run, Image;
    RunKeepsIntact(start, events, slots, original);
    assert events[..|events|] == events;
    ImageIntact(Run(start, events, slots), slots, original);
  }

  function Done(events: seq<Event>): nat {
    if events == [] then 0 else Done(events[..|events| - 1]) + if events[|events| - 1] == Scrub(true) then 1 else 0
  }

  /** How far a position lies after `from`, going round the area. */
  function Distance(pos: nat, from: nat): nat
    requires pos < AREA && from < AREA
  {
    if from <= pos then pos - from else pos + AREA - from
  }

  /** No upset is left in the first `n` windows from `from` on. */
  ghost predicate CleanFrom(s: State, slots: seq<nat>, from: nat, n: nat)
    requires from < AREA
  {
    forall u | u in s.upsets && u.slot in slots && u.pos < AREA :: Distance(u.pos, from) >= n * SCRUB_SIZE
  }

  lemma {:induction false} PassCleans(start: State, events: seq<Event>, slots: seq<nat>)
    requires WellFormed(start) && Slots(slots) && (forall i | 0 <= i < |events| :: events[i].Scrub?) && Done(events) <= 8
    ensures var s := Run(start, events, slots);
            s.offset == (start.offset + Done(events) * SCRUB_SIZE) % AREA && CleanFrom(s, slots, start.offset, Done(events))
            && s.upsets <= start.upsets
  {
    hide Scrubbed;
    if events == [] {
    } else {
      var last := |events| - 1;
      PassCleans(start, events[..last], slots);
      assert events[last] in events;
      var s := Run(start, events[..last], slots);
      if events[last] == Scrub(true) { ScrubCleans(s, slots, start.offset, Done(events[..last])); }
    }
  }

  lemma ScrubCleans(s: State, slots: seq<nat>, from: nat, n: nat)
    requires WellFormed(s) && Slots(slots) && n < 8 && from < AREA && from % SCRUB_SIZE == 0
    requires s.offset == (from + n * SCRUB_SIZE) % AREA && CleanFrom(s, slots, from, n)
    ensures var t := Step(s, Scrub(true), slots);
            t.offset == (from + (n + 1) * SCRUB_SIZE) % AREA && CleanFrom(t, slots, from, n + 1) && t.upsets <= s.upsets
  {
    hide Scrubbed;
    var b := from / SCRUB_SIZE;
    assert from == b * SCRUB_SIZE;
    assert s.offset == if b + n < 8 then (b + n) * SCRUB_SIZE else (b + n - 8) * SCRUB_SIZE;
    assert NextOffset(s.offset) == (from + (n + 1) * SCRUB_SIZE) % AREA;
    forall u | u in s.upsets && u.slot in slots && u.pos < AREA && !(s.offset <= u.pos < s.offset + SCRUB_SIZE)
      ensures Distance(u.pos, from) >= (n + 1) * SCRUB_SIZE
    {
    }
  }

  lemma NoUpsetsLeft(s: State, slots: seq<nat>, from: nat)
    requires Slots(slots) && from < AREA && CleanFrom(s, slots, from, 8)
    ensures forall u | u in s.upsets && u.pos < AREA :: u.slot !in slots
  {
  }

  lemma IntactSlot(s: State, slot: nat, original: seq<byte>)
    requires slot < ENTRIES && ENTRIES * AREA <= |s.mem| && |original| == AREA && Intact(s, slot, original)
    requires forall u | u in s.upsets && u.pos < AREA :: u.slot != slot
    ensures Slot(s.mem, slot) == original
  {
    hide Bit, Slot;
    forall pos | 0 <= pos < AREA ensures Slot(s.mem, slot)[pos] == original[pos] {
      forall k: nat | k < 8 ensures Bit(Slot(s.mem, slot)[pos], k) == Bit(original[pos], k) {
        assert Upset(slot, pos, k) !in s.upsets;
      }
      SameByte(Slot(s.mem, slot)[pos], original[pos]);
    }
  }

  lemma {:induction false} ScrubsStayTolerable(start: State, events: seq<Event>, slots: seq<nat>, k: nat)
    requires WellFormed(start) && Slots(slots) && (forall i | 0 <= i < |events| :: events[i].Scrub?)
    requires Tolerable(start, slots) && k <= |events|
    ensures Tolerable(Run(start, events[..k], slots), slots)
  {
    if k == 0 {
    } else {
      ScrubsStayTolerable(start, events, slots, k - 1);
      assert events[..k][..k - 1] == events[..k - 1];
    }
  }

  /** Eight successful scrubs without an upset, starting at any offset, make the three slots equal to the original. */
  lemma FullPassRepairs(start: State, events: seq<Event>, slots: seq<nat>, original: seq<byte>)
    requires WellFormed(start) && Distinct(slots) && |original| == AREA && AllIntact(start, slots, original)
    requires Tolerable(start, slots) && (forall i | 0 <= i < |events| :: events[i].Scrub?) && Done(events) == AREA / SCRUB_SIZE
    ensures var mem := Run(start, events, slots).mem;
            Slot(mem, slots[0]) == Slot(mem, slots[1]) == Slot(mem, slots[2]) == original
  {
    hide Run, Intact, Tolerable, Slot, Done;
    forall k | 0 <= k < |events| ensures Tolerable(Run(start, events[..k], slots), slots) {
      ScrubsStayTolerable(start, events, slots, k);
    }
    RunKeepsIntact(start, events, slots, original);
    PassCleans(start, events, slots);
    var s := Run(start, events, slots);
    NoUpsetsLeft(s, slots, start.offset);
    IntactSlot(s, slots[0], original);
    IntactSlot(s, slots[1], original);
    IntactSlot(s, slots[2], original);
  }
}
