/** The boot table of the program flash (libs/drivers/program_flash/boot_table.hpp) and masks of its slots. */
module BootTable {
  import opened Words

  const ENTRIES := 6
  /** ProgramEntry::Size. */
  const ENTRY_SIZE := 0x80000
  /** Where the program starts within an entry. */
  const CONTENT_AT := 1024
  /** Where the mark of a valid program is. */
  const MARK_AT := 64

  /** The slots below `n` that a mask names, in ascending order. */
  function Named(mask: nat, n: nat): seq<nat> {
    if n == 0 then [] else if Bit(mask, n - 1) then Named(mask, n - 1) + [n - 1] else Named(mask, n - 1)
  }

  lemma {:induction false} NamedExactly(mask: nat, n: nat)
    ensures forall i: nat :: i in Named(mask, n) <==> i < n && Bit(mask, i)
    ensures forall i, j | 0 <= i < j < |Named(mask, n)| :: Named(mask, n)[i] < Named(mask, n)[j]
    ensures forall m | 0 <= m <= n :: Named(mask, m) <= Named(mask, n)
  {
    if n == 0 {
    } else {
      NamedExactly(mask, n - 1);
      forall i, j | 0 <= i < j < |Named(mask, n)| ensures Named(mask, n)[i] < Named(mask, n)[j] {
        assert Named(mask, n)[i] in Named(mask, n - 1);
      }
    }
  }

  /** The first three slots of a list; missing ones are 0. */
  function FirstThree(s: seq<nat>): (r: seq<nat>)
    ensures |r| == 3
  {
    (s + [0, 0, 0])[..3]
  }

  /** A mask of exactly three slots is decoded to those slots. */
  lemma ThreeSlots(mask: byte)
    requires |Named(mask, ENTRIES)| == 3
    ensures var slots := FirstThree(Named(mask, ENTRIES));
            slots[0] < slots[1] < slots[2] < ENTRIES && forall i: nat :: i in slots <==> i < ENTRIES && Bit(mask, i)
  {
    var named := Named(mask, ENTRIES);
    NamedExactly(mask, ENTRIES);
    assert FirstThree(named) == named;
    assert named[2] in named;
  }

  ghost predicate Slots(slots: seq<nat>) {
    |slots| == 3 && forall i | 0 <= i < 3 :: slots[i] < ENTRIES
  }

  lemma SlotBounds(slots: seq<nat>)
    requires Slots(slots)
    ensures |slots| == 3 && slots[0] < ENTRIES && slots[1] < ENTRIES && slots[2] < ENTRIES
  {
  }

  lemma SlotsNamed(mask: nat)
    ensures Slots(FirstThree(Named(mask, ENTRIES)))
  {
    NamedExactly(mask, ENTRIES);
    var named := Named(mask, ENTRIES);
    forall i | 0 <= i < 3 ensures FirstThree(named)[i] < ENTRIES {
      if i < |named| { assert FirstThree(named)[i] in named; }
    }
  }

  // ---------- Counting and marks ----------

  /** The number of one bits of a byte. */
  function PopCount(mask: byte): nat {
    |Named(mask, 8)|
  }

  /** ProgramEntry::IsValid. */
  predicate MarkedValid(mem: seq<byte>, slot: nat)
    requires slot < ENTRIES && ENTRIES * ENTRY_SIZE <= |mem|
  {
    mem[slot * ENTRY_SIZE + MARK_AT] == 0xAA
  }

  /** Which entries are marked as valid. */
  function Marks(mem: seq<byte>): (t: seq<bool>)
    requires ENTRIES * ENTRY_SIZE <= |mem|
    ensures |t| == ENTRIES
  {
    seq(ENTRIES, i requires 0 <= i < ENTRIES => MarkedValid(mem, i))
  }
}
