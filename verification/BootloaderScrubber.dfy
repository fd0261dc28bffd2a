/** Scrubbing of the five bootloader copies and of the bootloader in the MCU (libs/scrubber/bootloader.cpp). */
module BootloaderScrubber {
  import opened Words
  import opened Redundancy
  import opened Flash

  const COPIES := 5
  /** BootloaderCopy::Size, one sector of the program flash. */
  const COPY_SIZE := SECTOR
  const FIRST_COPY := 48 * SECTOR
  /** Erase unit of the MCU flash. */
  const MCU_SECTOR := 4096

  predicate Holds(mem: seq<byte>) {
    FIRST_COPY + COPIES * COPY_SIZE <= |mem|
  }

  function CopyAt(i: nat): nat {
    FIRST_COPY + i * COPY_SIZE
  }

  function Copy(mem: seq<byte>, i: nat): (c: seq<byte>)
    requires Holds(mem) && i < COPIES
    ensures |c| == COPY_SIZE
  {
    mem[CopyAt(i)..CopyAt(i) + COPY_SIZE]
  }

  ghost predicate FiveCopies(c: seq<seq<byte>>) {
    |c| == COPIES && forall i | 0 <= i < COPIES :: |c[i]| == COPY_SIZE
  }

  function Copies(mem: seq<byte>): (c: seq<seq<byte>>)
    requires Holds(mem)
    ensures FiveCopies(c)
  {
    seq(COPIES, i requires 0 <= i < COPIES => Copy(mem, i))
  }

  function Vote(c: seq<seq<byte>>): (v: seq<byte>)
    requires FiveCopies(c)
    ensures |v| == COPY_SIZE
  {
    Voted5(c)
  }

  // ---------- What a scrub may leave behind ----------

  /**
    * A scrub that got as far as copy `i`: the copies before it hold the image, those after it are as they were,
    * and copy `i` itself holds anything if it had to be rewritten.
    */
  ghost predicate Reached(before: seq<seq<byte>>, after: seq<seq<byte>>, i: nat) {
    && FiveCopies(before) && FiveCopies(after) && i <= COPIES
    && (forall j | 0 <= j < i :: after[j] == Vote(before))
    && (forall j | i < j < COPIES :: after[j] == before[j])
    && (i < COPIES && before[i] == Vote(before) ==> after[i] == before[i])
  }

  ghost predicate ScrubStep(before: seq<seq<byte>>, after: seq<seq<byte>>) {
    exists i: nat :: Reached(before, after, i)
  }

  predicate Wrong(c: seq<seq<byte>>, image: seq<byte>, i: nat, pos: nat, bit: nat)
    requires i < |c| && pos < |c[i]| && pos < |image|
  {
    Bit(c[i][pos], bit) != Bit(image[pos], bit)
  }

  /** From copy `from` on, no bit is wrong in two copies. */
  ghost predicate OneWrongFrom(c: seq<seq<byte>>, image: seq<byte>, from: nat) {
    && FiveCopies(c) && |image| == COPY_SIZE
    && forall pos: nat, bit: nat, i: nat, j: nat | pos < COPY_SIZE && from <= i < COPIES && from <= j < COPIES
                                                && Wrong(c, image, i, pos, bit) && Wrong(c, image, j, pos, bit) :: i == j
  }

  /** Copy `i` may hold anything, the copies before it are right and of those after it only one is wrong in any bit. */
  ghost predicate Recoverable(c: seq<seq<byte>>, image: seq<byte>, i: nat) {
    OneWrongFrom(c, image, i + 1) && forall j | 0 <= j < i && j < COPIES :: c[j] == image
  }

  lemma VoteBit(c: seq<seq<byte>>, image: seq<byte>, i: nat, pos: nat, bit: nat)
    requires Recoverable(c, image, i) && pos < COPY_SIZE && bit < 8
    ensures Bit(Vote(c)[pos], bit) == Bit(image[pos], bit)
  {
    hide Bit, Correct5;
    Correct5Majority(c[0][pos], c[1][pos], c[2][pos], c[3][pos], c[4][pos], bit);
    var w := (j: nat) requires j < COPIES => Wrong(c, image, j, pos, bit);
    assert Vote(c)[pos] == VotedByte5(c[0][pos], c[1][pos], c[2][pos], c[3][pos], c[4][pos]);
    assert forall j: nat | j < i && j < COPIES :: !Wrong(c, image, j, pos, bit);
    assert forall j: nat, k: nat | i < j < k < COPIES :: !Wrong(c, image, j, pos, bit) || !Wrong(c, image, k, pos, bit);
    assert Ones5(w(0), w(1), w(2), w(3), w(4)) <= 2;
  }

  lemma VoteRecovers(c: seq<seq<byte>>, image: seq<byte>, i: nat)
    requires Recoverable(c, image, i)
    ensures Vote(c) == image
  {
    hide Recoverable, Vote, Bit;
    assert |image| == COPY_SIZE && FiveCopies(c) by { RecoverableShape(c, image, i); }
    forall pos | 0 <= pos < COPY_SIZE ensures Vote(c)[pos] == image[pos] {
      var x, y := Vote(c)[pos], image[pos];
      if x != y {
        var k := BitsDiffer(x, y);
        if k >= 8 { ByteHighBits(x, k); ByteHighBits(y, k); }
        VoteBit(c, image, i, pos, k);
        assert false;
      }
    }
  }

  lemma RecoverableShape(c: seq<seq<byte>>, image: seq<byte>, i: nat)
    requires Recoverable(c, image, i)
    ensures |image| == COPY_SIZE && FiveCopies(c)
  {
  }

  // ---------- What survives any interruption ----------

  /**
    * The copies vote for the image, and still do while any copy that has to be rewritten holds anything: no bit is
    * wrong in two of the copies after it.
    */
  ghost predicate Survivable(c: seq<seq<byte>>, image: seq<byte>) {
    && FiveCopies(c) && |image| == COPY_SIZE && Vote(c) == image
    && forall i | 0 <= i < COPIES && c[i] != image :: OneWrongFrom(c, image, i + 1)
  }

  /** No bit wrong in two copies is enough. */
  lemma OneWrongSurvives(c: seq<seq<byte>>, image: seq<byte>)
    requires OneWrongFrom(c, image, 0)
    ensures Survivable(c, image)
  {
    VoteRecovers(c, image, 0) by { LaterCopies(c, image, 1); }
    forall i | 0 <= i < COPIES && c[i] != image ensures OneWrongFrom(c, image, i + 1) { LaterCopies(c, image, i + 1); }
  }

  lemma LaterCopies(c: seq<seq<byte>>, image: seq<byte>, from: nat)
    requires OneWrongFrom(c, image, 0)
    ensures OneWrongFrom(c, image, from)
  {
  }

  /** Of the copies after `i` the scrub that reached `j` changed none. */
  lemma OneWrongKept(before: seq<seq<byte>>, after: seq<seq<byte>>, image: seq<byte>, i: nat, j: nat)
    requires OneWrongFrom(before, image, i + 1) && FiveCopies(after) && j <= i
    requires forall k | j < k < COPIES :: after[k] == before[k]
    ensures OneWrongFrom(after, image, i + 1)
  {
    hide Bit;
    forall pos: nat, bit: nat, m: nat, n: nat | pos < COPY_SIZE && i + 1 <= m < COPIES && i + 1 <= n < COPIES
                                              && Wrong(after, image, m, pos, bit) && Wrong(after, image, n, pos, bit)
      ensures m == n
    {
      assert Wrong(before, image, m, pos, bit) && Wrong(before, image, n, pos, bit);
    }
  }

  /** The first copy that differs from the image. */
  function FirstWrong(c: seq<seq<byte>>, image: seq<byte>): (i: nat)
    ensures i <= |c| && (i < |c| ==> c[i] != image) && forall j | 0 <= j < i :: c[j] == image
  {
    if c == [] || c[0] != image then 0 else 1 + FirstWrong(c[1..], image)
  }

  /** A scrub, completed or interrupted anywhere, leaves the copies survivable. */
  lemma StepSurvives(before: seq<seq<byte>>, after: seq<seq<byte>>, image: seq<byte>)
    requires Survivable(before, image) && ScrubStep(before, after)
    ensures Survivable(after, image)
  {
    hide Vote, OneWrongFrom;
    var j: nat :| Reached(before, after, j);
    forall i | 0 <= i < COPIES && after[i] != image ensures OneWrongFrom(after, image, i + 1) {
      assert j <= i && before[i] != image;
      OneWrongKept(before, after, image, i, j);
    }
    var first := FirstWrong(after, image);
    if first == COPIES { NoneAfter(after, image, first + 1); }
    VoteRecovers(after, image, first);
  }

  lemma NoneAfter(c: seq<seq<byte>>, image: seq<byte>, from: nat)
    requires FiveCopies(c) && |image| == COPY_SIZE && from >= COPIES
    ensures OneWrongFrom(c, image, from)
  {
  }

  /** Three copies that are wrong in a bit outvote the other two. */
  lemma ThreeWrong(c: seq<seq<byte>>, image: seq<byte>, i: nat, j: nat, k: nat, pos: nat, bit: nat)
    requires FiveCopies(c) && |image| == COPY_SIZE && i < j < k < COPIES && pos < COPY_SIZE
    requires Wrong(c, image, i, pos, bit) && Wrong(c, image, j, pos, bit) && Wrong(c, image, k, pos, bit)
    ensures Vote(c) != image
  {
    hide Bit, Correct5;
    var x := image[pos];
    Correct5Majority(c[0][pos], c[1][pos], c[2][pos], c[3][pos], c[4][pos], bit);
    var w := (m: nat) requires m < COPIES => Wrong(c, image, m, pos, bit);
    assert Ones5(w(0), w(1), w(2), w(3), w(4)) >= 3;
    assert Vote(c)[pos] == VotedByte5(c[0][pos], c[1][pos], c[2][pos], c[3][pos], c[4][pos]);
  }

  /** A rewritten copy with two copies after it wrong in one bit: what it holds on the way may be wrong there as well. */
  lemma Outvoted(c: seq<seq<byte>>, image: seq<byte>, i: nat) returns (after: seq<seq<byte>>)
    requires FiveCopies(c) && |image| == COPY_SIZE && Vote(c) == image
    requires i < COPIES && c[i] != image && !OneWrongFrom(c, image, i + 1)
    ensures ScrubStep(c, after) && Vote(after) != image
  {
    hide Vote, Bit;
    var pos: nat, bit: nat, m: nat, n: nat :| pos < COPY_SIZE && i + 1 <= m < COPIES && i + 1 <= n < COPIES
                                              && Wrong(c, image, m, pos, bit) && Wrong(c, image, n, pos, bit) && m != n;
    after := seq(COPIES, k requires 0 <= k < COPIES => if k < i then image else if k == i then c[m] else c[k]);
    assert Reached(c, after, i);
    assert Wrong(after, image, i, pos, bit) && Wrong(after, image, m, pos, bit) && Wrong(after, image, n, pos, bit);
    ThreeWrong(after, image, i, if m < n then m else n, if m < n then n else m, pos, bit);
  }

  /** However a scrub is interrupted, the copies still vote for the image exactly when they are survivable. */
  lemma SurvivesExactly(c: seq<seq<byte>>, image: seq<byte>)
    requires FiveCopies(c) && |image| == COPY_SIZE
    ensures (forall after | ScrubStep(c, after) :: Vote(after) == image) <==> Survivable(c, image)
  {
    hide Vote, OneWrongFrom;
    if Survivable(c, image) {
      forall after | ScrubStep(c, after) ensures Vote(after) == image { StepSurvives(c, after, image); }
    } else if Vote(c) != image {
      NothingDone(c);
    } else {
      var i: nat :| i < COPIES && c[i] != image && !OneWrongFrom(c, image, i + 1);
      var after := Outvoted(c, image, i);
    }
  }

  lemma NothingDone(c: seq<seq<byte>>)
    requires FiveCopies(c)
    ensures ScrubStep(c, c)
  {
    assert Reached(c, c, 0);
  }

  /**
    * Any number of scrubs, each interrupted anywhere, with upsets between them that each leave the copies survivable:
    * the copies stay survivable, so they always vote for the image.
    */
  lemma {:induction false} InterruptedScrubs(states: seq<seq<seq<byte>>>, image: seq<byte>, n: nat)
    requires n < |states| && Survivable(states[0], image)
    requires forall k | 0 < k < |states| :: ScrubStep(states[k - 1], states[k]) || Survivable(states[k], image)
    ensures Survivable(states[n], image)
  {
    hide Survivable, ScrubStep;
    if n == 0 {
    } else {
      InterruptedScrubs(states, image, n - 1);
      if ScrubStep(states[n - 1], states[n]) { StepSurvives(states[n - 1], states[n], image); }
    }
  }

  /** A scrub that completes after any such run leaves the original image in every copy. */
  lemma CompletedAfterInterruptions(states: seq<seq<seq<byte>>>, image: seq<byte>, after: seq<seq<byte>>)
    requires |states| > 0 && Survivable(states[0], image)
    requires forall k | 0 < k < |states| :: ScrubStep(states[k - 1], states[k]) || Survivable(states[k], image)
    requires Reached(states[|states| - 1], after, COPIES)
    ensures forall i | 0 <= i < COPIES :: after[i] == image
  {
    hide OneWrongFrom, Vote, ScrubStep;
    InterruptedScrubs(states, image, |states| - 1);
  }

  // ---------- The scrubber ----------

  function WrongCopies(c: seq<seq<byte>>, n: nat): nat
    requires FiveCopies(c) && n <= COPIES
  {
    if n == 0 then 0 else WrongCopies(c, n - 1) + One(c[n - 1] != Vote(c))
  }

  function WrongSectors(mcu: seq<byte>, image: seq<byte>, n: nat): nat
    requires |mcu| == |image| && n * MCU_SECTOR <= |mcu|
  {
    if n == 0 then 0 else WrongSectors(mcu, image, n - 1) + WrongSector(mcu, image, n - 1)
  }

  function WrongSector(mcu: seq<byte>, image: seq<byte>, n: nat): nat
    requires |mcu| == |image| && (n + 1) * MCU_SECTOR <= |mcu|
  {
    One(mcu[n * MCU_SECTOR..(n + 1) * MCU_SECTOR] != image[n * MCU_SECTOR..(n + 1) * MCU_SECTOR])
  }

  predicate CopyDiffers(c: seq<seq<byte>>, i: nat)
    requires FiveCopies(c) && i < COPIES
  {
    c[i] != Vote(c)
  }

  predicate SectorDiffers(mcu: seq<byte>, image: seq<byte>, i: nat)
    requires |mcu| == |image|
  {
    (i + 1) * MCU_SECTOR <= |mcu| && mcu[i * MCU_SECTOR..(i + 1) * MCU_SECTOR] != image[i * MCU_SECTOR..(i + 1) * MCU_SECTOR]
  }

  /** The first counts the copies that are not what all vote for, the second the sectors that are not the image. */
  lemma {:induction false} WrongCopiesCount(c: seq<seq<byte>>, n: nat)
    requires FiveCopies(c) && n <= COPIES
    ensures WrongCopies(c, n) == |set i: nat | i < n && CopyDiffers(c, i)|
  {
    if n == 0 {
    } else {
      WrongCopiesCount(c, n - 1);
      CopyCounted(c, n - 1);
      hide *;
      var before, now := set i: nat | i < n - 1 && CopyDiffers(c, i), set i: nat | i < n && CopyDiffers(c, i);
      OneMoreIn(before, now, n - 1, CopyDiffers(c, n - 1));
    }
  }

  lemma CopyCounted(c: seq<seq<byte>>, n: nat)
    requires FiveCopies(c) && n < COPIES
    ensures WrongCopies(c, n + 1) == WrongCopies(c, n) + One(CopyDiffers(c, n))
  {
    hide Vote;
    assert n + 1 - 1 == n;
  }

  lemma {:induction false} WrongSectorsCount(mcu: seq<byte>, image: seq<byte>, n: nat)
    requires |mcu| == |image| && n * MCU_SECTOR <= |mcu|
    ensures WrongSectors(mcu, image, n) == |set i: nat | i < n && SectorDiffers(mcu, image, i)|
  {
    if n == 0 {
    } else {
      WrongSectorsCount(mcu, image, n - 1);
      assert WrongSectors(mcu, image, n) == WrongSectors(mcu, image, n - 1) + One(SectorDiffers(mcu, image, n - 1));
      hide *;
      var before, now := set i: nat | i < n - 1 && SectorDiffers(mcu, image, i), set i: nat | i < n && SectorDiffers(mcu, image, i);
      OneMoreIn(before, now, n - 1, SectorDiffers(mcu, image, n - 1));
    }
  }

  lemma OneMoreIn(before: set<nat>, now: set<nat>, n: nat, b: bool)
    requires n !in before && forall i: nat :: i in now <==> i in before || (i == n && b)
    ensures |now| == |before| + One(b)
  {
    if b {
      assert now == before + {n};
    } else {
      assert now == before;
    }
  }

  lemma SectorCounted(mcu: seq<byte>, image: seq<byte>, n: nat, count: nat, start: nat, counted: nat)
    requires |mcu| == |image| && (n + 1) * MCU_SECTOR <= |mcu|
    requires count == (start + WrongSectors(mcu, image, n)) % WORD_LIMIT
    requires counted == (count + WrongSector(mcu, image, n)) % WORD_LIMIT
    ensures counted == (start + WrongSectors(mcu, image, n + 1)) % WORD_LIMIT
  {
    hide WrongSector;
  }

  /** How many scrubs got the lock. */
  function TimesTaken(locks: seq<bool>): nat {
    if locks == [] then 0 else TimesTaken(locks[..|locks| - 1]) + One(locks[|locks| - 1])
  }

  /** BootloaderScrubbingStatus. */
  datatype Status = Status(iterations: nat, copiesCorrected: nat, mcuPagesCorrected: nat)

  /**
    * A scrub that got as far as sector `n` of the MCU: the sectors before it hold the image, those after it are as they
    * were, and sector `n` itself holds anything if it had to be rewritten.
    */
  ghost predicate McuReached(was: seq<byte>, image: seq<byte>, now: seq<byte>, n: nat) {
    && |was| == |image| == |now| == COPY_SIZE && n <= COPY_SIZE / MCU_SECTOR
    && (forall p | 0 <= p < n * MCU_SECTOR :: now[p] == image[p])
    && (forall p | (n + 1) * MCU_SECTOR <= p < COPY_SIZE :: now[p] == was[p])
    && (n < COPY_SIZE / MCU_SECTOR && WrongSector(was, image, n) == 0 ==>
          forall p | n * MCU_SECTOR <= p < (n + 1) * MCU_SECTOR :: now[p] == was[p])
  }

  class Scrubber {
    const scrubBuffer: array<byte>
    const flash: Device
    const mcuFlash: Device
    var iterationsCount: nat
    var copiesCorrected: nat
    var mcuPagesCorrected: nat
    /** How many scrubs were completed. */
    ghost var completed: nat

    /** The count of iterations is 0, however many there were. */
    ghost predicate Valid()
      reads this
    {
      && scrubBuffer.Length == COPY_SIZE == flash.sector && mcuFlash.sector == MCU_SECTOR
      && FIRST_COPY + COPIES * COPY_SIZE <= flash.mem.Length && COPY_SIZE <= mcuFlash.mem.Length
      && scrubBuffer != flash.mem && scrubBuffer != mcuFlash.mem && flash.mem != mcuFlash.mem
      && copiesCorrected < WORD_LIMIT && mcuPagesCorrected < WORD_LIMIT && iterationsCount == 0
    }

    constructor (scrubBuffer: array<byte>, flash: Device, mcuFlash: Device)
      requires scrubBuffer.Length == COPY_SIZE == flash.sector && mcuFlash.sector == MCU_SECTOR
      requires FIRST_COPY + COPIES * COPY_SIZE <= flash.mem.Length && COPY_SIZE <= mcuFlash.mem.Length
      requires scrubBuffer != flash.mem && scrubBuffer != mcuFlash.mem && flash.mem != mcuFlash.mem
      ensures Valid() && this.scrubBuffer == scrubBuffer && this.flash == flash && this.mcuFlash == mcuFlash
      ensures copiesCorrected == 0 && mcuPagesCorrected == 0 && completed == 0
    {
      this.scrubBuffer, this.flash, this.mcuFlash := scrubBuffer, flash, mcuFlash;
      iterationsCount, copiesCorrected, mcuPagesCorrected, completed := 0, 0, 0, 0;
    }

    /**
      * One scrub. `lockTaken` says whether the boot table lock was free, `power` for how many flash commands
      * the power supply lasts.
      */
    method Scrub(lockTaken: bool, power: nat) returns (finished: bool)
      requires Valid()
      modifies this`copiesCorrected, this`mcuPagesCorrected, this`completed, scrubBuffer, flash.mem, mcuFlash.mem
      ensures Valid() && (power >= 2 * (COPIES + COPY_SIZE / MCU_SECTOR) ==> finished)
      ensures completed == old(completed) + One(lockTaken && finished)
      ensures !lockTaken ==>
                && finished && flash.mem[..] == old(flash.mem[..]) && mcuFlash.mem[..] == old(mcuFlash.mem[..])
                && scrubBuffer[..] == old(scrubBuffer[..])
                && copiesCorrected == old(copiesCorrected) && mcuPagesCorrected == old(mcuPagesCorrected)
      ensures lockTaken ==> ScrubStep(old(Copies(flash.mem[..])), Copies(flash.mem[..]))
      ensures lockTaken && mcuFlash.mem[..] != old(mcuFlash.mem[..]) ==>
                (var was := old(Copies(flash.mem[..]));
                 && Reached(was, Copies(flash.mem[..]), COPIES)
                 && exists n: nat :: McuReached(old(mcuFlash.mem[..COPY_SIZE]), Vote(was), mcuFlash.mem[..COPY_SIZE], n))
      ensures lockTaken && finished ==>
                (var was := old(Copies(flash.mem[..]));
                 && Reached(was, Copies(flash.mem[..]), COPIES)
                 && mcuFlash.mem[..COPY_SIZE] == Vote(was)
                 && copiesCorrected == (old(copiesCorrected) + WrongCopies(was, COPIES)) % WORD_LIMIT
                 && mcuPagesCorrected
                    == (old(mcuPagesCorrected)
                        + WrongSectors(old(mcuFlash.mem[..COPY_SIZE]), Vote(was), COPY_SIZE / MCU_SECTOR)) % WORD_LIMIT)
      ensures forall p | 0 <= p < flash.mem.Length && !(FIRST_COPY <= p < CopyAt(COPIES)) :: flash.mem[p] == old(flash.mem[p])
      ensures forall p | COPY_SIZE <= p < mcuFlash.mem.Length :: mcuFlash.mem[p] == old(mcuFlash.mem[p])
    {
      hide Voted5, Copy, WrongCopies, WrongSectors, Reached, McuReached;
      if !lockTaken {
        return true;
      }
      ghost var was := Copies(flash.mem[..]);
      var spans := Copies(flash.mem[..]);
      var voted := CorrectBuffer5(scrubBuffer, spans, true);
      assert scrubBuffer[..] == Vote(was);
      hide Vote, Copies;
      var left: nat;
      left, finished := RewriteCopies(spans, power);
      if !finished {
        return;
      }
      label Copied:
      assert ScrubStep(was, Copies(flash.mem[..]));
      ghost var mcu, image := mcuFlash.mem[..COPY_SIZE], scrubBuffer[..];
      left, finished := RewriteMcu(left);
      ghost var n: nat :| McuReached(mcu, image, mcuFlash.mem[..COPY_SIZE], n);
      assert McuReached(old(mcuFlash.mem[..COPY_SIZE]), Vote(was), mcuFlash.mem[..COPY_SIZE], n);
      if finished {
        completed := completed + 1;
      }
    }

    /** What is reported: the number of iterations is right exactly as long as no scrub was completed. */
    method GetStatus() returns (s: Status)
      requires Valid()
      ensures s == Status(0, copiesCorrected, mcuPagesCorrected)
      ensures s.iterations == completed <==> completed == 0
    {
      return Status(iterationsCount, copiesCorrected, mcuPagesCorrected);
    }

    /** Scrubs one after the other, with the lock free or not each time. */
    method ScrubRepeatedly(locks: seq<bool>)
      requires Valid()
      modifies this`copiesCorrected, this`mcuPagesCorrected, this`completed, scrubBuffer, flash.mem, mcuFlash.mem
      ensures Valid() && iterationsCount == 0 && completed == old(completed) + TimesTaken(locks)
    {
      for n := 0 to |locks|
        invariant Valid() && completed == old(completed) + TimesTaken(locks[..n])
      {
        assert locks[..n + 1][..n] == locks[..n];
        var finished := Scrub(locks[n], 2 * (COPIES + COPY_SIZE / MCU_SECTOR));
      }
      assert locks[..|locks|] == locks;
    }

    /** After one scrub that gets the lock the report still says none. */
    method MiscountArises() returns (s: Status)
      requires Valid() && completed == 0
      modifies this`copiesCorrected, this`mcuPagesCorrected, this`completed, scrubBuffer, flash.mem, mcuFlash.mem
      ensures Valid() && completed == 1 && s.iterations == 0
    {
      assert TimesTaken([true]) == 1 by { assert [true][..0] == []; }
      ScrubRepeatedly([true]);
      s := GetStatus();
    }

    method RewriteCopies(spans: seq<seq<byte>>, power: nat) returns (left: nat, finished: bool)
      requires Valid() && spans == Copies(flash.mem[..]) && scrubBuffer[..] == Vote(spans)
      modifies this`copiesCorrected, flash.mem
      ensures Valid() && ScrubStep(spans, Copies(flash.mem[..]))
      ensures power >= 2 * COPIES ==> finished && left >= power - 2 * COPIES
      ensures finished ==> Reached(spans, Copies(flash.mem[..]), COPIES)
                           && copiesCorrected == (old(copiesCorrected) + WrongCopies(spans, COPIES)) % WORD_LIMIT
      ensures forall p | 0 <= p < flash.mem.Length && !(FIRST_COPY <= p < CopyAt(COPIES)) :: flash.mem[p] == old(flash.mem[p])
    {
      hide Vote, Copies, Copy;
      var image := scrubBuffer[..];
      var isCorrect := seq(COPIES, i requires 0 <= i < COPIES => spans[i] == image);
      left := power;
      for i := 0 to COPIES
        invariant Valid() && scrubBuffer[..] == image == Vote(spans)
        invariant Half(spans, Copies(flash.mem[..]), i)
        invariant power >= 2 * i ==> left >= power - 2 * i
        invariant copiesCorrected == (old(copiesCorrected) + WrongCopies(spans, i)) % WORD_LIMIT
        invariant forall p | 0 <= p < flash.mem.Length && !(FIRST_COPY <= p < CopyAt(COPIES)) :: flash.mem[p] == old(flash.mem[p])
      {
        if !isCorrect[i] {
          var alive;
          left, alive := RewriteCopy(i, left, spans);
          if !alive {
            return left, false;
          }
          copiesCorrected := (copiesCorrected + 1) % WORD_LIMIT;
        }
      }
      assert Reached(spans, Copies(flash.mem[..]), COPIES);
      return left, true;
    }

    /** Erases and writes one copy that is not the image. */
    method RewriteCopy(i: nat, power: nat, ghost spans: seq<seq<byte>>) returns (left: nat, alive: bool)
      requires Valid() && i < COPIES && Half(spans, Copies(flash.mem[..]), i)
      requires scrubBuffer[..] == Vote(spans) && spans[i] != Vote(spans)
      modifies flash.mem
      ensures (alive <==> power >= 2) && (alive ==> left == power - 2 && Half(spans, Copies(flash.mem[..]), i + 1))
      ensures !alive ==> Reached(spans, Copies(flash.mem[..]), i)
      ensures forall p | 0 <= p < flash.mem.Length && !(FIRST_COPY <= p < CopyAt(COPIES)) :: flash.mem[p] == old(flash.mem[p])
    {
      hide Vote, Copies, Copy;
      ghost var now := flash.mem[..];
      left, alive := flash.RewriteUnder(power, CopyAt(i), scrubBuffer[..]);
      OtherCopies(now, flash.mem[..], i);
      CopyIs(flash.mem[..], i);
    }

    method RewriteMcu(power: nat) returns (left: nat, finished: bool)
      requires Valid()
      modifies this`mcuPagesCorrected, mcuFlash.mem
      ensures Valid() && (power >= 2 * (COPY_SIZE / MCU_SECTOR) ==> finished)
      ensures finished ==>
                mcuFlash.mem[..COPY_SIZE] == scrubBuffer[..]
                && mcuPagesCorrected
                   == (old(mcuPagesCorrected)
                       + WrongSectors(old(mcuFlash.mem[..COPY_SIZE]), scrubBuffer[..], COPY_SIZE / MCU_SECTOR)) % WORD_LIMIT
      ensures exists n: nat :: McuReached(old(mcuFlash.mem[..COPY_SIZE]), scrubBuffer[..], mcuFlash.mem[..COPY_SIZE], n)
      ensures forall p | COPY_SIZE <= p < mcuFlash.mem.Length :: mcuFlash.mem[p] == old(mcuFlash.mem[p])
    {
      ghost var was, image := mcuFlash.mem[..COPY_SIZE], scrubBuffer[..];
      assert WrongSectors(was, image, 0) == 0;
      hide WrongSectors, WrongSector, McuReached;
      left := power;
      var offset := 0;
      ghost var n: nat := 0;
      while offset < COPY_SIZE
        invariant Valid() && scrubBuffer[..] == image && offset == n * MCU_SECTOR <= COPY_SIZE
        invariant power >= 2 * n ==> left >= power - 2 * n
        invariant forall p | 0 <= p < offset :: mcuFlash.mem[p] == image[p]
        invariant forall p | offset <= p < mcuFlash.mem.Length :: mcuFlash.mem[p] == old(mcuFlash.mem[p])
        invariant mcuPagesCorrected == (old(mcuPagesCorrected) + WrongSectors(was, image, n)) % WORD_LIMIT
        decreases COPY_SIZE - offset
      {
        ghost var count := mcuPagesCorrected;
        assert mcuFlash.mem[offset..offset + MCU_SECTOR] == old(mcuFlash.mem[..])[offset..offset + MCU_SECTOR];
        assert was[offset..offset + MCU_SECTOR] == old(mcuFlash.mem[..])[offset..offset + MCU_SECTOR];
        var alive;
        left, alive := RewriteSector(offset, left, was, n);
        if !alive {
          McuStopped(was, image, mcuFlash.mem[..COPY_SIZE], n, offset);
          return left, false;
        }
        SectorCounted(was, image, n, count, old(mcuPagesCorrected), mcuPagesCorrected);
        offset := offset + MCU_SECTOR;
        n := n + 1;
      }
      McuStopped(was, image, mcuFlash.mem[..COPY_SIZE], n, offset);
      return left, true;
    }

    /** Makes one sector of the MCU flash right. */
    method RewriteSector(offset: nat, power: nat, ghost was: seq<byte>, ghost n: nat) returns (left: nat, alive: bool)
      requires Valid() && offset == n * MCU_SECTOR < COPY_SIZE == |was|
      requires mcuFlash.mem[offset..offset + MCU_SECTOR] == was[offset..offset + MCU_SECTOR]
      modifies this`mcuPagesCorrected, mcuFlash.mem
      ensures Valid() && (power >= 2 ==> alive) && (alive ==> left + 2 >= power)
      ensures WrongSector(was, scrubBuffer[..], n) == 0 ==> alive
      ensures alive ==> (forall p | offset <= p < offset + MCU_SECTOR :: mcuFlash.mem[p] == scrubBuffer[p])
      ensures alive ==> mcuPagesCorrected == (old(mcuPagesCorrected) + WrongSector(was, scrubBuffer[..], n)) % WORD_LIMIT
      ensures forall p | 0 <= p < mcuFlash.mem.Length && !(offset <= p < offset + MCU_SECTOR) :: mcuFlash.mem[p] == old(mcuFlash.mem[p])
    {
      left, alive := power, true;
      assert scrubBuffer[..][offset..offset + MCU_SECTOR] == scrubBuffer[offset..offset + MCU_SECTOR];
      var isOk := mcuFlash.mem[offset..offset + MCU_SECTOR] == scrubBuffer[offset..offset + MCU_SECTOR];
      if !isOk {
        left, alive := mcuFlash.RewriteUnder(left, offset, scrubBuffer[offset..offset + MCU_SECTOR]);
        if !alive {
          return left, false;
        }
        mcuPagesCorrected := (mcuPagesCorrected + 1) % WORD_LIMIT;
      }
      assert mcuFlash.mem[..][offset..offset + MCU_SECTOR] == mcuFlash.mem[offset..offset + MCU_SECTOR];
      SectorDone(mcuFlash.mem[..], scrubBuffer[..], offset);
    }
  }

  lemma McuStopped(was: seq<byte>, image: seq<byte>, now: seq<byte>, n: nat, offset: nat)
    requires |was| == |image| == |now| == COPY_SIZE && offset == n * MCU_SECTOR <= COPY_SIZE
    requires forall p | 0 <= p < offset :: now[p] == image[p]
    requires forall p | offset + MCU_SECTOR <= p < COPY_SIZE :: now[p] == was[p]
    requires offset < COPY_SIZE ==> WrongSector(was, image, n) != 0
    ensures McuReached(was, image, now, n)
  {
  }

  /** The copies before `i` hold the image and those from `i` on are as they were. */
  ghost predicate Half(before: seq<seq<byte>>, now: seq<seq<byte>>, i: nat) {
    && FiveCopies(before) && FiveCopies(now) && i <= COPIES
    && (forall j | 0 <= j < i :: now[j] == Vote(before))
    && (forall j | i <= j < COPIES :: now[j] == before[j])
  }

  /** Changing one copy leaves the others. */
  lemma OtherCopies(before: seq<byte>, after: seq<byte>, i: nat)
    requires |before| == |after| && Holds(before) && i < COPIES
    requires forall p | 0 <= p < |before| && !(CopyAt(i) <= p < CopyAt(i) + COPY_SIZE) :: after[p] == before[p]
    ensures forall j | 0 <= j < COPIES && j != i :: Copies(after)[j] == Copies(before)[j]
  {
    forall j | 0 <= j < COPIES && j != i ensures Copies(after)[j] == Copies(before)[j] {
      assert Copies(after)[j] == Copy(after, j) && Copies(before)[j] == Copy(before, j);
    }
  }

  lemma CopyIs(mem: seq<byte>, i: nat)
    requires Holds(mem) && i < COPIES
    ensures Copies(mem)[i] == mem[CopyAt(i)..CopyAt(i) + COPY_SIZE]
  {
  }

  lemma SectorDone(mem: seq<byte>, image: seq<byte>, offset: nat)
    requires offset + MCU_SECTOR <= |mem| && offset + MCU_SECTOR <= |image|
    requires mem[offset..offset + MCU_SECTOR] == image[offset..offset + MCU_SECTOR]
    ensures forall p | offset <= p < offset + MCU_SECTOR :: mem[p] == image[p]
  {
    forall p | offset <= p < offset + MCU_SECTOR ensures mem[p] == image[p] {
      assert mem[offset..offset + MCU_SECTOR][p - offset] == image[offset..offset + MCU_SECTOR][p - offset];
    }
  }
}
