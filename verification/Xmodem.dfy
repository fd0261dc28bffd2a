/** The XMODEM receiver of the bootloader (boot/xmodem.cpp). */
module Xmodem {
  import opened Words
  import opened Flash
  import opened BootTable
  import C = Crc

  const SOH: byte := 1
  const EOT: byte := 4
  const ACK: byte := 6
  const NAK: byte := 21
  const NCG: byte := 67
  const DATA_SIZE := 128
  /** Header, packet number, its complement, the data and the two CRC bytes. */
  const PACKET_SIZE := 133

  // ---------- Packets ----------

  function Data(packet: seq<byte>): (d: seq<byte>)
    requires |packet| == PACKET_SIZE
    ensures |d| == DATA_SIZE
  {
    packet[3..3 + DATA_SIZE]
  }

  /** The packet number expected: the source takes the remainder of a signed integer. */
  function Expected(sequenceNumber: nat): int {
    if sequenceNumber < 0x8000_0000 then sequenceNumber % 256 else -((WORD_LIMIT - sequenceNumber) % 256)
  }

  predicate Verified(packet: seq<byte>, sequenceNumber: nat)
    requires |packet| == PACKET_SIZE
  {
    packet[1] as nat + packet[2] == 255 && packet[1] == Expected(sequenceNumber)
    && C.Crc(Data(packet)) == 256 * (packet[131] as nat) + packet[132]
  }

  method VerifyPacketChecksum(packet: seq<byte>, sequenceNumber: nat) returns (r: int)
    requires |packet| == PACKET_SIZE
    ensures r == if Verified(packet, sequenceNumber) then 0 else -1
  {
    hide C.Crc;
    if packet[1] as nat + packet[2] != 255 {
      return -1;
    }
    if packet[1] != Expected(sequenceNumber) {
      return -1;
    }
    var calculatedCrc := C.CrcOfRange(packet, 3, 131);
    var packetCrc := 256 * (packet[131] as nat) + packet[132];
    if calculatedCrc != packetCrc {
      return -1;
    }
    return 0;
  }

  /** The packet a sender makes of a block of data; blocks are numbered from 1. */
  function PacketOf(number: nat, data: seq<byte>): (p: seq<byte>)
    requires |data| == DATA_SIZE
    ensures |p| == PACKET_SIZE && Data(p) == data
  {
    CrcHigh(data);
    var p := [SOH, number % 256, 255 - number % 256] + data + [C.Crc(data) / 256, C.Crc(data) % 256];
    assert p[3..3 + DATA_SIZE] == data;
    p
  }

  lemma CrcHigh(data: seq<byte>)
    ensures C.Crc(data) / 256 < 256
  {
  }

  /** An error burst of at most sixteen bits in the data and the CRC does not get past the check. */
  lemma BurstRefused(data: seq<byte>, number: nat, damaged: seq<byte>, start: nat, sequenceNumber: nat)
    requires |data| == DATA_SIZE && |damaged| == PACKET_SIZE && damaged != PacketOf(number, data)
    requires damaged[..3] == PacketOf(number, data)[..3]
    requires forall i | 0 <= i < 8 * (DATA_SIZE + 2) && !(start <= i < start + 16) ::
               C.Message(damaged[3..])[i] == C.Message(PacketOf(number, data)[3..])[i]
    ensures !Verified(damaged, sequenceNumber)
  {
    hide C.Crc, C.Message;
    var sent, got := PacketOf(number, data)[3..], damaged[3..];
    assert damaged == damaged[..3] + got && PacketOf(number, data) == PacketOf(number, data)[..3] + sent;
    assert sent != got;
    C.BurstDetected(sent, got, start);
    assert sent == data + [sent[128], sent[129]] && got == Data(damaged) + [damaged[131], damaged[132]];
    C.AppendedCrc(data, sent[128], sent[129]);
    C.AppendedCrc(Data(damaged), damaged[131], damaged[132]);
  }

  /** A packet in which only the number, or only its complement, is damaged is refused. */
  lemma NumberDamaged(data: seq<byte>, number: nat, at: nat, value: byte, sequenceNumber: nat)
    requires |data| == DATA_SIZE && 1 <= at <= 2 && value != PacketOf(number, data)[at]
    ensures !Verified(PacketOf(number, data)[at := value], sequenceNumber)
  {
    hide C.Crc;
    var p := PacketOf(number, data);
    assert p[1] == number % 256 && p[2] == 255 - number % 256;
  }

  // ---------- What a byte stream makes the receiver do ----------

  datatype Outcome = Ended(length: nat) | Cancelled | Waiting

  /** The payloads written, in order, how the transfer ends, and the answers sent. */
  datatype Transfer = Transfer(payloads: seq<seq<byte>>, outcome: Outcome, replies: seq<byte>)

  /** `n` packets were accepted before. */
  function Received(input: seq<byte>, n: nat): (t: Transfer)
    ensures forall p | p in t.payloads :: |p| == DATA_SIZE
    decreases |input|
  {
    if input == [] then Transfer([], Waiting, [])
    else if input[0] == EOT then Transfer([], Ended(n * DATA_SIZE % WORD_LIMIT), [ACK])
    else if input[0] != SOH then Transfer([], Cancelled, [])
    else if |input| < PACKET_SIZE then Transfer([], Waiting, [])
    else
      var packet := input[..PACKET_SIZE];
      if Verified(packet, (n + 1) % WORD_LIMIT) then
        var rest := Received(input[PACKET_SIZE..], n + 1);
        rest.(payloads := [Data(packet)] + rest.payloads, replies := [ACK] + rest.replies)
      else
        var rest := Received(input[PACKET_SIZE..], n);
        rest.(replies := [NAK] + rest.replies)
  }

  function Concat(payloads: seq<seq<byte>>): (s: seq<byte>)
    requires forall p | p in payloads :: |p| == DATA_SIZE
    ensures |s| == DATA_SIZE * |payloads|
  {
    if payloads == [] then [] else payloads[0] + Concat(payloads[1..])
  }

  /** The written image. */
  function Image(input: seq<byte>): seq<byte> {
    Concat(Received(input, 0).payloads)
  }

  /** A transfer that ends returns the length of the image. */
  lemma {:induction false} EndedLength(input: seq<byte>, n: nat)
    ensures var t := Received(input, n);
            t.outcome.Ended? ==> t.outcome.length == (n + |t.payloads|) * DATA_SIZE % WORD_LIMIT
    decreases |input|
  {
    if |input| >= PACKET_SIZE && input[0] == SOH {
      var accepted := Verified(input[..PACKET_SIZE], (n + 1) % WORD_LIMIT);
      EndedLength(input[PACKET_SIZE..], if accepted then n + 1 else n);
    }
  }

  /** Where the transfer ends or waits. */
  lemma NothingToRead(input: seq<byte>, n: nat)
    ensures input == [] ==> Received(input, n) == Transfer([], Waiting, [])
    ensures input != [] && input[0] == EOT ==> Received(input, n) == Transfer([], Ended(n * DATA_SIZE % WORD_LIMIT), [ACK])
    ensures input != [] && input[0] != EOT && input[0] != SOH ==> Received(input, n) == Transfer([], Cancelled, [])
    ensures input != [] && input[0] == SOH && |input| < PACKET_SIZE ==> Received(input, n) == Transfer([], Waiting, [])
  {
  }

  /** One packet on, in terms of what is still to come. */
  lemma PacketReceived(packet: seq<byte>, more: seq<byte>, n: nat)
    requires |packet| == PACKET_SIZE && packet[0] == SOH
    ensures Received(packet + more, n)
         == if Verified(packet, (n + 1) % WORD_LIMIT)
            then Transfer([Data(packet)] + Received(more, n + 1).payloads, Received(more, n + 1).outcome,
                          [ACK] + Received(more, n + 1).replies)
            else Transfer(Received(more, n).payloads, Received(more, n).outcome, [NAK] + Received(more, n).replies)
  {
    hide Verified;
    assert (packet + more)[..PACKET_SIZE] == packet && (packet + more)[PACKET_SIZE..] == more;
  }

  // ---------- Against a stop-and-wait sender ----------

  /** The sender's current block and the blocks the receiver took, both counted from 0. */
  datatype Link = Link(sending: nat, taken: nat)

  /** A packet as it arrives and whether the answer to it arrives. */
  datatype Round = Round(packet: seq<byte>, answered: bool)

  function Blocks(padded: seq<byte>): nat {
    |padded| / DATA_SIZE
  }

  function Block(padded: seq<byte>, k: nat): (b: seq<byte>)
    requires k < Blocks(padded)
    ensures |b| == DATA_SIZE
  {
    padded[DATA_SIZE * k..DATA_SIZE * k + DATA_SIZE]
  }

  /** What can arrive while block `sending` is sent: its packet, or a packet whose check fails. */
  ghost predicate CanArrive(padded: seq<byte>, l: Link, r: Round) {
    && l.sending < Blocks(padded) && |r.packet| == PACKET_SIZE
    && (r.packet == PacketOf(l.sending + 1, Block(padded, l.sending))
        || (r.packet[0] == SOH && !Verified(r.packet, (l.taken + 1) % WORD_LIMIT)))
  }

  /** The sender goes on when it sees an acknowledgement; otherwise it sends the same block again. */
  function After(l: Link, r: Round): Link
    requires |r.packet| == PACKET_SIZE
  {
    if Verified(r.packet, (l.taken + 1) % WORD_LIMIT) then Link(if r.answered then l.sending + 1 else l.sending, l.taken + 1) else l
  }

  function AfterAll(l: Link, rounds: seq<Round>): Link
    requires forall r | r in rounds :: |r.packet| == PACKET_SIZE
    decreases |rounds|
  {
    if rounds == [] then l else AfterAll(After(l, rounds[0]), rounds[1..])
  }

  ghost predicate Possible(padded: seq<byte>, l: Link, rounds: seq<Round>)
    decreases |rounds|
  {
    rounds == [] || (CanArrive(padded, l, rounds[0]) && Possible(padded, After(l, rounds[0]), rounds[1..]))
  }

  function Stream(rounds: seq<Round>): seq<byte> {
    if rounds == [] then [] else rounds[0].packet + Stream(rounds[1..])
  }

  /** Blocks `a` up to `b`. */
  function Range(padded: seq<byte>, a: nat, b: nat): (bs: seq<seq<byte>>)
    requires a <= b <= Blocks(padded)
    ensures |bs| == b - a && forall p | p in bs :: |p| == DATA_SIZE
    decreases b - a
  {
    if a == b then [] else [Block(padded, a)] + Range(padded, a + 1, b)
  }

  /** A file of whole blocks whose length the receiver can return. */
  predicate Sendable(padded: seq<byte>) {
    |padded| % DATA_SIZE == 0 && |padded| < WORD_LIMIT
  }

  /** The receiver is level with the sender or one block ahead, when an acknowledgement was lost. */
  ghost predicate InStep(padded: seq<byte>, l: Link) {
    l.sending <= l.taken <= l.sending + 1 && l.taken <= Blocks(padded)
  }

  /** An intact packet passes the check exactly when its block is the next one. */
  lemma IntactPacket(padded: seq<byte>, l: Link)
    requires Sendable(padded) && InStep(padded, l) && l.sending < Blocks(padded)
    ensures Verified(PacketOf(l.sending + 1, Block(padded, l.sending)), (l.taken + 1) % WORD_LIMIT) <==> l.taken == l.sending
  {
    hide C.Crc;
    var data := Block(padded, l.sending);
    var p := PacketOf(l.sending + 1, data);
    assert p[1] == (l.sending + 1) % 256 && p[2] == 255 - (l.sending + 1) % 256;
    assert p[131] == C.Crc(data) / 256 && p[132] == C.Crc(data) % 256;
    assert Expected((l.taken + 1) % WORD_LIMIT) == (l.taken + 1) % 256;
  }

  /** One round: what is accepted is the next block. */
  lemma RoundTaken(padded: seq<byte>, l: Link, r: Round)
    requires Sendable(padded) && InStep(padded, l) && CanArrive(padded, l, r)
    ensures InStep(padded, After(l, r)) && r.packet[0] == SOH
    ensures Verified(r.packet, (l.taken + 1) % WORD_LIMIT) ==> l.taken < Blocks(padded) && Data(r.packet) == Block(padded, l.taken)
  {
    hide C.Crc, Verified;
    if r.packet == PacketOf(l.sending + 1, Block(padded, l.sending)) { IntactPacket(padded, l); }
  }

  lemma PossiblePackets(padded: seq<byte>, l: Link, rounds: seq<Round>)
    requires Possible(padded, l, rounds)
    ensures forall r | r in rounds :: |r.packet| == PACKET_SIZE
    decreases |rounds|
  {
    if rounds == [] {
    } else {
      PossiblePackets(padded, After(l, rounds[0]), rounds[1..]);
    }
  }

  /** The rounds make the receiver take the blocks in order, each once. */
  lemma {:induction false} BlocksTaken(padded: seq<byte>, l: Link, rounds: seq<Round>, rest: seq<byte>)
    requires Sendable(padded) && InStep(padded, l) && Possible(padded, l, rounds)
    ensures forall r | r in rounds :: |r.packet| == PACKET_SIZE
    ensures var m := AfterAll(l, rounds);
            && InStep(padded, m) && l.taken <= m.taken
            && Received(Stream(rounds) + rest, l.taken).payloads
               == Range(padded, l.taken, m.taken) + Received(rest, m.taken).payloads
            && Received(Stream(rounds) + rest, l.taken).outcome == Received(rest, m.taken).outcome
    decreases |rounds|
  {
    hide Verified, PacketOf, Block, Received, CanArrive, Range, Stream;
    PossiblePackets(padded, l, rounds);
    if rounds == [] {
      NoRounds(padded, l.taken, rest);
    } else {
      var r := rounds[0];
      RoundTaken(padded, l, r);
      var next := After(l, r);
      BlocksTaken(padded, next, rounds[1..], rest);
      var more := Stream(rounds[1..]) + rest;
      StreamStarts(rounds, rest);
      PacketReceived(r.packet, more, l.taken);
      var m := AfterAll(next, rounds[1..]);
      if next.taken > l.taken { RangeStarts(padded, l.taken, m.taken, Received(rest, m.taken).payloads); }
    }
  }

  /** One answer to each packet: an acknowledgement if the receiver took it, else a refusal. */
  function Answers(l: Link, rounds: seq<Round>): seq<byte>
    requires forall r | r in rounds :: |r.packet| == PACKET_SIZE
    decreases |rounds|
  {
    if rounds == [] then []
    else [if After(l, rounds[0]).taken > l.taken then 6 else 21] + Answers(After(l, rounds[0]), rounds[1..])
  }

  /** The receiver answers each packet of the rounds, with an acknowledgement exactly for those it took. */
  lemma {:induction false} AnswersTaken(padded: seq<byte>, l: Link, rounds: seq<Round>, rest: seq<byte>)
    requires Sendable(padded) && InStep(padded, l) && Possible(padded, l, rounds)
    ensures forall r | r in rounds :: |r.packet| == PACKET_SIZE
    ensures Received(Stream(rounds) + rest, l.taken).replies
         == Answers(l, rounds) + Received(rest, AfterAll(l, rounds).taken).replies
    decreases |rounds|
  {
    hide Verified, PacketOf, Block, Received, CanArrive, Stream;
    PossiblePackets(padded, l, rounds);
    if rounds == [] {
      NoRounds(padded, l.taken, rest);
      assert Received(rest, l.taken).replies == [] + Received(rest, l.taken).replies;
    } else {
      var r := rounds[0];
      RoundTaken(padded, l, r);
      var next := After(l, r);
      AnswersTaken(padded, next, rounds[1..], rest);
      StreamStarts(rounds, rest);
      PacketReceived(r.packet, Stream(rounds[1..]) + rest, l.taken);
    }
  }

  lemma NoRounds(padded: seq<byte>, a: nat, rest: seq<byte>)
    requires a <= Blocks(padded)
    ensures Stream([]) + rest == rest && Range(padded, a, a) + Received(rest, a).payloads == Received(rest, a).payloads
  {
    hide Received;
  }

  lemma StreamStarts(rounds: seq<Round>, rest: seq<byte>)
    requires rounds != []
    ensures Stream(rounds) + rest == rounds[0].packet + (Stream(rounds[1..]) + rest)
  {
  }

  lemma RangeStarts(padded: seq<byte>, a: nat, b: nat, rest: seq<seq<byte>>)
    requires a < b <= Blocks(padded)
    ensures Range(padded, a, b) + rest == [Block(padded, a)] + (Range(padded, a + 1, b) + rest)
  {
  }

  /**
    * Once an acknowledgement is lost the transfer never gets on: the receiver refuses the block it already has,
    * and the sender sends no other.
    */
  lemma {:induction false} LostAnswerBlocks(padded: seq<byte>, l: Link, rounds: seq<Round>)
    requires Sendable(padded) && l.taken == l.sending + 1 <= Blocks(padded) && Possible(padded, l, rounds)
    ensures forall r | r in rounds :: |r.packet| == PACKET_SIZE
    ensures AfterAll(l, rounds) == l
    decreases |rounds|
  {
    hide Verified, PacketOf, Block;
    PossiblePackets(padded, l, rounds);
    if rounds == [] {
    } else {
      IntactPacket(padded, l);
      LostAnswerBlocks(padded, l, rounds[1..]);
    }
  }

  /** The rounds take the sender to the end of the file. */
  ghost predicate Completes(padded: seq<byte>, l: Link, rounds: seq<Round>) {
    && Possible(padded, l, rounds) && (forall r | r in rounds :: |r.packet| == PACKET_SIZE)
    && AfterAll(l, rounds).sending == Blocks(padded)
  }

  /** The blocks from `k` on, each arriving intact and answered. */
  function Undisturbed(padded: seq<byte>, k: nat): seq<Round>
    requires k <= Blocks(padded)
    decreases Blocks(padded) - k
  {
    if k == Blocks(padded) then [] else [Round(PacketOf(k + 1, Block(padded, k)), true)] + Undisturbed(padded, k + 1)
  }

  lemma {:induction false} UndisturbedCompletes(padded: seq<byte>, k: nat)
    requires Sendable(padded) && k <= Blocks(padded)
    ensures Completes(padded, Link(k, k), Undisturbed(padded, k))
    decreases Blocks(padded) - k
  {
    hide Verified, PacketOf, Block;
    if k == Blocks(padded) {
      assert Undisturbed(padded, k) == [];
    } else {
      IntactPacket(padded, Link(k, k));
      UndisturbedCompletes(padded, k + 1);
      var r, rest := Round(PacketOf(k + 1, Block(padded, k)), true), Undisturbed(padded, k + 1);
      assert ([r] + rest)[0] == r && ([r] + rest)[1..] == rest;
    }
  }

  /** A transfer can still be completed exactly when the receiver is not ahead of the sender. */
  lemma CanComplete(padded: seq<byte>, l: Link)
    requires Sendable(padded) && InStep(padded, l)
    ensures (exists rounds :: Completes(padded, l, rounds)) <==> l.taken == l.sending
  {
    if l.taken == l.sending {
      UndisturbedCompletes(padded, l.sending);
    } else {
      forall rounds ensures !Completes(padded, l, rounds) {
        if Completes(padded, l, rounds) {
          LostAnswerBlocks(padded, l, rounds);
          assert false;
        }
      }
    }
  }

  /** Every packet that was accepted was answered. */
  predicate AllAnswered(l: Link, rounds: seq<Round>)
    requires forall r | r in rounds :: |r.packet| == PACKET_SIZE
    decreases |rounds|
  {
    rounds == []
    || ((Verified(rounds[0].packet, (l.taken + 1) % WORD_LIMIT) ==> rounds[0].answered) && AllAnswered(After(l, rounds[0]), rounds[1..]))
  }

  /** The receiver is level with the sender exactly when no answer to an accepted packet was lost. */
  lemma {:induction false} LevelWhenAnswered(padded: seq<byte>, l: Link, rounds: seq<Round>)
    requires Sendable(padded) && l.taken == l.sending <= Blocks(padded) && Possible(padded, l, rounds)
    ensures forall r | r in rounds :: |r.packet| == PACKET_SIZE
    ensures AfterAll(l, rounds).taken == AfterAll(l, rounds).sending <==> AllAnswered(l, rounds)
    decreases |rounds|
  {
    hide Verified, PacketOf, Block, CanArrive;
    PossiblePackets(padded, l, rounds);
    if rounds == [] {
    } else {
      RoundTaken(padded, l, rounds[0]);
      var next := After(l, rounds[0]);
      if next.taken == next.sending {
        LevelWhenAnswered(padded, next, rounds[1..]);
      } else {
        LostAnswerBlocks(padded, next, rounds[1..]);
      }
    }
  }

  /** One block of zeros that arrives intact and whose acknowledgement is lost: no further rounds complete the transfer. */
  lemma LostAnswerArises()
    ensures var file: seq<byte> := seq(DATA_SIZE, _ => 0);
            var rounds := [Round(PacketOf(1, file), false)];
            && Sendable(file) && Possible(file, Link(0, 0), rounds) && AfterAll(Link(0, 0), rounds) == Link(0, 1)
            && forall more :: !Completes(file, Link(0, 1), more)
  {
    hide Verified, PacketOf;
    var file: seq<byte> := seq(DATA_SIZE, _ => 0);
    var r := Round(PacketOf(1, file), false);
    assert Block(file, 0) == file;
    IntactPacket(file, Link(0, 0));
    assert [r][0] == r && [r][1..] == [];
    assert Possible(file, After(Link(0, 0), r), []);
    CanComplete(file, Link(0, 1));
  }

  lemma {:induction false} ConcatRange(padded: seq<byte>, a: nat, b: nat)
    requires a <= b <= Blocks(padded)
    ensures Concat(Range(padded, a, b)) == padded[DATA_SIZE * a..DATA_SIZE * b]
    decreases b - a
  {
    if a >= b {
    } else {
      ConcatRange(padded, a + 1, b);
      assert padded[DATA_SIZE * a..DATA_SIZE * b] == Block(padded, a) + padded[DATA_SIZE * (a + 1)..DATA_SIZE * b];
    }
  }

  /**
    * Whatever is damaged, repeated or left unanswered, the image is a prefix of the padded file.
    * A packet may be cut short at the end of what arrived.
    */
  lemma ImageIsPrefix(padded: seq<byte>, rounds: seq<Round>, cut: seq<byte>)
    requires Sendable(padded) && Possible(padded, Link(0, 0), rounds)
    requires cut == [] || (cut[0] == SOH && |cut| < PACKET_SIZE)
    ensures forall r | r in rounds :: |r.packet| == PACKET_SIZE
    ensures InStep(padded, AfterAll(Link(0, 0), rounds))
    ensures Image(Stream(rounds) + cut) == padded[..DATA_SIZE * AfterAll(Link(0, 0), rounds).taken]
    ensures Received(Stream(rounds) + cut, 0).outcome == Waiting
  {
    hide Verified, Block, Concat, Received, AfterAll, Possible;
    BlocksTaken(padded, Link(0, 0), rounds, cut);
    var taken := AfterAll(Link(0, 0), rounds).taken;
    NothingToRead(cut, taken);
    ConcatRange(padded, 0, taken);
    assert Range(padded, 0, taken) + [] == Range(padded, 0, taken);
  }

  /** When the sender has seen every block acknowledged and ends the transfer, the image is the file and its length is returned. */
  lemma ImageIsFile(padded: seq<byte>, rounds: seq<Round>)
    requires Sendable(padded) && Possible(padded, Link(0, 0), rounds)
    ensures forall r | r in rounds :: |r.packet| == PACKET_SIZE
    ensures AfterAll(Link(0, 0), rounds).sending == Blocks(padded) ==>
              Image(Stream(rounds) + [EOT]) == padded && Received(Stream(rounds) + [EOT], 0).outcome == Ended(|padded|)
  {
    hide Verified, Block, Concat, Received, AfterAll, Possible, Range, Stream, Sendable;
    BlocksTaken(padded, Link(0, 0), rounds, [EOT]);
    var taken := AfterAll(Link(0, 0), rounds).taken;
    NothingToRead([EOT], taken);
    ConcatRange(padded, 0, taken);
    assert Range(padded, 0, taken) + [] == Range(padded, 0, taken);
    if taken == Blocks(padded) { WholeFile(padded, taken); }
  }

  lemma WholeFile(padded: seq<byte>, taken: nat)
    requires Sendable(padded) && taken == Blocks(padded)
    ensures taken * DATA_SIZE % WORD_LIMIT == DATA_SIZE * taken == |padded| && padded[DATA_SIZE * 0..DATA_SIZE * taken] == padded
  {
  }

  // ---------- The receiver ----------

  lemma {:induction false} ConcatMore(done: seq<seq<byte>>, p: seq<byte>)
    requires (forall q | q in done :: |q| == DATA_SIZE) && |p| == DATA_SIZE
    ensures Concat(done + [p]) == Concat(done) + p
  {
    if done == [] {
      assert [] + [p] == [p] && [p][1..] == [];
    } else {
      assert (done + [p])[1..] == done[1..] + [p];
      ConcatMore(done[1..], p);
    }
  }

  /** The content of an entry: the image so far, and erased cells after it. */
  ghost predicate ContentIs(mem: seq<byte>, index: nat, image: seq<byte>)
    requires index < ENTRIES && ENTRIES * ENTRY_SIZE <= |mem|
  {
    var at := index * ENTRY_SIZE + CONTENT_AT;
    forall p | at <= p < (index + 1) * ENTRY_SIZE :: mem[p] == if p - at < |image| then image[p - at] else ERASED
  }

  /** What an upload of `image` makes of the flash: its content in the entry, and nothing elsewhere if it fits. */
  ghost predicate Stored(start: seq<byte>, mem: seq<byte>, index: nat, image: seq<byte>)
    requires index < ENTRIES && ENTRIES * ENTRY_SIZE <= |mem| == |start|
  {
    && (|image| <= WORD_LIMIT ==> ContentIs(mem, index, image))
    && (|image| <= ENTRY_SIZE - CONTENT_AT ==>
         forall p | 0 <= p < |mem| && !(index * ENTRY_SIZE <= p < (index + 1) * ENTRY_SIZE) :: mem[p] == start[p])
  }

  lemma NextWritten(before: seq<byte>, after: seq<byte>, index: nat, image: seq<byte>, data: seq<byte>)
    requires index < ENTRIES && ENTRIES * ENTRY_SIZE <= |before| == |after| && |data| == DATA_SIZE && |image| % DATA_SIZE == 0
    requires ContentIs(before, index, image)
    requires var at := index * ENTRY_SIZE + CONTENT_AT + |image|;
             forall p | 0 <= p < |before| ::
               after[p] == if at <= p < at + DATA_SIZE && at + DATA_SIZE <= |before| then Programmed(before[p], data[p - at]) else before[p]
    ensures ContentIs(after, index, image + data)
  {
    hide Programmed;
    var at := index * ENTRY_SIZE + CONTENT_AT;
    forall p | at <= p < (index + 1) * ENTRY_SIZE
      ensures after[p] == if p - at < |image + data| then (image + data)[p - at] else ERASED
    {
      if |image| <= p - at < |image| + DATA_SIZE {
        WholeBlocks(|image|);
        ErasedCellTakes(data[p - at - |image|]);
      }
    }
  }

  lemma WholeBlocks(n: nat)
    requires n % DATA_SIZE == 0 && n < ENTRY_SIZE - CONTENT_AT
    ensures n + DATA_SIZE <= ENTRY_SIZE - CONTENT_AT
  {
  }

  class Receiver {
    const flash: Device

    /** The flash has whole sectors for every entry of the boot table. */
    ghost predicate Valid() {
      flash.sector == SECTOR && ENTRIES * ENTRY_SIZE <= flash.mem.Length
    }

    constructor (flash: Device)
      requires flash.sector == SECTOR && ENTRIES * ENTRY_SIZE <= flash.mem.Length
      ensures Valid() && this.flash == flash
    {
      this.flash := flash;
    }

    method EraseEntry(index: nat)
      requires Valid() && index < ENTRIES
      modifies flash.mem
      ensures forall p | 0 <= p < flash.mem.Length ::
                flash.mem[p] == if index * ENTRY_SIZE <= p < (index + 1) * ENTRY_SIZE then ERASED else old(flash.mem[p])
    {
      var sectorOffset := 0;
      while sectorOffset < ENTRY_SIZE
        invariant sectorOffset % SECTOR == 0 && sectorOffset <= ENTRY_SIZE
        invariant forall p | 0 <= p < flash.mem.Length ::
                    flash.mem[p] == if index * ENTRY_SIZE <= p < index * ENTRY_SIZE + sectorOffset then ERASED else old(flash.mem[p])
        decreases ENTRY_SIZE - sectorOffset
      {
        flash.EraseSector(index * ENTRY_SIZE + sectorOffset);
        sectorOffset := sectorOffset + SECTOR;
      }
    }

    /** Data beyond the end of the device is lost. */
    method WriteContent(index: nat, offset: nat, data: seq<byte>)
      requires Valid() && index < ENTRIES
      modifies flash.mem
      ensures var at := index * ENTRY_SIZE + CONTENT_AT + offset;
              forall p | 0 <= p < flash.mem.Length ::
                flash.mem[p] == if at <= p < at + |data| && at + |data| <= flash.mem.Length then Programmed(old(flash.mem[p]), data[p - at])
                                else old(flash.mem[p])
    {
      hide Programmed;
      var at := index * ENTRY_SIZE + CONTENT_AT + offset;
      if at + |data| <= flash.mem.Length {
        flash.Program(at, data);
      }
    }

    /**
      * One upload into an entry, for the bytes that arrive. The image is in the entry, as far as it fits,
      * and other entries are touched only by an image that does not fit. A cancelled upload returns 0.
      */
    method Upload(index: nat, input: seq<byte>) returns (outcome: Outcome, replies: seq<byte>)
      requires Valid() && index < ENTRIES
      modifies flash.mem
      ensures outcome == Received(input, 0).outcome && replies == [NCG] + Received(input, 0).replies
      ensures Stored(old(flash.mem[..]), flash.mem[..], index, Image(input))
    {
      hide Verified, Received, Concat, Image, Stored, Data, Progress, NextNumber;
      ghost var start := flash.mem[..];
      EraseEntry(index);
      replies := [NCG];
      ghost var done: seq<seq<byte>>, image: seq<byte> := [], [];
      var pos, sequenceNumber := 0, 1;
      NothingWritten(start, flash.mem[..], index);
      ProgressStart(input);
      Numbers(0);
      while true
        invariant pos <= |input| && sequenceNumber == NextNumber(|done|) && Progress(input, pos, done, replies, image)
        invariant Stored(start, flash.mem[..], index, image)
        decreases |input| - pos
      {
        ProgressEnds(input, pos, done, replies, image);
        Numbers(|done|);
        if pos == |input| {
          return Waiting, replies;
        }
        var header := input[pos];
        if header == EOT {
          replies := replies + [ACK];
          return Ended((sequenceNumber - 1) * DATA_SIZE % WORD_LIMIT), replies;
        }
        if header != SOH {
          return Cancelled, replies;
        }
        if pos + PACKET_SIZE > |input| {
          return Waiting, replies;
        }
        var packet := input[pos..pos + PACKET_SIZE];
        var r := VerifyPacketChecksum(packet, sequenceNumber);
        ProgressPacket(input, pos, done, replies, image, packet);
        pos := pos + PACKET_SIZE;
        if r != 0 {
          replies := replies + [NAK];
          continue;
        }
        WriteBlock(index, sequenceNumber, Data(packet), start, image);
        done, image := done + [Data(packet)], image + Data(packet);
        sequenceNumber := (sequenceNumber + 1) % WORD_LIMIT;
        replies := replies + [ACK];
      }
    }

    /** The payload of an accepted packet goes where the image so far ends. */
    method WriteBlock(index: nat, sequenceNumber: nat, data: seq<byte>, ghost start: seq<byte>, ghost image: seq<byte>)
      requires Valid() && index < ENTRIES && |data| == DATA_SIZE && |image| % DATA_SIZE == 0
      requires sequenceNumber == (|image| / DATA_SIZE + 1) % WORD_LIMIT
      requires |start| == flash.mem.Length && Stored(start, flash.mem[..], index, image)
      modifies flash.mem
      ensures Stored(start, flash.mem[..], index, image + data)
    {
      hide ContentIs, Programmed;
      ghost var before := flash.mem[..];
      WriteContent(index, (sequenceNumber - 1) * DATA_SIZE % WORD_LIMIT, data);
      if |image + data| <= WORD_LIMIT {
        NextWritten(before, flash.mem[..], index, image, data);
      }
    }
  }

  /** The 32-bit number of the packet after `n` accepted ones. */
  function NextNumber(n: nat): nat {
    (n + 1) % WORD_LIMIT
  }

  lemma Numbers(n: nat)
    ensures NextNumber(n) < WORD_LIMIT && NextNumber(n) == (n + 1) % WORD_LIMIT
    ensures (NextNumber(n) + 1) % WORD_LIMIT == NextNumber(n + 1)
    ensures (NextNumber(n) - 1) * DATA_SIZE % WORD_LIMIT == n * DATA_SIZE % WORD_LIMIT
  {
  }

  // ---------- The progress of an upload ----------

  /** Up to `pos` the packets in `done` were accepted, with `replies` sent and `image` written. */
  ghost predicate Progress(input: seq<byte>, pos: nat, done: seq<seq<byte>>, replies: seq<byte>, image: seq<byte>)
    requires pos <= |input|
  {
    var whole, rest := Received(input, 0), Received(input[pos..], |done|);
    && (forall q | q in done :: |q| == DATA_SIZE) && image == Concat(done)
    && whole.payloads == done + rest.payloads && whole.outcome == rest.outcome && [NCG] + whole.replies == replies + rest.replies
  }

  lemma ProgressStart(input: seq<byte>)
    ensures Progress(input, 0, [], [NCG], [])
  {
    hide Received;
    assert input[0..] == input;
  }

  /** The transfer ends or waits with what was done so far. */
  lemma ProgressEnds(input: seq<byte>, pos: nat, done: seq<seq<byte>>, replies: seq<byte>, image: seq<byte>)
    requires pos <= |input| && Progress(input, pos, done, replies, image)
    ensures |image| == DATA_SIZE * |done|
    ensures pos == |input| || input[pos] != SOH || pos + PACKET_SIZE > |input| ==> image == Image(input)
    ensures var whole := Received(input, 0);
            && (pos == |input| || (input[pos] == SOH && pos + PACKET_SIZE > |input|) ==>
                 whole.outcome == Waiting && [NCG] + whole.replies == replies)
            && (pos < |input| && input[pos] == EOT ==>
                 whole.outcome == Ended(|done| * DATA_SIZE % WORD_LIMIT) && [NCG] + whole.replies == replies + [ACK])
            && (pos < |input| && input[pos] != EOT && input[pos] != SOH ==>
                 whole.outcome == Cancelled && [NCG] + whole.replies == replies)
  {
    hide Received, Concat;
    NothingToRead(input[pos..], |done|);
    assert done + [] == done && replies + [] == replies;
  }

  lemma ProgressPacket(input: seq<byte>, pos: nat, done: seq<seq<byte>>, replies: seq<byte>, image: seq<byte>, packet: seq<byte>)
    requires pos + PACKET_SIZE <= |input| && packet == input[pos..pos + PACKET_SIZE] && packet[0] == SOH
    requires Progress(input, pos, done, replies, image)
    ensures if Verified(packet, (|done| + 1) % WORD_LIMIT)
            then Progress(input, pos + PACKET_SIZE, done + [Data(packet)], replies + [ACK], image + Data(packet))
            else Progress(input, pos + PACKET_SIZE, done, replies + [NAK], image)
  {
    hide Received, Concat, Verified, Data;
    var more := input[pos + PACKET_SIZE..];
    assert input[pos..] == packet + more;
    PacketReceived(packet, more, |done|);
    ConcatMore(done, Data(packet));
  }

  lemma NothingWritten(start: seq<byte>, mem: seq<byte>, index: nat)
    requires index < ENTRIES && ENTRIES * ENTRY_SIZE <= |mem| == |start|
    requires forall p | 0 <= p < |mem| ::
               mem[p] == if index * ENTRY_SIZE <= p < (index + 1) * ENTRY_SIZE then ERASED else start[p]
    ensures Stored(start, mem, index, []) && Concat([]) == []
  {
  }
}
