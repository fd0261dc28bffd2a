/** The external program flash (libs/drivers/program_flash): erased in whole sectors, programming only clears bits. */
module Flash {
  import opened Words

  const SECTOR := 65536
  const ERASED: byte := 255

  lemma AndByteBound(a: byte, b: byte)
    ensures And(a, b) < 256
  {
    Pow2Values();
    forall k: nat | 8 <= k ensures !Bit(And(a, b), k) {
      AndBits(a, b, k);
      HighBits(a, 8, k);
    }
    BoundedBits(And(a, b), 8);
  }

  /** What a cell holds after `wanted` is programmed over `held`. */
  function Programmed(held: byte, wanted: byte): byte {
    AndByteBound(held, wanted);
    And(held, wanted)
  }

  /** Programming only clears bits. */
  lemma ProgrammingClears(held: byte, wanted: byte, k: nat)
    ensures Bit(Programmed(held, wanted), k) <==> Bit(held, k) && Bit(wanted, k)
  {
    AndBits(held, wanted, k);
  }

  /** An erased cell takes any value. */
  lemma ErasedCellTakes(wanted: byte)
    ensures Programmed(ERASED, wanted) == wanted
  {
    Pow2Values();
    forall k: nat ensures Bit(And(ERASED, wanted), k) == Bit(wanted, k) {
      AndBits(ERASED, wanted, k);
      OnesBits(8, k);
      if k >= 8 { HighBits(wanted, 8, k); }
    }
    SameBits(And(ERASED, wanted), wanted);
  }

  class Device {
    const mem: array<byte>
    /** The erase unit. */
    const sector: nat

    constructor (size: nat, sector: nat)
      ensures fresh(mem) && mem.Length == size && this.sector == sector
    {
      mem := new byte[size];
      this.sector := sector;
    }

    ghost predicate IsSector(offset: nat) {
      sector > 0 && offset % sector == 0 && offset + sector <= mem.Length
    }

    method EraseSector(offset: nat)
      requires IsSector(offset)
      modifies mem
      ensures forall p | 0 <= p < mem.Length :: mem[p] == if offset <= p < offset + sector then ERASED else old(mem[p])
    {
      for i := 0 to sector
        invariant forall p | 0 <= p < mem.Length :: mem[p] == if offset <= p < offset + i then ERASED else old(mem[p])
      {
        mem[offset + i] := ERASED;
      }
    }

    method Program(offset: nat, data: seq<byte>)
      requires offset + |data| <= mem.Length
      modifies mem
      ensures forall p | 0 <= p < mem.Length ::
                mem[p] == if offset <= p < offset + |data| then Programmed(old(mem[p]), data[p - offset]) else old(mem[p])
    {
      hide Programmed;
      for i := 0 to |data|
        invariant forall p | 0 <= p < mem.Length ::
                    mem[p] == if offset <= p < offset + i then Programmed(old(mem[p]), data[p - offset]) else old(mem[p])
      {
        mem[offset + i] := Programmed(mem[offset + i], data[i]);
      }
    }

    /** Erasing and programming a sector leaves exactly the data in it. */
    method Rewrite(offset: nat, data: seq<byte>)
      requires IsSector(offset) && |data| == sector
      modifies mem
      ensures mem[offset..offset + sector] == data
      ensures forall p | 0 <= p < mem.Length && !(offset <= p < offset + sector) :: mem[p] == old(mem[p])
    {
      hide Programmed;
      EraseSector(offset);
      Program(offset, data);
      forall p | offset <= p < offset + sector ensures mem[p] == data[p - offset] { ErasedCellTakes(data[p - offset]); }
    }

    /** The power fails while a sector is erased or programmed: it may hold anything afterwards. */
    method Interrupted(offset: nat)
      requires IsSector(offset)
      modifies mem
      ensures forall p | 0 <= p < mem.Length && !(offset <= p < offset + sector) :: mem[p] == old(mem[p])
    {
      for i := 0 to sector
        invariant forall p | 0 <= p < mem.Length && !(offset <= p < offset + sector) :: mem[p] == old(mem[p])
      {
        mem[offset + i] := *;
      }
    }

    /** A rewrite under a power supply that lasts for `power` more flash commands. */
    method RewriteUnder(power: nat, offset: nat, data: seq<byte>) returns (left: nat, alive: bool)
      requires IsSector(offset) && |data| == sector
      modifies mem
      ensures alive <==> power >= 2
      ensures alive ==> left == power - 2 && mem[offset..offset + sector] == data
      ensures forall p | 0 <= p < mem.Length && !(offset <= p < offset + sector) :: mem[p] == old(mem[p])
    {
      if power < 2 {
        Interrupted(offset);
        return 0, false;
      }
      Rewrite(offset, data);
      return power - 2, true;
    }
  }
}
