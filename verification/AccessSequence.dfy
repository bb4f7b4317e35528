/** Any sequence of byte, word and long writes, seen as one flat map of bytes. */
module AccessSequence {
  import opened Words
  import opened Memories

  datatype Access = Access(size: Size, address: u32, value: u32) {
    predicate Valid() {
      value < size.Modulus()
    }

    /** Word and long accesses at odd addresses do nothing. */
    predicate Refused() {
      size != Byte && !Even(address)
    }

    /** The byte at an offset from the address, most significant first. */
    function ByteAt(i: nat): u8
      requires Valid() && i < size.Bytes()
    {
      match size
      case Byte => value
      case Word => if i == 0 then value / 0x100 else value % 0x100
      case Long =>
        if i == 0 then value / 0x100_0000 else if i == 1 then value / 0x1_0000 % 0x100
        else if i == 2 then value / 0x100 % 0x100 else value % 0x100
    }

    function Apply(ram: Ram): Ram
      requires Valid()
    {
      if Refused() then ram else WriteSized(ram, size, address, value)
    }
  }

  ghost predicate AllValid(accesses: seq<Access>) {
    forall i :: 0 <= i < |accesses| ==> accesses[i].Valid()
  }

  /** Memory after the accesses, one after the other. */
  function ApplyAll(ram: Ram, accesses: seq<Access>): Ram
    requires AllValid(accesses)
  {
    if accesses == [] then ram
    else accesses[|accesses| - 1].Apply(ApplyAll(ram, accesses[..|accesses| - 1]))
  }

  /** The offset at which an access covers byte `k`, or its size when it does not. */
  function Offset(a: Access, k: int): (i: nat)
    ensures i <= a.size.Bytes()
    ensures i < a.size.Bytes() ==> Cell(a.address + i) == k
  {
    if Cell(a.address) == k then 0
    else if a.size != Byte && Cell(a.address + 1) == k then 1
    else if a.size == Long && Cell(a.address + 2) == k then 2
    else if a.size == Long && Cell(a.address + 3) == k then 3
    else a.size.Bytes()
  }

  /** Byte `k` after the accesses: what the last one that covers it put there. */
  function LastWritten(ram: Ram, accesses: seq<Access>, k: int): u8
    requires 0 <= k < MEM_MAX && AllValid(accesses)
  {
    if accesses == [] then ram[k]
    else
      var last, before := accesses[|accesses| - 1], accesses[..|accesses| - 1];
      if !last.Refused() && Offset(last, k) < last.size.Bytes() then last.ByteAt(Offset(last, k))
      else LastWritten(ram, before, k)
  }

  lemma LongWins(ram: Ram, a: Access, k: int)
    requires a.Valid() && a.size == Long && 0 <= k < MEM_MAX
    ensures Write32(ram, a.address, a.value)[k] == if Offset(a, k) < 4 then a.ByteAt(Offset(a, k)) else ram[k]
  {
    hide Cell;
    DistinctCells(a.address, 0, 1);
    DistinctCells(a.address, 0, 2);
    DistinctCells(a.address, 0, 3);
    DistinctCells(a.address, 1, 2);
    DistinctCells(a.address, 1, 3);
    DistinctCells(a.address, 2, 3);
    LongBytes(a.value);
  }

  lemma LastWriteWins(ram: Ram, a: Access, k: int)
    requires a.Valid() && 0 <= k < MEM_MAX
    ensures WriteSized(ram, a.size, a.address, a.value)[k]
         == if Offset(a, k) < a.size.Bytes() then a.ByteAt(Offset(a, k)) else ram[k]
  {
    hide Cell;
    if a.size == Long {
      hide Write32;
      LongWins(ram, a, k);
    } else {
      DistinctCells(a.address, 0, 1);
    }
  }

  /** Every byte of memory is the last one written to it, whatever the sizes of the accesses, across the end of
      the address space too. */
  lemma {:induction false} MemoryIsFlat(ram: Ram, accesses: seq<Access>, k: int)
    requires 0 <= k < MEM_MAX && AllValid(accesses)
    ensures ApplyAll(ram, accesses)[k] == LastWritten(ram, accesses, k)
  {
    hide Cell, WriteSized, Offset;
    if accesses != [] {
      var last, before := accesses[|accesses| - 1], accesses[..|accesses| - 1];
      MemoryIsFlat(ram, before, k);
      if !last.Refused() {
        LastWriteWins(ApplyAll(ram, before), last, k);
      }
    }
  }

  lemma WordOfBytes(ram: Ram, address: int, b0: u8, b1: u8)
    requires Read8(ram, address) == b0 && Read8(ram, address + 1) == b1
    ensures Read16(ram, address) == b0 * 0x100 + b1
  {
    hide Read8;
  }

  lemma LongOfBytes(ram: Ram, address: int, b0: u8, b1: u8, b2: u8, b3: u8)
    requires Read8(ram, address) == b0 && Read8(ram, address + 1) == b1
    requires Read8(ram, address + 2) == b2 && Read8(ram, address + 3) == b3
    ensures Read32(ram, address) == b0 * 0x100_0000 + b1 * 0x1_0000 + b2 * 0x100 + b3
  {
    hide Read8, Read16;
    WordOfBytes(ram, address, b0, b1);
    WordOfBytes(ram, address + 2, b2, b3);
  }

  /** A read after the accesses puts such bytes together, most significant first. */
  lemma ReadIsFlat(ram: Ram, accesses: seq<Access>, sz: Size, address: int)
    requires AllValid(accesses)
    ensures var at := (i: int) => LastWritten(ram, accesses, Cell(address + i));
      ReadSized(ApplyAll(ram, accesses), sz, address) ==
        match sz
        case Byte => at(0)
        case Word => at(0) * 0x100 + at(1)
        case Long => at(0) * 0x100_0000 + at(1) * 0x1_0000 + at(2) * 0x100 + at(3)
  {
    hide Cell, ApplyAll, LastWritten, Read16, Read32;
    MemoryIsFlat(ram, accesses, Cell(address));
    MemoryIsFlat(ram, accesses, Cell(address + 1));
    MemoryIsFlat(ram, accesses, Cell(address + 2));
    MemoryIsFlat(ram, accesses, Cell(address + 3));
    var after := ApplyAll(ram, accesses);
    var (b0, b1) := (Read8(after, address), Read8(after, address + 1));
    var (b2, b3) := (Read8(after, address + 2), Read8(after, address + 3));
    WordOfBytes(after, address, b0, b1);
    LongOfBytes(after, address, b0, b1, b2, b3);
  }
}
