/** The 24-bit big-endian address space: what each access means on a flat map of bytes,
    and the class that stores the bytes in place. */
module Memories {
  import opened Words

  const MEM_MAX := 0x100_0000

  type Ram = s: seq<u8> | |s| == MEM_MAX witness seq(MEM_MAX, _ => 0)

  /** The byte an address names: only its low 24 bits count. */
  function Cell(address: int): (k: int)
    ensures 0 <= k < MEM_MAX
    ensures 0 <= address < MEM_MAX ==> k == address
  {
    address % MEM_MAX
  }

  /** The meaning of every access: addresses are taken modulo 2^24, bytes are big-endian. */
  function Read8(ram: Ram, address: int): u8 {
    ram[Cell(address)]
  }

  function Read16(ram: Ram, address: int): u16 {
    Join8(Read8(ram, address), Read8(ram, address + 1))
  }

  function Read32(ram: Ram, address: int): u32 {
    Join16(Read16(ram, address), Read16(ram, address + 2))
  }

  function Write8(ram: Ram, address: int, value: u8): Ram {
    ram[Cell(address) := value]
  }

  function Write16(ram: Ram, address: int, value: u16): Ram {
    Write8(Write8(ram, address, value / 0x100), address + 1, value % 0x100)
  }

  function Write32(ram: Ram, address: int, value: u32): Ram {
    Write16(Write16(ram, address, value / 0x1_0000), address + 2, value % 0x1_0000)
  }

  // ---- Addresses ----

  lemma CellIs(address: int, q: int, r: int)
    requires address == q * MEM_MAX + r && 0 <= r < MEM_MAX
    ensures Cell(address) == r
  {
  }

  /** Where the four bytes of a long lie, seen from its first byte. */
  lemma LongOffsets(address: int, at: int)
    requires at == Cell(address)
    ensures Even(at) == Even(address)
    ensures Even(at) ==> Cell(address + 1) == at + 1
    ensures Even(at) && at < 0xFF_FFFE ==> Cell(address + 2) == at + 2 && Cell(address + 3) == at + 3
    ensures Even(at) && at >= 0xFF_FFFE ==> at == 0xFF_FFFE && Cell(address + 2) == 0 && Cell(address + 3) == 1
  {
    var q := address / MEM_MAX;
    ParityIs(address, q * 0x80_0000 + at / 2, at % 2);
    if Even(at) {
      assert at != 0xFF_FFFF;
      CellIs(address + 1, q, at + 1);
      if at < 0xFF_FFFE {
        CellIs(address + 2, q, at + 2);
        CellIs(address + 3, q, at + 3);
      } else {
        CellIs(address + 2, q + 1, 0);
        CellIs(address + 3, q + 1, 1);
      }
    }
  }

  /** Addresses that name the same byte do so under a common offset. */
  lemma SameCell(a: int, b: int, offset: int)
    requires Cell(a) == Cell(b)
    ensures Cell(a + offset) == Cell(b + offset)
  {
    var q := a / MEM_MAX - b / MEM_MAX;
    assert a == b + q * MEM_MAX;
    CellIs(a + offset, (b + offset) / MEM_MAX + q, Cell(b + offset));
  }

  /** The upper eight bits of an address register do not matter. */
  lemma WrapCell(a: int)
    ensures Cell(Wrap32(a)) == Cell(a)
  {
    var q := a / 0x1_0000_0000;
    CellIs(a, q * 0x100 + Wrap32(a) / MEM_MAX, Cell(Wrap32(a)));
  }

  lemma DistinctCells(a: int, i: int, j: int)
    requires i < j < i + MEM_MAX
    ensures Cell(a + i) != Cell(a + j)
  {
  }

  // ---- Accesses of any size ----

  function ReadSized(ram: Ram, sz: Size, address: int): (v: u32)
    ensures v < sz.Modulus()
  {
    match sz
    case Byte => Read8(ram, address)
    case Word => Read16(ram, address)
    case Long => Read32(ram, address)
  }

  function WriteSized(ram: Ram, sz: Size, address: int, value: u32): Ram
    requires value < sz.Modulus()
  {
    match sz
    case Byte => Write8(ram, address, value)
    case Word => Write16(ram, address, value)
    case Long => Write32(ram, address, value)
  }

  /** Byte `k` of memory belongs to the access of size `sz` at `address`. */
  predicate Touches(sz: Size, address: int, k: int) {
    || k == Cell(address)
    || (sz != Byte && k == Cell(address + 1))
    || (sz == Long && (k == Cell(address + 2) || k == Cell(address + 3)))
  }

  lemma WriteFrame(ram: Ram, sz: Size, address: int, value: u32, k: int)
    requires value < sz.Modulus() && 0 <= k < MEM_MAX && !Touches(sz, address, k)
    ensures WriteSized(ram, sz, address, value)[k] == ram[k]
  {
    hide Cell;
  }

  lemma ReadBack16(ram: Ram, address: int, value: u16)
    ensures Read16(Write16(ram, address, value), address) == value
  {
    hide Cell;
    DistinctCells(address, 0, 1);
  }

  lemma ReadBack(ram: Ram, sz: Size, address: int, value: u32)
    requires value < sz.Modulus()
    ensures ReadSized(WriteSized(ram, sz, address, value), sz, address) == value
  {
    hide Cell;
    if sz == Word {
      ReadBack16(ram, address, value);
    } else if sz == Long {
      var ram1 := Write16(ram, address, value / 0x1_0000);
      ReadBack16(ram, address, value / 0x1_0000);
      ReadBack16(ram1, address + 2, value % 0x1_0000);
      DistinctCells(address, 0, 2);
      DistinctCells(address, 0, 3);
      DistinctCells(address, 1, 2);
      DistinctCells(address, 1, 3);
    }
  }

  /** An access depends on its own bytes only. */
  lemma ReadFrame(ram: Ram, ram': Ram, sz: Size, address: int)
    requires forall k :: 0 <= k < MEM_MAX && Touches(sz, address, k) ==> ram[k] == ram'[k]
    ensures ReadSized(ram, sz, address) == ReadSized(ram', sz, address)
  {
    hide Cell;
    assert Touches(sz, address, Cell(address));
    if sz != Byte {
      assert Touches(sz, address, Cell(address + 1));
    }
    if sz == Long {
      assert Touches(sz, address, Cell(address + 2));
      assert Touches(sz, address, Cell(address + 3));
    }
  }

  /** Addresses that name the same byte read and write the same byte of any memory. */
  lemma ByteWraps(a: int, b: int)
    requires Cell(a) == Cell(b)
    ensures forall ram: Ram :: Read8(ram, a) == Read8(ram, b)
    ensures forall ram: Ram, value: u8 :: Write8(ram, a, value) == Write8(ram, b, value)
  {
    hide Cell;
  }

  lemma AccessWraps(ram: Ram, sz: Size, a: int, b: int, value: u32)
    requires Cell(a) == Cell(b) && value < sz.Modulus()
    ensures ReadSized(ram, sz, a) == ReadSized(ram, sz, b)
    ensures WriteSized(ram, sz, a, value) == WriteSized(ram, sz, b, value)
  {
    hide Cell, Read8, Write8, Join8, Join16;
    SameCell(a, b, 1);
    SameCell(a, b, 2);
    SameCell(a, b, 3);
    ByteWraps(a, b);
    ByteWraps(a + 1, b + 1);
    ByteWraps(a + 2, b + 2);
    ByteWraps(a + 3, b + 3);
  }

  /** Shifting and masking a long gives the bytes of its two words. */
  lemma LongBytes(value: u32)
    ensures value / 0x100_0000 % 0x100 == value / 0x1_0000 / 0x100
    ensures value / 0x100 % 0x100 == value % 0x1_0000 / 0x100
    ensures value % 0x100 == value % 0x1_0000 % 0x100
  {
    var low, high := value % 0x1_0000, value / 0x1_0000;
    DivModUnique(value, high / 0x100, high % 0x100 * 0x1_0000 + low, 0x100_0000);
    DivModUnique(value, high * 0x100 + low / 0x100, low % 0x100, 0x100);
    DivModUnique(high * 0x100 + low / 0x100, high, low / 0x100, 0x100);
  }

  class Memory {
    const ram: array<u8>

    ghost predicate Valid() {
      ram.Length == MEM_MAX
    }

    ghost function Bytes(): Ram
      requires Valid()
      reads ram
    {
      ram[..]
    }

    /** All of memory starts as zero. */
    constructor ()
      ensures Valid() && fresh(ram)
      ensures forall k :: 0 <= k < MEM_MAX ==> Bytes()[k] == 0
    {
      ram := new u8[MEM_MAX];
      new;
      var i := 0;
      while i < MEM_MAX
        invariant 0 <= i <= MEM_MAX
        invariant forall k :: 0 <= k < i ==> ram[k] == 0
      {
        ram[i] := 0;
        i := i + 1;
      }
    }

    method ReadByte(address: u32) returns (value: u8)
      requires Valid()
      ensures value == Read8(Bytes(), address)
    {
      value := ram[address % MEM_MAX];
    }

    /** An odd address reads nothing and raises the error flag. */
    method ReadWord(address: u32) returns (value: u16, error: bool)
      requires Valid()
      ensures error <==> !Even(address)
      ensures value == if error then 0 else Read16(Bytes(), address)
    {
      var at := address % MEM_MAX;
      LongOffsets(address, at);
      if at % 2 != 0 {
        return 0, true;
      }
      value, error := Join8(ram[at], ram[at + 1]), false;
    }

    /** A long at the last even address takes its low word from address zero. */
    method ReadLong(address: u32) returns (value: u32, error: bool)
      requires Valid()
      ensures error <==> !Even(address)
      ensures value == if error then 0 else Read32(Bytes(), address)
    {
      var at := address % MEM_MAX;
      LongOffsets(address, at);
      if at % 2 != 0 {
        return 0, true;
      }
      error := false;
      if at == 0xFF_FFFE {
        value := Join16(Join8(ram[at], ram[at + 1]), Join8(ram[0], ram[1]));
      } else {
        value := Join16(Join8(ram[at], ram[at + 1]), Join8(ram[at + 2], ram[at + 3]));
      }
    }

    method WriteByte(address: u32, value: u8)
      requires Valid()
      modifies ram
      ensures Bytes() == Write8(old(Bytes()), address, value)
    {
      ram[address % MEM_MAX] := value;
    }

    method WriteWord(address: u32, value: u16) returns (error: bool)
      requires Valid()
      modifies ram
      ensures error <==> !Even(address)
      ensures Bytes() == if error then old(Bytes()) else Write16(old(Bytes()), address, value)
    {
      var at := address % MEM_MAX;
      LongOffsets(address, at);
      if at % 2 != 0 {
        return true;
      }
      error := false;
      ram[at] := value / 0x100 % 0x100;
      ram[at + 1] := value % 0x100;
    }

    method WriteLong(address: u32, value: u32) returns (error: bool)
      requires Valid()
      modifies ram
      ensures error <==> !Even(address)
      ensures Bytes() == if error then old(Bytes()) else Write32(old(Bytes()), address, value)
    {
      var at := address % MEM_MAX;
      LongOffsets(address, at);
      if at % 2 != 0 {
        return true;
      }
      hide Cell;
      error := false;
      LongBytes(value);
      ram[at] := value / 0x100_0000 % 0x100;
      ram[at + 1] := value / 0x1_0000 % 0x100;
      if at == 0xFF_FFFE {
        ram[0] := value / 0x100 % 0x100;
        ram[1] := value % 0x100;
      } else {
        ram[at + 2] := value / 0x100 % 0x100;
        ram[at + 3] := value % 0x100;
      }
    }
  }
}
