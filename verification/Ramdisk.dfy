/** The RAM disks: four stores of 128-byte sectors, moved to and from memory by trap number 15. */
module Ramdisk {
  import opened Words
  import opened Memories
  import opened Regions

  const DISKS := 4
  const TRACKS := 512
  const SECTORS := 256
  const SECTOR_SIZE := 128
  const DISK_SIZE := TRACKS * SECTORS * SECTOR_SIZE
  const FILL: u8 := 0xE5

  type Disk = n: int | 0 <= n < DISKS
  type Track = n: int | 0 <= n < TRACKS
  type Sector = n: int | 0 <= n < SECTORS
  type SectorData = s: seq<u8> | |s| == SECTOR_SIZE witness seq(SECTOR_SIZE, _ => 0)

  /** The abstract store: one block of bytes for each place. */
  datatype Place = Place(disk: Disk, track: Track, sector: Sector)
  type Store = Place -> SectorData

  datatype State = State(place: Place, dma: u32, store: Store)

  /** What the guest can do: the six commands, and any change of memory of its own between them. */
  datatype Command =
    | Select(disk: u8) | SetTrack(track: u16) | SetSector(sector: u16) | SetDma(address: u32)
    | Read | Write | Guest(ram: Ram)

  // ---- The commands on the abstract store ----

  /** A disk, track or sector that does not exist is refused and nothing changes. */
  function Step(s: State, ram: Ram, c: Command): (State, Ram) {
    match c
    case Select(disk) => (if disk < DISKS then s.(place := s.place.(disk := disk)) else s, ram)
    case SetTrack(track) => (if track < TRACKS then s.(place := s.place.(track := track)) else s, ram)
    case SetSector(sector) => (if sector < SECTORS then s.(place := s.place.(sector := sector)) else s, ram)
    case SetDma(address) => (s.(dma := address), ram)
    case Read => (s, Poke(ram, s.dma, s.store(s.place)))
    case Write => (s.(store := Stored(s.store, s.place, Peek(ram, s.dma, SECTOR_SIZE))), ram)
    case Guest(changed) => (s, changed)
  }

  function Stored(store: Store, place: Place, bytes: SectorData): Store {
    p => if p == place then bytes else store(p)
  }

  function RunAll(s: State, ram: Ram, cs: seq<Command>): (State, Ram) {
    if cs == [] then (s, ram)
    else
      var (s', ram') := RunAll(s, ram, cs[..|cs| - 1]);
      Step(s', ram', cs[|cs| - 1])
  }

  /** No command of the run writes to `place`. */
  ghost predicate Spares(s: State, ram: Ram, cs: seq<Command>, place: Place) {
    forall n :: 0 <= n < |cs| && cs[n] == Write ==> RunAll(s, ram, cs[..n]).0.place != place
  }

  lemma {:induction false} SparedIsKept(s: State, ram: Ram, cs: seq<Command>, place: Place)
    requires Spares(s, ram, cs, place)
    ensures RunAll(s, ram, cs).0.store(place) == s.store(place)
  {
    if cs != [] {
      var before := cs[..|cs| - 1];
      forall n | 0 <= n < |before| && before[n] == Write
        ensures RunAll(s, ram, before[..n]).0.place != place
      {
        assert before[..n] == cs[..n] && cs[n] == Write;
      }
      SparedIsKept(s, ram, before, place);
      assert cs[|cs| - 1] == Write ==> RunAll(s, ram, before).0.place != place;
    }
  }

  /** A sector that is written, and read after any commands that do not write to it again, comes back to memory byte
      for byte, wherever the DMA address points then; and memory outside the transfer is left alone. */
  lemma ReadReturnsLastWrite(s: State, ram: Ram, cs: seq<Command>)
    requires var (s1, ram1) := Step(s, ram, Write);
      Spares(s1, ram1, cs, s.place) && RunAll(s1, ram1, cs).0.place == s.place
    ensures var (s1, ram1) := Step(s, ram, Write);
      var (s2, ram2) := RunAll(s1, ram1, cs);
      var (s3, ram3) := Step(s2, ram2, Read);
      && s3 == s2
      && Peek(ram3, s2.dma, SECTOR_SIZE) == Peek(ram, s.dma, SECTOR_SIZE)
      && forall k :: 0 <= k < MEM_MAX && (forall i :: 0 <= i < SECTOR_SIZE ==> Above(s2.dma, i) != k)
           ==> ram3[k] == ram2[k]
  {
    hide Cell, Peek, Poke;
    var (s1, ram1) := Step(s, ram, Write);
    var (s2, ram2) := RunAll(s1, ram1, cs);
    SparedIsKept(s1, ram1, cs, s.place);
    var bytes := s2.store(s2.place);
    PeekPoke(ram2, s2.dma, bytes);
    forall k | 0 <= k < MEM_MAX && forall i :: 0 <= i < SECTOR_SIZE ==> Above(s2.dma, i) != k
      ensures Poke(ram2, s2.dma, bytes)[k] == ram2[k]
    {
      PokedOutside(ram2, s2.dma, bytes, k);
    }
  }

  // ---- The disks in place ----

  /** Where a sector starts in its disk. */
  function Offset(track: Track, sector: Sector): (n: int)
    ensures 0 <= n <= DISK_SIZE - SECTOR_SIZE
  {
    (track * SECTORS + sector) * SECTOR_SIZE
  }

  /** Sectors of a disk never overlap. */
  lemma DistinctOffsets(track: Track, sector: Sector, i: int, track': Track, sector': Sector, j: int)
    requires 0 <= i < SECTOR_SIZE && 0 <= j < SECTOR_SIZE
    requires Offset(track, sector) + i == Offset(track', sector') + j
    ensures track == track' && sector == sector' && i == j
  {
  }

  class RamDisks {
    const data: array2<u8>
    var diskNo: u8
    var trackNo: u16
    var sectorNo: u16
    var dmaAddress: u32

    ghost predicate Valid()
      reads this
    {
      && data.Length0 == DISKS && data.Length1 == DISK_SIZE
      && diskNo < DISKS && trackNo < TRACKS && sectorNo < SECTORS
    }

    /** The bytes of a sector. */
    ghost predicate Holds(p: Place, bytes: SectorData)
      requires Valid()
      reads this, data
    {
      forall i :: 0 <= i < SECTOR_SIZE ==> data[p.disk, Offset(p.track, p.sector) + i] == bytes[i]
    }

    /** This object represents an abstract state. */
    ghost predicate Represents(s: State)
      reads this, data
    {
      && Valid()
      && s.place == Place(diskNo, trackNo, sectorNo) && s.dma == dmaAddress
      && forall p: Place :: Holds(p, s.store(p))
    }

    /** All sectors are filled, to show no files. */
    constructor ()
      ensures Represents(State(Place(0, 0, 0), 0, _ => seq<u8>(SECTOR_SIZE, _ => FILL)))
      ensures fresh(data)
    {
      diskNo, trackNo, sectorNo, dmaAddress := 0, 0, 0, 0;
      data := new u8[DISKS, DISK_SIZE];
      new;
      var i := 0;
      while i < DISKS
        invariant 0 <= i <= DISKS
        invariant forall d, k :: 0 <= d < i && 0 <= k < DISK_SIZE ==> data[d, k] == FILL
        modifies data
      {
        var n := 0;
        while n < DISK_SIZE
          invariant 0 <= n <= DISK_SIZE
          invariant forall d, k :: 0 <= d < i && 0 <= k < DISK_SIZE ==> data[d, k] == FILL
          invariant forall k :: 0 <= k < n ==> data[i, k] == FILL
          modifies data
        {
          data[i, n] := FILL;
          n := n + 1;
        }
        i := i + 1;
      }
    }

    method SelectDisk(value: u8, ghost s: State) returns (result: u32)
      requires Represents(s)
      modifies this`diskNo
      ensures forall ram: Ram :: Represents(Step(s, ram, Select(value)).0)
      ensures result == if value < DISKS then 0xFFFF_FFFF else 0
    {
      if value >= DISKS {
        return 0;
      }
      diskNo := value;
      result := 0xFFFF_FFFF;
    }

    method TrackSet(value: u16, ghost s: State)
      requires Represents(s)
      modifies this`trackNo
      ensures forall ram: Ram :: Represents(Step(s, ram, SetTrack(value)).0)
    {
      if value < TRACKS {
        trackNo := value;
      }
    }

    method SectorSet(value: u16, ghost s: State)
      requires Represents(s)
      modifies this`sectorNo
      ensures forall ram: Ram :: Represents(Step(s, ram, SetSector(value)).0)
    {
      if value < SECTORS {
        sectorNo := value;
      }
    }

    method DmaSet(value: u32, ghost s: State)
      requires Represents(s)
      modifies this`dmaAddress
      ensures forall ram: Ram :: Represents(Step(s, ram, SetDma(value)).0)
    {
      dmaAddress := value;
    }

    method ReadSector(mem: Memory, ghost s: State)
      requires Represents(s) && mem.Valid() && mem.ram as object != data as object
      modifies mem.ram
      ensures Represents(s) && mem.Bytes() == Step(s, old(mem.Bytes()), Read).1
    {
      hide Cell, Write8;
      var offset := Offset(trackNo, sectorNo);
      ghost var ram := mem.Bytes();
      ghost var bytes := s.store(s.place);
      assert Holds(s.place, bytes);
      var i := 0;
      assert bytes[..0] == [];
      while i < SECTOR_SIZE
        invariant 0 <= i <= SECTOR_SIZE
        invariant mem.Bytes() == Poke(ram, dmaAddress, bytes[..i])
      {
        assert bytes[..i + 1][..i] == bytes[..i];
        WrappedByte(mem.Bytes(), dmaAddress + i, data[diskNo, offset + i]);
        mem.WriteByte(Wrap32(dmaAddress + i), data[diskNo, offset + i]);
        i := i + 1;
      }
      assert bytes[..SECTOR_SIZE] == bytes;
    }

    method WriteSector(mem: Memory, ghost s: State)
      requires Represents(s) && mem.Valid() && mem.ram as object != data as object
      modifies data
      ensures Represents(Step(s, mem.Bytes(), Write).0)
    {
      hide Cell, Read8;
      var offset := Offset(trackNo, sectorNo);
      ghost var bytes := Peek(mem.Bytes(), dmaAddress, SECTOR_SIZE);
      var i := 0;
      while i < SECTOR_SIZE
        invariant 0 <= i <= SECTOR_SIZE
        invariant forall k :: 0 <= k < i ==> data[diskNo, offset + k] == bytes[k]
        invariant forall d, k ::
                    0 <= d < DISKS && 0 <= k < DISK_SIZE && !(d == diskNo && offset <= k < offset + SECTOR_SIZE)
                    ==> data[d, k] == old(data[d, k])
      {
        WrappedByte(mem.Bytes(), dmaAddress + i, 0);
        data[diskNo, offset + i] := mem.ReadByte(Wrap32(dmaAddress + i));
        i := i + 1;
      }
      forall p: Place
        ensures Holds(p, Stored(s.store, s.place, bytes)(p))
      {
        if p != s.place {
          ghost var kept := s.store(p);
          assert old(Holds(p, kept));
          forall i | 0 <= i < SECTOR_SIZE
            ensures data[p.disk, Offset(p.track, p.sector) + i] == kept[i]
          {
            OtherSector(s.place, p, i);
          }
        }
      }
    }
  }

  /** A byte of another place is in another disk or outside the sector. */
  lemma OtherSector(p: Place, p': Place, i: int)
    requires p != p' && 0 <= i < SECTOR_SIZE
    ensures p.disk != p'.disk || Offset(p'.track, p'.sector) + i < Offset(p.track, p.sector)
         || Offset(p'.track, p'.sector) + i >= Offset(p.track, p.sector) + SECTOR_SIZE
  {
    var j := Offset(p'.track, p'.sector) + i - Offset(p.track, p.sector);
    if p.disk == p'.disk && 0 <= j < SECTOR_SIZE {
      DistinctOffsets(p.track, p.sector, j, p'.track, p'.sector, i);
    }
  }

  lemma WrappedByte(ram: Ram, address: int, v: u8)
    ensures Read8(ram, Wrap32(address)) == Read8(ram, address)
    ensures Write8(ram, Wrap32(address), v) == Write8(ram, address, v)
  {
    hide Wrap32, Cell;
    WrapCell(address);
  }

  // ---- The trap ----

  const SELECT_CALL := 4
  const TRACK_CALL := 5
  const SECTOR_CALL := 6
  const DMA_CALL := 7
  const READ_CALL := 8
  const WRITE_CALL := 9

  /** The command that D0 and D1 ask for; narrow arguments are truncated. */
  function CommandOf(d0: u32, d1: u32): Command
    requires SELECT_CALL <= d0 <= WRITE_CALL
  {
    if d0 == SELECT_CALL then Select(d1 % 0x100)
    else if d0 == TRACK_CALL then SetTrack(d1 % 0x1_0000)
    else if d0 == SECTOR_CALL then SetSector(d1 % 0x1_0000)
    else if d0 == DMA_CALL then SetDma(d1)
    else if d0 == READ_CALL then Read
    else Write
  }

  /** What a call with this number in D0 and this argument in D1 does. */
  function Call(s: State, ram: Ram, number: u32, argument: u32): (State, Ram)
    requires SELECT_CALL <= number <= WRITE_CALL
  {
    Step(s, ram, CommandOf(number, argument))
  }

  /** The calls 4 to 7 set disk, track, sector and memory address one by one, and nothing else; arguments that name
      nothing change nothing at all. */
  lemma CallsSet(s: State, ram: Ram, argument: u32)
    ensures Call(s, ram, 4, argument)
      == (if argument % 0x100 < 4 then s.(place := s.place.(disk := argument % 0x100)) else s, ram)
    ensures Call(s, ram, 5, argument)
      == (if argument % 0x1_0000 < 512 then s.(place := s.place.(track := argument % 0x1_0000)) else s, ram)
    ensures Call(s, ram, 6, argument)
      == (if argument % 0x1_0000 < 256 then s.(place := s.place.(sector := argument % 0x1_0000)) else s, ram)
    ensures Call(s, ram, 7, argument) == (s.(dma := argument), ram)
  {
  }

  /** A guest that selects a place and an address, writes with call 9, and then reads with call 8 to another address,
      finds the 128 bytes there, and no other sector has changed. */
  lemma CallsTransfer(s: State, ram: Ram, disk: Disk, track: Track, sector: Sector, a: u32, b: u32)
    ensures var s1 := Call(s, ram, 4, disk).0;
      var s2 := Call(s1, ram, 5, track).0;
      var s3 := Call(s2, ram, 6, sector).0;
      var s4 := Call(s3, ram, 7, a).0;
      var (s5, ram5) := Call(s4, ram, 9, 0);
      var s6 := Call(s5, ram5, 7, b).0;
      var (s7, ram7) := Call(s6, ram5, 8, 0);
      && ram5 == ram && s5.store(Place(disk, track, sector)) == Peek(ram, a, SECTOR_SIZE)
      && Peek(ram7, b, SECTOR_SIZE) == Peek(ram, a, SECTOR_SIZE)
      && s7.place == Place(disk, track, sector) && s7.dma == b
      && (forall p: Place :: p != s7.place ==> s7.store(p) == s.store(p))
  {
    hide Peek, Poke;
    PeekPoke(ram, b, Peek(ram, a, SECTOR_SIZE));
  }

  /** Only the selection of a disk answers in D0. */
  function AnswerOf(d0: u32, d1: u32): u32 {
    if d0 != SELECT_CALL then d0 else if d1 % 0x100 < DISKS then 0xFFFF_FFFF else 0
  }

  /** Trap number 15, for the six calls of the RAM disks. */
  method TrapHook(disks: RamDisks, mem: Memory, d: array<u32>, ghost s: State)
    requires disks.Represents(s) && mem.Valid() && d.Length == 8
    requires mem.ram as object != disks.data as object
    requires d as object != disks.data as object && d as object != mem.ram as object
    requires SELECT_CALL <= d[0] <= WRITE_CALL
    modifies disks, disks.data, mem.ram, d
    ensures var after := Step(s, old(mem.Bytes()), CommandOf(old(d[0]), old(d[1])));
      disks.Represents(after.0) && mem.Bytes() == after.1
    ensures d[..] == old(d[..])[0 := AnswerOf(old(d[0]), old(d[1]))]
  {
    hide Poke, Peek;
    ghost var ram := mem.Bytes();
    match d[0] {
      case 4 =>
        var answer := disks.SelectDisk(d[1] % 0x100, s);
        d[0] := answer;
      case 5 => disks.TrackSet(d[1] % 0x1_0000, s);
      case 6 => disks.SectorSet(d[1] % 0x1_0000, s);
      case 7 => disks.DmaSet(d[1], s);
      case 8 => disks.ReadSector(mem, s);
      case _ => disks.WriteSector(mem, s);
    }
    assert d[..] == old(d[..])[0 := AnswerOf(old(d[0]), old(d[1]))];
  }
}
