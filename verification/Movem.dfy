/** MOVEM: the register list as a sequence of sixteen flags, where each listed register is stored, and the
    round trip from registers to a stack and back. */
module Movem {
  import opened Words
  import opened Memories
  import opened Machines
  import opened Regions

  /** The sixteen registers: D0 to D7, then A0 to A7. */
  type ListIndex = k: int | 0 <= k < 16
  type RegisterList = s: seq<bool> | |s| == 16
    witness [false, false, false, false, false, false, false, false,
             false, false, false, false, false, false, false, false]

  predicate MaskBit(mask: u16, i: nat) {
    PowPositive(2, i);
    Odd(mask / Pow(2, i))
  }

  /** Bit `k` of the mask lists register `k`; for storing with predecrement it lists register `15 - k`. */
  function Listed(mask: u16, reversed: bool): RegisterList {
    seq(16, k requires 0 <= k < 16 => MaskBit(mask, if reversed then 15 - k else k))
  }

  lemma ListedAt(mask: u16, reversed: bool, k: ListIndex)
    ensures Listed(mask, reversed)[k] == MaskBit(mask, if reversed then 15 - k else k)
  {
    hide MaskBit;
  }

  function RegisterValue(m: Machine, k: ListIndex): u32 {
    if k < 8 then m.d[k] else m.A(k - 8)
  }

  function SetRegister(m: Machine, k: ListIndex, v: u32): Machine {
    if k < 8 then m.SetD(k, v) else m.SetA(k - 8, v)
  }

  /** The room that the listed registers below `k` take in memory. */
  function Room(list: RegisterList, sz: Size, k: nat): (n: nat)
    requires k <= 16
    ensures n <= 4 * k
  {
    if k == 0 then 0 else (if list[k - 1] then sz.Bytes() else 0) + Room(list, sz, k - 1)
  }

  /** The number of listed registers below `k`. */
  function Count(list: RegisterList, k: nat): nat
    requires k <= 16
  {
    if k == 0 then 0 else BitOf(list[k - 1]) + Count(list, k - 1)
  }

  lemma {:induction false} RoomIsCount(list: RegisterList, sz: Size, k: nat)
    requires k <= 16
    ensures Room(list, sz, k) == Times(Count(list, k), sz.Bytes())
  {
    hide Times;
    var w := sz.Bytes();
    if k == 0 {
      TimesOne(w);
    } else {
      RoomIsCount(list, sz, k - 1);
      Distribute(BitOf(list[k - 1]), Count(list, k - 1), w);
      TimesOne(w);
    }
  }

  // ---- Storing ----

  /** Memory after the registers below `k` have been stored downwards, the first of them at `at`. */
  function StoredDown(m: Machine, list: RegisterList, sz: Size, k: nat, at: int, ram: Ram): Ram
    requires k <= 16
  {
    if k == 0 then ram
    else if list[k - 1] then
      StoredDown(m, list, sz, k - 1, at - sz.Bytes(), WriteSized(ram, sz, at, Truncate(sz, RegisterValue(m, k - 1))))
    else StoredDown(m, list, sz, k - 1, at, ram)
  }

  /** The same upwards, from register `k`: every other addressing mode. */
  function StoredUp(m: Machine, list: RegisterList, sz: Size, k: nat, at: int, ram: Ram): Ram
    requires k <= 16
    decreases 16 - k
  {
    if k == 16 then ram
    else if list[k] then
      StoredUp(m, list, sz, k + 1, at + sz.Bytes(), WriteSized(ram, sz, at, Truncate(sz, RegisterValue(m, k))))
    else StoredUp(m, list, sz, k + 1, at, ram)
  }

  /** A write at one slot leaves the bytes of any disjoint range near it alone. */
  lemma WriteKeeps(ram: Ram, sz: Size, at: int, v: u32, address: int)
    requires v < sz.Modulus()
    requires at - MEM_MAX + sz.Bytes() <= address < at || at + sz.Bytes() <= address < at + MEM_MAX
    ensures WriteSized(ram, sz, at, v)[Cell(address)] == ram[Cell(address)]
  {
    hide Cell, WriteSized;
    if address < at {
      DistinctCells(0, address, at);
      if sz != Byte { DistinctCells(0, address, at + 1); }
      if sz == Long { DistinctCells(0, address, at + 2); DistinctCells(0, address, at + 3); }
    } else {
      DistinctCells(0, at, address);
      if sz != Byte { DistinctCells(0, at + 1, address); }
      if sz == Long { DistinctCells(0, at + 2, address); DistinctCells(0, at + 3, address); }
    }
    WriteFrame(ram, sz, at, v, Cell(address));
  }

  /** Bytes outside the slots of the stored registers are kept, all around the address space. */
  lemma {:induction false} StoredFrame(
      m: Machine, list: RegisterList, sz: Size, k: nat, at: int, ram: Ram, address: int)
    requires k <= 16
    requires at + sz.Bytes() <= address < at + sz.Bytes() - Room(list, sz, k) + MEM_MAX
    ensures StoredDown(m, list, sz, k, at, ram)[Cell(address)] == ram[Cell(address)]
  {
    hide Cell, WriteSized, Truncate, RegisterValue;
    if k > 0 {
      if list[k - 1] {
        var v := Truncate(sz, RegisterValue(m, k - 1));
        WriteKeeps(ram, sz, at, v, address);
        StoredFrame(m, list, sz, k - 1, at - sz.Bytes(), WriteSized(ram, sz, at, v), address);
      } else {
        StoredFrame(m, list, sz, k - 1, at, ram, address);
      }
    }
  }

  /** Each listed register can be read back: register `j` lies as far above the lowest address as the listed
      registers before it take. */
  lemma {:induction false} StoredSlot(m: Machine, list: RegisterList, sz: Size, k: nat, at: int, ram: Ram, j: nat)
    requires j < k <= 16 && list[j]
    ensures ReadSized(StoredDown(m, list, sz, k, at, ram), sz, at + sz.Bytes() - Room(list, sz, k) + Room(list, sz, j))
         == Truncate(sz, RegisterValue(m, j))
  {
    hide Cell, WriteSized, ReadSized, Truncate, RegisterValue;
    var v := Truncate(sz, RegisterValue(m, k - 1));
    var ram1 := if list[k - 1] then WriteSized(ram, sz, at, v) else ram;
    if j < k - 1 {
      StoredSlot(m, list, sz, k - 1, if list[k - 1] then at - sz.Bytes() else at, ram1, j);
    } else {
      LastSlot(m, list, sz, j, at, ram, v);
    }
  }

  lemma LastSlot(m: Machine, list: RegisterList, sz: Size, j: nat, at: int, ram: Ram, v: u32)
    requires j < 16 && v < sz.Modulus()
    ensures ReadSized(StoredDown(m, list, sz, j, at - sz.Bytes(), WriteSized(ram, sz, at, v)), sz, at) == v
  {
    hide Cell, WriteSized, ReadSized, Truncate, RegisterValue, StoredDown;
    var ram1 := WriteSized(ram, sz, at, v);
    var ram2 := StoredDown(m, list, sz, j, at - sz.Bytes(), ram1);
    ReadBack(ram, sz, at, v);
    forall i | 0 <= i < sz.Bytes()
      ensures ram2[Above(at, i)] == ram1[Above(at, i)]
    {
      StoredFrame(m, list, sz, j, at - sz.Bytes(), ram1, at + i);
    }
    ReadSame(ram1, ram2, sz, at);
  }

  lemma ReadSame(ram: Ram, ram': Ram, sz: Size, at: int)
    requires SameAbove(ram', ram, at, sz.Bytes())
    ensures ReadSized(ram', sz, at) == ReadSized(ram, sz, at)
  {
    hide Cell;
    assert ram'[Above(at, 0)] == ram[Above(at, 0)];
    if sz != Byte {
      assert ram'[Above(at, 1)] == ram[Above(at, 1)];
    }
    if sz == Long {
      assert ram'[Above(at, 2)] == ram[Above(at, 2)];
      assert ram'[Above(at, 3)] == ram[Above(at, 3)];
    }
  }

  /** Storing upwards from register `k` leaves all bytes alone but those from its slot to the end of the block. */
  lemma {:induction false} UpFrame(
      m: Machine, list: RegisterList, sz: Size, k: nat, base: int, ram: Ram, address: int)
    requires k <= 16 && base + Room(list, sz, 16) - MEM_MAX <= address < base + Room(list, sz, k)
    ensures StoredUp(m, list, sz, k, base + Room(list, sz, k), ram)[Cell(address)] == ram[Cell(address)]
    decreases 16 - k
  {
    hide Cell, WriteSized, Truncate, RegisterValue;
    if k < 16 {
      if list[k] {
        var (at, v) := (base + Room(list, sz, k), Truncate(sz, RegisterValue(m, k)));
        RoomOrder(list, sz, k, 16);
        WriteKeeps(ram, sz, at, v, address);
        UpFrame(m, list, sz, k + 1, base, WriteSized(ram, sz, at, v), address);
      } else {
        UpFrame(m, list, sz, k + 1, base, ram, address);
      }
    }
  }

  /** Upwards too, each listed register lies as far above the first as the listed registers before it take. */
  lemma {:induction false} UpSlot(m: Machine, list: RegisterList, sz: Size, k: nat, base: int, ram: Ram, j: ListIndex)
    requires k <= j && list[j]
    ensures ReadSized(StoredUp(m, list, sz, k, base + Room(list, sz, k), ram), sz, base + Room(list, sz, j))
         == Truncate(sz, RegisterValue(m, j))
    decreases 16 - k
  {
    hide Cell, WriteSized, ReadSized, Truncate, RegisterValue;
    var (at, v) := (base + Room(list, sz, k), Truncate(sz, RegisterValue(m, k)));
    var ram1 := if list[k] then WriteSized(ram, sz, at, v) else ram;
    if k < j {
      UpSlot(m, list, sz, k + 1, base, ram1, j);
    } else {
      FirstSlot(m, list, sz, k, base, ram, v);
    }
  }

  lemma FirstSlot(m: Machine, list: RegisterList, sz: Size, k: nat, base: int, ram: Ram, v: u32)
    requires k < 16 && list[k] && v < sz.Modulus()
    ensures var at := base + Room(list, sz, k);
      ReadSized(StoredUp(m, list, sz, k + 1, at + sz.Bytes(), WriteSized(ram, sz, at, v)), sz, at) == v
  {
    hide Cell, WriteSized, ReadSized, Truncate, RegisterValue, StoredUp;
    var at := base + Room(list, sz, k);
    var ram1 := WriteSized(ram, sz, at, v);
    var ram2 := StoredUp(m, list, sz, k + 1, at + sz.Bytes(), ram1);
    ReadBack(ram, sz, at, v);
    RoomFits(list, sz);
    forall i | 0 <= i < sz.Bytes()
      ensures ram2[Above(at, i)] == ram1[Above(at, i)]
    {
      UpFrame(m, list, sz, k + 1, base, ram1, at + i);
    }
    ReadSame(ram1, ram2, sz, at);
  }

  lemma RoomFits(list: RegisterList, sz: Size)
    ensures Room(list, sz, 16) <= 64
  {
  }

  // ---- Loading ----

  /** A word is sign-extended into the whole register, a data register included. */
  function Extended(sz: Size, v: u32): u32
    requires v < sz.Modulus()
  {
    if sz == Long then v else SignExtend(sz, v)
  }

  /** What is left of a register that has been stored and loaded: all of a long. */
  function Kept(sz: Size, v: u32): (r: u32)
    ensures sz == Long ==> r == v
  {
    Extended(sz, Truncate(sz, v))
  }

  /** The machine after the listed registers from `k` upwards have been loaded, the first of them from `at`. */
  function LoadedUp(m: Machine, list: RegisterList, sz: Size, k: nat, at: int): Machine
    requires k <= 16
    decreases 16 - k
  {
    if k == 16 then m
    else if list[k] then
      LoadedUp(SetRegister(m, k, Extended(sz, ReadSized(m.ram, sz, at))), list, sz, k + 1, at + sz.Bytes())
    else LoadedUp(m, list, sz, k + 1, at)
  }

  /** Only registers of the current mode change. */
  predicate RegistersOnly(m: Machine, m': Machine) {
    && m' == m.(d := m'.d, a := m'.a, ssp := m'.ssp)
    && if m.sr.sys.s then m'.a[SP] == m.a[SP] else m'.ssp == m.ssp
  }

  lemma SetValueIs(m: Machine, k: ListIndex, v: u32, j: ListIndex)
    ensures RegisterValue(SetRegister(m, k, v), j) == if j == k then v else RegisterValue(m, j)
    ensures RegistersOnly(m, SetRegister(m, k, v))
  {
  }

  lemma RegistersOnlyTransitive(m: Machine, m': Machine, m'': Machine)
    requires RegistersOnly(m, m') && RegistersOnly(m', m'')
    ensures RegistersOnly(m, m'')
  {
  }

  /** A listed register gets what lies in its slot, every other register keeps its value. */
  lemma {:induction false} LoadedValue(m: Machine, list: RegisterList, sz: Size, k: nat, base: int, j: ListIndex)
    requires k <= 16
    ensures var m' := LoadedUp(m, list, sz, k, base + Room(list, sz, k));
      && RegistersOnly(m, m')
      && RegisterValue(m', j) == if j >= k && list[j] then Extended(sz, ReadSized(m.ram, sz, base + Room(list, sz, j)))
                         else RegisterValue(m, j)
    decreases 16 - k
  {
    hide Cell, ReadSized, RegisterValue, SetRegister, Extended, RegistersOnly;
    if k < 16 {
      if list[k] {
        var v := Extended(sz, ReadSized(m.ram, sz, base + Room(list, sz, k)));
        var m1 := SetRegister(m, k, v);
        SetValueIs(m, k, v, j);
        OnlyRam(m, m1);
        LoadedValue(m1, list, sz, k + 1, base, j);
        RegistersOnlyTransitive(m, m1, LoadedUp(m1, list, sz, k + 1, base + Room(list, sz, k + 1)));
      } else {
        LoadedValue(m, list, sz, k + 1, base, j);
      }
    } else {
      NothingLoaded(m);
    }
  }

  lemma OnlyRam(m: Machine, m': Machine)
    requires RegistersOnly(m, m')
    ensures m'.ram == m.ram
  {
  }

  lemma NothingLoaded(m: Machine)
    ensures RegistersOnly(m, m)
  {
  }

  // ---- The instructions ----

  /** An odd address stops a nonempty list at its first register, with An as it was. */
  function StoredList(m: Machine, list: RegisterList, reg: Reg, sz: Size): Machine {
    var top: int := m.A(reg);
    if Room(list, sz, 16) == 0 then m
    else if !Even(top) then m.AddressError(Wrap32(top - sz.Bytes()), false, false)
    else
      m.(ram := StoredDown(m, list, sz, 16, Wrap32(top - sz.Bytes()), m.ram))
       .SetA(reg, Wrap32(top - Room(list, sz, 16)))
  }

  /** MOVEM to -(An): the mask follows the opcode, and is read before the address is decremented. */
  function StoreList(m: Machine, reg: Reg, sz: Size): Machine {
    StoredList(m.Fetch(), Listed(m.Fetch().opcode, true), reg, sz)
  }

  /** An is incremented once before the list is loaded, and set past it afterwards, whether or not it was in the
      list. */
  function LoadedList(m: Machine, list: RegisterList, reg: Reg, sz: Size): Machine {
    var at: int := m.A(reg);
    var m1 := m.SetA(reg, Wrap32(at + sz.Bytes()));
    if Room(list, sz, 16) == 0 then m
    else if !Even(at) then m1.AddressError(at, true, false)
    else LoadedUp(m1, list, sz, 0, at).SetA(reg, Wrap32(at + Room(list, sz, 16)))
  }

  /** MOVEM from (An)+. */
  function LoadList(m: Machine, reg: Reg, sz: Size): Machine {
    LoadedList(m.Fetch(), Listed(m.Fetch().opcode, false), reg, sz)
  }

  lemma {:induction false} RoomOrder(list: RegisterList, sz: Size, j: nat, k: nat)
    requires j < k <= 16 && list[j]
    ensures Room(list, sz, j) + sz.Bytes() <= Room(list, sz, k)
  {
    if j < k - 1 {
      RoomOrder(list, sz, j, k - 1);
    }
  }

  /** Storing and loading a list moves An by the width times the number of mask bits, down or up. */
  lemma MovemMoves(m: Machine, reg: Reg, sz: Size)
    requires Even(m.A(reg))
    ensures StoreList(m, reg, sz).A(reg)
         == Wrap32(m.A(reg) - Times(Count(Listed(m.Fetch().opcode, true), 16), sz.Bytes()))
    ensures LoadList(m, reg, sz).A(reg)
         == Wrap32(m.A(reg) + Times(Count(Listed(m.Fetch().opcode, false), 16), sz.Bytes()))
  {
    hide Even, Cell, Times, Count, Room, StoredDown, LoadedUp, WordAt, Listed;
    var mask := m.Fetch().opcode;
    RoomIsCount(Listed(mask, true), sz, 16);
    RoomIsCount(Listed(mask, false), sz, 16);
    var m1 := m.Fetch();
    var m2 := m1.SetA(reg, Wrap32(m1.A(reg) + sz.Bytes()));
    SetAReads(LoadedUp(m2, Listed(mask, false), sz, 0, m1.A(reg)), reg,
              Wrap32(m1.A(reg) + Room(Listed(mask, false), sz, 16)));
  }

  lemma SetAReads(m: Machine, reg: Reg, v: u32)
    ensures m.SetA(reg, v).A(reg) == v
  {
  }

  /** What was stored is in place when the list is loaded, across the end of the address space too. */
  lemma SlotRead(m1: Machine, list: RegisterList, sz: Size, top: int, ram: Ram, j: ListIndex)
    requires list[j]
    requires var stored := StoredDown(m1, list, sz, 16, Wrap32(top - sz.Bytes()), m1.ram);
      SameAbove(stored, ram, Wrap32(top - Room(list, sz, 16)), Room(list, sz, 16))
    ensures ReadSized(ram, sz, Wrap32(top - Room(list, sz, 16)) + Room(list, sz, j))
         == Truncate(sz, RegisterValue(m1, j))
  {
    hide Wrap32, Cell, Room, ReadSized, Truncate, RegisterValue, StoredDown, SameAbove;
    var low: int := Wrap32(top - Room(list, sz, 16));
    var first: int := Wrap32(top - sz.Bytes());
    var stored := StoredDown(m1, list, sz, 16, first, m1.ram);
    StoredSlot(m1, list, sz, 16, first, m1.ram, j);
    RoomOrder(list, sz, j, 16);
    WrapCell(top - Room(list, sz, 16));
    SameCell(low, top - Room(list, sz, 16), Room(list, sz, j));
    WrapCell(top - sz.Bytes());
    SameCell(first, top - sz.Bytes(), sz.Bytes() - Room(list, sz, 16) + Room(list, sz, j));
    AccessWraps(stored, sz, low + Room(list, sz, j), first + sz.Bytes() - Room(list, sz, 16) + Room(list, sz, j), 0);
    SameAboveFrom(stored, ram, low, Room(list, sz, j), Room(list, sz, 16), sz.Bytes());
    ReadSame(stored, ram, sz, low + Room(list, sz, j));
  }

  lemma SameAboveFrom(ram: Ram, ram': Ram, base: int, k: nat, live: nat, len: nat)
    requires SameAbove(ram, ram', base, live) && k + len <= live
    ensures SameAbove(ram', ram, base + k, len)
  {
    hide Cell;
    var up := base + k;
    forall i | 0 <= i < len
      ensures ram'[Above(up, i)] == ram[Above(up, i)]
    {
      assert ram[Above(base, k + i)] == ram'[Above(base, k + i)];
    }
  }

  lemma ReversedList(mask: u16, mask': u16)
    requires forall i: ListIndex :: MaskBit(mask', i) == MaskBit(mask, 15 - i)
    ensures Listed(mask', false) == Listed(mask, true)
  {
    hide MaskBit, Listed;
    forall k: ListIndex
      ensures Listed(mask', false)[k] == Listed(mask, true)[k]
    {
      ListedAt(mask', false, k);
      ListedAt(mask, true, k);
    }
  }

  lemma FetchKeeps(m: Machine)
    ensures var m1 := m.Fetch();
      && m1.ram == m.ram && m1.sr == m.sr && m1.a == m.a
      && (forall r: Reg :: m1.A(r) == m.A(r)) && forall k: ListIndex :: RegisterValue(m1, k) == RegisterValue(m, k)
  {
    hide Wrap32, WordAt;
  }

  /** Nothing is listed, stored or loaded. */
  lemma EmptyRoundTrip(m: Machine, m2: Machine, reg: Reg, sz: Size, list: RegisterList)
    requires list == Listed(m.Fetch().opcode, true) == Listed(m2.Fetch().opcode, false) && Room(list, sz, 16) == 0
    requires m2.sr.sys.s == m.sr.sys.s && m2.A(reg) == StoreList(m, reg, sz).A(reg)
    ensures var m3 := LoadList(m2, reg, sz);
      && RegistersOnly(m2.Fetch(), m3) && m3.A(reg) == m.A(reg)
      && forall k: ListIndex :: !list[k] && RegisterValue(m3, k) == RegisterValue(m2, k)
  {
    hide Even, Cell, Wrap32, Room, StoredDown, LoadedUp, RegisterValue, WordAt, Listed, MaskBit;
    FetchKeeps(m);
    FetchKeeps(m2);
    forall k: ListIndex
      ensures !list[k]
    {
      if list[k] { RoomOrder(list, sz, k, 16); }
    }
  }

  lemma EvenRoom(list: RegisterList, sz: Size, top: int)
    requires Even(top) && sz != Byte
    ensures Even(Wrap32(top - Room(list, sz, 16)))
  {
    hide Wrap32, Room;
    RoomEven(list, sz, 16);
    EvenSum(top, Room(list, sz, 16));
    WrapParity(top - Room(list, sz, 16));
  }

  lemma {:induction false} RoomEven(list: RegisterList, sz: Size, k: nat)
    requires k <= 16 && sz != Byte
    ensures Even(Room(list, sz, k))
  {
    if k > 0 {
      RoomEven(list, sz, k - 1);
    }
  }

  /** A list that is not empty, stored below an even address. */
  lemma StoreListIs(m: Machine, reg: Reg, sz: Size, list: RegisterList)
    requires Even(m.A(reg)) && list == Listed(m.Fetch().opcode, true) && Room(list, sz, 16) != 0
    ensures var (f, top: int, m1) := (m.Fetch(), m.A(reg), StoreList(m, reg, sz));
      && m1.A(reg) == Wrap32(top - Room(list, sz, 16))
      && m1.ram == StoredDown(f, list, sz, 16, Wrap32(top - sz.Bytes()), f.ram)
  {
    hide Even, Cell, Wrap32, Room, StoredDown, WordAt, Listed;
    hide Machine.Fetch, Machine.AddressError;
    FetchKeeps(m);
    SetAReads(m.Fetch().(ram := StoredDown(m.Fetch(), list, sz, 16, Wrap32(m.A(reg) - sz.Bytes()), m.Fetch().ram)), reg,
              Wrap32(m.A(reg) - Room(list, sz, 16)));
  }

  /** The same list, loaded from an even address. */
  lemma LoadListIs(m: Machine, reg: Reg, sz: Size, list: RegisterList, low: u32)
    requires m.A(reg) == low && Even(low) && list == Listed(m.Fetch().opcode, false) && Room(list, sz, 16) != 0
    ensures LoadList(m, reg, sz)
      == LoadedUp(m.Fetch().SetA(reg, Wrap32(low + sz.Bytes())), list, sz, 0, low)
           .SetA(reg, Wrap32(low + Room(list, sz, 16)))
  {
    hide Even, Cell, Wrap32, Room, LoadedUp, WordAt, Listed;
    hide Machine.Fetch, Machine.SetA, Machine.AddressError;
    FetchKeeps(m);
  }

  /** The listed registers come back from their slots: here for register `k`. */
  lemma FullRoundTrip(m: Machine, m2: Machine, reg: Reg, sz: Size, list: RegisterList, k: ListIndex)
    requires sz != Byte && Even(m.A(reg))
    requires list == Listed(m.Fetch().opcode, true) == Listed(m2.Fetch().opcode, false) && Room(list, sz, 16) != 0
    requires var m1 := StoreList(m, reg, sz);
      && m2.sr.sys.s == m.sr.sys.s && m2.A(reg) == m1.A(reg) && SameAbove(m1.ram, m2.ram, m1.A(reg), Room(list, sz, 16))
    ensures var m3 := LoadList(m2, reg, sz);
      && RegistersOnly(m2.Fetch(), m3) && m3.A(reg) == m.A(reg)
      && (k != reg + 8 ==>
            RegisterValue(m3, k) == if list[k] then Kept(sz, RegisterValue(m, k)) else RegisterValue(m2, k))
  {
    hide Even, Cell, Wrap32, Room, StoredDown, LoadedUp, RegisterValue, Extended, Truncate, WordAt, Listed;
    hide SameAbove, RegistersOnly, ReadSized, StoreList, LoadList;
    hide Machine.Fetch, Machine.SetA, Machine.A;
    FetchKeeps(m);
    FetchKeeps(m2);
    var f, f2, top: int := m.Fetch(), m2.Fetch(), m.A(reg);
    var low: int := Wrap32(top - Room(list, sz, 16));
    EvenRoom(list, sz, top);
    WrapStep(top - Room(list, sz, 16), Room(list, sz, 16));
    StoreListIs(m, reg, sz, list);
    LoadListIs(m2, reg, sz, list, low);
    LoadedBetween(f2, list, sz, reg, low, k, Wrap32(low + sz.Bytes()), Wrap32(low + Room(list, sz, 16)));
    if list[k] {
      SlotRead(f, list, sz, top, m2.ram, k);
    }
  }

  /** Loading a list between two changes of An. */
  lemma LoadedBetween(
      m: Machine, list: RegisterList, sz: Size, reg: Reg, base: int, k: ListIndex, first: u32, last: u32)
    ensures var m' := LoadedUp(m.SetA(reg, first), list, sz, 0, base).SetA(reg, last);
      && RegistersOnly(m, m') && m'.A(reg) == last
      && (k != reg + 8 ==>
            RegisterValue(m', k)
              == if list[k] then Extended(sz, ReadSized(m.ram, sz, base + Room(list, sz, k))) else RegisterValue(m, k))
  {
    hide Cell, LoadedUp, Room, RegisterValue, Extended, ReadSized, RegistersOnly;
    var m1 := m.SetA(reg, first);
    var m2 := LoadedUp(m1, list, sz, 0, base);
    assert Room(list, sz, 0) == 0 by { NoRoom(list, sz); }
    LoadedValue(m1, list, sz, 0, base, k);
    SetValueIs(m, reg + 8, first, k);
    SetValueIs(m2, reg + 8, last, k);
    SetValueIsSetA(m, reg, first);
    SetValueIsSetA(m2, reg, last);
    OnlyRam(m, m1);
    RegistersOnlyTransitive(m, m1, m2);
    RegistersOnlyTransitive(m, m2, m2.SetA(reg, last));
    SetAReads(m2, reg, last);
  }

  lemma NoRoom(list: RegisterList, sz: Size)
    ensures Room(list, sz, 0) == 0
  {
  }

  lemma SetValueIsSetA(m: Machine, reg: Reg, v: u32)
    ensures SetRegister(m, reg + 8, v) == m.SetA(reg, v)
  {
  }

  /** Storing any list below An and loading it back, with the bit-reversed mask, into a machine whose registers may
      all have changed but An: every listed register is as it was, or its sign-extended low word in the word form,
      An is as it was whether listed or not, and nothing else changes. */
  lemma MovemRoundTrip(m: Machine, m2: Machine, reg: Reg, sz: Size)
    requires sz != Byte && Even(m.A(reg))
    requires var m1 := StoreList(m, reg, sz);
      && m2.sr.sys.s == m.sr.sys.s && m2.A(reg) == m1.A(reg)
      && SameAbove(m1.ram, m2.ram, m1.A(reg), Room(Listed(m.Fetch().opcode, true), sz, 16))
    requires forall i: ListIndex :: MaskBit(m2.Fetch().opcode, i) == MaskBit(m.Fetch().opcode, 15 - i)
    ensures var m3, list := LoadList(m2, reg, sz), Listed(m.Fetch().opcode, true);
      && RegistersOnly(m2.Fetch(), m3)
      && m3.A(reg) == m.A(reg)
      && forall k: ListIndex :: k != reg + 8 ==>
           RegisterValue(m3, k) == if list[k] then Kept(sz, RegisterValue(m, k)) else RegisterValue(m2, k)
  {
    hide Even, Cell, Wrap32, Room, StoredDown, RegisterValue, Extended, Truncate, RegistersOnly, MaskBit, WordAt;
    hide LoadList, StoreList;
    var list := Listed(m.Fetch().opcode, true);
    ReversedList(m.Fetch().opcode, m2.Fetch().opcode);
    FetchKeeps(m);
    FetchKeeps(m2);
    if Room(list, sz, 16) == 0 {
      EmptyRoundTrip(m, m2, reg, sz, list);
    } else {
      FullRoundTrip(m, m2, reg, sz, list, 0);
      forall k: ListIndex | k != reg + 8
        ensures RegisterValue(LoadList(m2, reg, sz), k)
             == if list[k] then Kept(sz, RegisterValue(m, k)) else RegisterValue(m2, k)
      {
        FullRoundTrip(m, m2, reg, sz, list, k);
      }
    }
  }
}
