/** MOVEM in the modes that neither decrement nor increment, from the instruction words in memory: the listed registers
    lie one after the other from the address upwards, and come back from there. */
module RegisterBlocks {
  import opened Words
  import opened Memories
  import opened Machines
  import opened Regions
  import opened Opcodes
  import opened Operations
  import opened Addressing
  import opened Decoding
  import opened DataMovement
  import opened Movem
  import FlowInstructions
  import MovemInstructions
  import PlainEffects

  /** The register mask follows the opcode: bit `k` lists D0 to D7, then A0 to A7. */
  function MaskOf(m: Machine): u16 {
    Extension(Fetched(m), 0)
  }

  function ListOf(m: Machine): RegisterList {
    Listed(MaskOf(m), false)
  }

  /** The machine behind the mask, at the extension words of the operand. */
  function BehindMask(m: Machine): Machine {
    Fetched(m).(opcode := MaskOf(m), pc := Wrap32(Wrap32(m.pc + 2) + 2))
  }

  /** Where the block starts. */
  function BlockAt(m: Machine, ea: Mode, sz: Size): u32 {
    Address(BehindMask(m), ea, sz)
  }

  predicate Fixed(ea: Mode) {
    ea.InMemory() && !ea.Postincrement? && !ea.Predecrement?
  }

  lemma StoreDecodes(f: Machine, w: u16, sz: Size, hooked: bool)
    requires sz != Byte && w / 0x1000 == 4 && w / 0x40 % 0x40 == (if sz == Long then 35 else 34) && EaMode(w) != 0
    ensures Performed(f, w, hooked) == MovemInstructions.StoreRegisters(f, w, sz)
  {
    hide Performed, Ordinary, Control, PlainEffects.StatusMoved, ToDestination, PlainEffects.SignExtended, EaMode;
    hide MovemInstructions.StoreRegisters, MovemInstructions.LoadRegisters, FlowInstructions.Jump;
    IsLine4(f, w, hooked);
  }

  lemma LoadDecodes(f: Machine, w: u16, sz: Size, hooked: bool)
    requires sz != Byte && w / 0x1000 == 4 && w / 0x40 % 0x40 == if sz == Long then 51 else 50
    ensures Performed(f, w, hooked) == MovemInstructions.LoadRegisters(f, w, sz)
  {
    hide Performed, Ordinary, Control, PlainEffects.StatusMoved, ToDestination, PlainEffects.SignExtended, EaMode;
    hide MovemInstructions.StoreRegisters, MovemInstructions.LoadRegisters, FlowInstructions.Jump;
    IsLine4(f, w, hooked);
  }

  /** The words of the two modes that move An, whose round trip is `MovemRoundTrip`. */
  lemma MovingWords(m: Machine, reg: Reg, sz: Size, hooked: bool)
    requires sz != Byte
    ensures Coded(m, 4, 4, if sz == Long then 3 else 2, Predecrement(reg)) ==>
      Executed(m, hooked) == Becomes(StoreList(Fetched(m), reg, sz))
    ensures Coded(m, 4, 6, if sz == Long then 3 else 2, Postincrement(reg)) ==>
      Executed(m, hooked) == Becomes(LoadList(Fetched(m), reg, sz))
  {
    hide WordAt, Wrap32, Encode, EaReg, EaMode, OpReg, OpMode, Performed, StoreList, LoadList;
    Begins(m, hooked);
    EncodedFields(4, 4, if sz == Long then 3 else 2, 4, reg);
    EncodedFields(4, 6, if sz == Long then 3 else 2, 3, reg);
    if Coded(m, 4, 4, if sz == Long then 3 else 2, Predecrement(reg)) {
      StoreDecodes(Fetched(m), WordAt(m.ram, m.pc), sz, hooked);
    }
    if Coded(m, 4, 6, if sz == Long then 3 else 2, Postincrement(reg)) {
      LoadDecodes(Fetched(m), WordAt(m.ram, m.pc), sz, hooked);
    }
  }

  /** Each listed register lies above the listed registers before it; nothing else in memory has changed, and the
      registers are as they were. */
  lemma MovemStores(m: Machine, ea: Mode, sz: Size, hooked: bool)
    requires sz != Byte && Coded(m, 4, 4, if sz == Long then 3 else 2, ea) && Fixed(ea)
    requires Even(BlockAt(m, ea, sz))
    ensures Executed(m, hooked).Becomes?
    ensures var (m', list, at: int) := (Executed(m, hooked).m, ListOf(m), BlockAt(m, ea, sz));
      && m' == Behind(BehindMask(m), ea, sz).(ram := m'.ram)
      && (forall k: ListIndex :: list[k] ==>
            ReadSized(m'.ram, sz, at + Room(list, sz, k)) == Low(sz, RegisterValue(m, k)))
      && (forall a: int :: at + Room(list, sz, 16) - MEM_MAX <= a < at ==> m'.ram[Cell(a)] == m.ram[Cell(a)])
  {
    hide WordAt, Wrap32, Encode, EaReg, EaMode, OpReg, OpMode, Performed, Behind, BehindMask, ListOf, BlockAt, Room;
    hide MovemInstructions.StoreRegisters, Low, RegisterValue, ReadSized, Cell, Even;
    Begins(m, hooked);
    EncodedFields(4, 4, if sz == Long then 3 else 2, ea.Field(), ea.Register());
    StoreDecodes(Fetched(m), WordAt(m.ram, m.pc), sz, hooked);
    StoreAt(m, WordAt(m.ram, m.pc), ea, sz);
    Blocks(m, Behind(BehindMask(m), ea, sz), ListOf(m), sz, BlockAt(m, ea, sz));
    BehindMaskKeeps(m, ea, sz);
  }

  lemma StoreAt(m: Machine, w: u16, ea: Mode, sz: Size)
    requires sz != Byte && EaMode(w) == ea.Field() && EaReg(w) == ea.Register() && Fixed(ea)
    requires Even(BlockAt(m, ea, sz))
    ensures var g := Behind(BehindMask(m), ea, sz);
      MovemInstructions.StoreRegisters(Fetched(m), w, sz)
      == Becomes(g.(ram := StoredUp(g, ListOf(m), sz, 0, BlockAt(m, ea, sz), g.ram)))
  {
    hide WordAt, Wrap32, EaReg, EaMode, Behind, AddressOf, Even, Room, StoredUp, Listed, StoreList;
    hide Machine.Resolve;
    MaskFetched(m);
    SetUp(BehindMask(m), ea, sz);
  }

  lemma MaskFetched(m: Machine)
    ensures Fetched(m).Fetch() == BehindMask(m)
  {
    hide WordAt, Wrap32;
    WrapStep(m.pc + 2, 0);
  }

  /** The operand set-up keeps every register. */
  lemma BehindMaskKeeps(m: Machine, ea: Mode, sz: Size)
    requires Fixed(ea)
    ensures Behind(BehindMask(m), ea, sz).ram == m.ram
    ensures forall k: ListIndex :: RegisterValue(Behind(BehindMask(m), ea, sz), k) == RegisterValue(m, k)
  {
    hide WordAt, Wrap32, MaskOf;
  }

  lemma Blocks(m: Machine, g: Machine, list: RegisterList, sz: Size, at: int)
    ensures var ram' := StoredUp(g, list, sz, 0, at, g.ram);
      && (forall k: ListIndex :: list[k] ==>
            ReadSized(ram', sz, at + Room(list, sz, k)) == Low(sz, RegisterValue(g, k)))
      && (forall a: int :: at + Room(list, sz, 16) - MEM_MAX <= a < at ==> ram'[Cell(a)] == g.ram[Cell(a)])
  {
    hide StoredUp, RegisterValue, ReadSized, Cell, Low, Truncate;
    var ram' := StoredUp(g, list, sz, 0, at, g.ram);
    assert Room(list, sz, 0) == 0;
    hide Room;
    forall k: ListIndex | list[k]
      ensures ReadSized(ram', sz, at + Room(list, sz, k)) == Low(sz, RegisterValue(g, k))
    {
      UpSlot(g, list, sz, 0, at, g.ram, k);
      LowIs(sz, RegisterValue(g, k));
    }
    forall a: int | at + Room(list, sz, 16) - MEM_MAX <= a < at
      ensures ram'[Cell(a)] == g.ram[Cell(a)]
    {
      UpFrame(g, list, sz, 0, at, g.ram, a);
    }
  }

  /** Each listed register is loaded from there, a word with its sign; the others keep their values. */
  lemma MovemLoads(m: Machine, ea: Mode, sz: Size, hooked: bool)
    requires sz != Byte && Coded(m, 4, 6, if sz == Long then 3 else 2, ea) && Fixed(ea)
    requires Even(BlockAt(m, ea, sz))
    ensures Executed(m, hooked).Becomes?
    ensures var (m', list, at: int) := (Executed(m, hooked).m, ListOf(m), BlockAt(m, ea, sz));
      && RegistersOnly(Behind(BehindMask(m), ea, sz), m')
      && (forall k: ListIndex ::
            RegisterValue(m', k)
            == if list[k] then Wrap32(Signed(sz, ReadSized(m.ram, sz, at + Room(list, sz, k))))
               else RegisterValue(m, k))
  {
    hide WordAt, Wrap32, Encode, EaReg, EaMode, OpReg, OpMode, Performed, Behind, BehindMask, ListOf, BlockAt, Room;
    hide MovemInstructions.LoadRegisters, RegisterValue, ReadSized, Cell, Even, RegistersOnly, Signed;
    Begins(m, hooked);
    EncodedFields(4, 6, if sz == Long then 3 else 2, ea.Field(), ea.Register());
    LoadDecodes(Fetched(m), WordAt(m.ram, m.pc), sz, hooked);
    LoadAt(m, WordAt(m.ram, m.pc), ea, sz);
    Loaded(Behind(BehindMask(m), ea, sz), ListOf(m), sz, BlockAt(m, ea, sz));
    BehindMaskKeeps(m, ea, sz);
  }

  lemma LoadAt(m: Machine, w: u16, ea: Mode, sz: Size)
    requires sz != Byte && EaMode(w) == ea.Field() && EaReg(w) == ea.Register() && Fixed(ea)
    requires Even(BlockAt(m, ea, sz))
    ensures var g := Behind(BehindMask(m), ea, sz);
      MovemInstructions.LoadRegisters(Fetched(m), w, sz)
      == Becomes(LoadedUp(g, ListOf(m), sz, 0, BlockAt(m, ea, sz)))
  {
    hide WordAt, Wrap32, EaReg, EaMode, Behind, AddressOf, Even, Room, LoadedUp, Listed, LoadList;
    hide Machine.Resolve;
    MaskFetched(m);
    SetUp(BehindMask(m), ea, sz);
  }

  lemma Loaded(g: Machine, list: RegisterList, sz: Size, at: int)
    ensures var m' := LoadedUp(g, list, sz, 0, at);
      && RegistersOnly(g, m')
      && (forall k: ListIndex ::
            RegisterValue(m', k)
            == if list[k] then Wrap32(Signed(sz, ReadSized(g.ram, sz, at + Room(list, sz, k))))
               else RegisterValue(g, k))
  {
    hide LoadedUp, RegisterValue, ReadSized, Cell, RegistersOnly, Wrap32, Signed, Extended;
    assert Room(list, sz, 0) == 0;
    hide Room;
    forall k: ListIndex
      ensures RegistersOnly(g, LoadedUp(g, list, sz, 0, at))
      ensures RegisterValue(LoadedUp(g, list, sz, 0, at), k)
        == if list[k] then Wrap32(Signed(sz, ReadSized(g.ram, sz, at + Room(list, sz, k)))) else RegisterValue(g, k)
    {
      LoadedValue(g, list, sz, 0, at, k);
      ExtendedValue(sz, ReadSized(g.ram, sz, at + Room(list, sz, k)));
    }
  }

  lemma ExtendedValue(sz: Size, v: u32)
    requires v < sz.Modulus()
    ensures Extended(sz, v) == Wrap32(Signed(sz, v))
  {
  }

  /** An odd address stops a list that is not empty before its first register, as a write or as a read. */
  lemma MovemFaults(m: Machine, ea: Mode, sz: Size, load: bool, hooked: bool)
    requires sz != Byte && Coded(m, 4, if load then 6 else 4, if sz == Long then 3 else 2, ea) && Fixed(ea)
    requires !Even(BlockAt(m, ea, sz)) && Room(ListOf(m), sz, 16) != 0
    ensures Executed(m, hooked)
      == Becomes(Behind(BehindMask(m), ea, sz).AddressError(BlockAt(m, ea, sz), load, ea.FromPc()))
  {
    hide WordAt, Wrap32, Encode, EaReg, EaMode, OpReg, OpMode, Performed, Behind, AddressOf, Even, Room, Listed;
    hide StoreList, LoadList, StoredUp, LoadedUp, Machine.Resolve, Machine.AddressError;
    var w := WordAt(m.ram, m.pc);
    Begins(m, hooked);
    EncodedFields(4, if load then 6 else 4, if sz == Long then 3 else 2, ea.Field(), ea.Register());
    if load {
      LoadDecodes(Fetched(m), w, sz, hooked);
    } else {
      StoreDecodes(Fetched(m), w, sz, hooked);
    }
    MaskFetched(m);
    SetUp(BehindMask(m), ea, sz);
  }

  /** A block that has been stored, and left alone, brings the listed registers back: all of a long, and the low word
      of a word with its sign, whatever mode names the block then. */
  lemma BlockRoundTrip(m: Machine, ea: Mode, m2: Machine, ea2: Mode, sz: Size, hooked: bool, k: ListIndex)
    requires sz != Byte && Fixed(ea) && Fixed(ea2)
    requires Coded(m, 4, 4, if sz == Long then 3 else 2, ea) && Coded(m2, 4, 6, if sz == Long then 3 else 2, ea2)
    requires Even(BlockAt(m, ea, sz)) && BlockAt(m2, ea2, sz) == BlockAt(m, ea, sz) && ListOf(m2) == ListOf(m)
    requires Executed(m, hooked).Becomes? ==>
      SameAbove(Executed(m, hooked).m.ram, m2.ram, BlockAt(m, ea, sz), Room(ListOf(m), sz, 16))
    ensures Executed(m2, hooked).Becomes?
    ensures RegisterValue(Executed(m2, hooked).m, k)
      == if ListOf(m)[k] then Wrap32(Signed(sz, Low(sz, RegisterValue(m, k)))) else RegisterValue(m2, k)
  {
    hide Coded, WordAt, Wrap32, Executed, Behind, BehindMask, ListOf, BlockAt, Room, Even, Low, RegisterValue, Signed;
    hide ReadSized, Cell, RegistersOnly, SameAbove;
    MovemStores(m, ea, sz, hooked);
    MovemLoads(m2, ea2, sz, hooked);
    if ListOf(m)[k] {
      var (list, at: int) := (ListOf(m), BlockAt(m, ea, sz));
      SlotKept(Executed(m, hooked).m.ram, m2.ram, list, sz, at, k);
    }
  }

  lemma SlotKept(ram: Ram, ram': Ram, list: RegisterList, sz: Size, at: int, k: ListIndex)
    requires list[k] && SameAbove(ram, ram', at, Room(list, sz, 16))
    ensures ReadSized(ram', sz, at + Room(list, sz, k)) == ReadSized(ram, sz, at + Room(list, sz, k))
  {
    hide Cell, ReadSized, Room;
    var slot := Room(list, sz, k);
    var up := at + slot;
    RoomOrder(list, sz, k, 16);
    forall i | 0 <= i < sz.Bytes()
      ensures ram'[Above(up, i)] == ram[Above(up, i)]
    {
      assert Above(up, i) == Above(at, slot + i);
    }
    ReadSame(ram, ram', sz, up);
  }
}
