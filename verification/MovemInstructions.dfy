/** MOVEM in place: the loops over the register list. */
module MovemInstructions {
  import opened Words
  import opened Memories
  import opened Machines
  import opened Safety
  import opened Opcodes
  import opened Operations
  import opened Cpus
  import opened Movem

  /** The register that an entry of the list names. */
  function ListedValue(cpu: Cpu, k: ListIndex): (v: u32)
    requires cpu.Valid()
    reads cpu, cpu.d, cpu.a, cpu.mem.ram
    ensures v == RegisterValue(cpu.S(), k)
  {
    if k < 8 then cpu.d[k] else cpu.AddressRegValue(k - 8)
  }

  method SetListed(cpu: Cpu, k: ListIndex, v: u32)
    requires cpu.Valid()
    modifies cpu`ssp, cpu.d, cpu.a
    ensures cpu.S() == SetRegister(old(cpu.S()), k, v)
    ensures Within(old(cpu.S()), cpu.S())
  {
    hide Within;
    ghost var m := cpu.S();
    if k < 8 {
      cpu.SetDataReg(k, v);
      PlainWithin(m, cpu.S());
    } else {
      cpu.AddressRegSetLong(k - 8, v);
    }
  }

  // ---- One register ----

  /** A write of one register; `at` is the address before it was wrapped, when it is one. */
  method StoreOne(cpu: Cpu, sz: Size, value: u32, ghost at: int) returns (o: Outcome<()>)
    requires cpu.Valid() && value < sz.Modulus() && sz != Byte
    requires cpu.dst.l == MemoryLocation ==> cpu.dst.n == Wrap32(at)
    modifies cpu`pc, cpu`ssp, cpu`sys, cpu.d, cpu.a, cpu.mem.ram
    ensures cpu.dst.l == MemoryLocation ==>
      && !o.Undefined? && (o.Done? <==> Even(at))
      && (o.Done? ==> cpu.S() == old(cpu.S()).(ram := WriteSized(old(cpu.S()).ram, sz, at, value)))
      && (o.Exception? ==> cpu.S() == old(cpu.S()).AddressError(Wrap32(at), false, cpu.dst.programSpace))
    ensures Safe(old(cpu.S()), cpu.S(), o)
  {
    hide Within, Taken, Wrap32, Even, Cell, WriteSized;
    hide Machine.AddressError;
    WrapCell(at);
    WrapParity(at);
    AccessWraps(cpu.mem.Bytes(), sz, Wrap32(at), at, value);
    o := cpu.DstWrite(sz, value);
  }

  method LoadOne(cpu: Cpu, sz: Size, ghost at: int) returns (o: Outcome<u32>)
    requires cpu.Valid() && sz != Byte
    requires cpu.src.l == MemoryLocation ==> cpu.src.n == Wrap32(at)
    modifies cpu`pc, cpu`ssp, cpu`sys, cpu.mem.ram
    ensures o.Done? ==> o.value < sz.Modulus() && cpu.S() == old(cpu.S())
    ensures cpu.src.l == MemoryLocation ==>
      && !o.Undefined? && (o.Done? <==> Even(at))
      && (o.Done? ==> o.value == ReadSized(old(cpu.S()).ram, sz, at))
      && (o.Exception? ==> cpu.S() == old(cpu.S()).AddressError(Wrap32(at), true, cpu.src.programSpace))
    ensures Safe(old(cpu.S()), cpu.S(), o)
  {
    hide Within, Taken, Wrap32, Even, Cell, ReadSized;
    hide Machine.AddressError;
    WrapCell(at);
    WrapParity(at);
    AccessWraps(cpu.mem.Bytes(), sz, Wrap32(at), at, 0);
    o := cpu.SrcRead(sz);
  }

  lemma SameParity(at: int, moved: int, w: int)
    requires Even(moved) && (w == 2 || w == 4)
    ensures Even(at - moved) == Even(at) == Even(at + moved) && Even(moved + w)
  {
  }

  // ---- Storing downwards ----

  /** The first `i` entries of the mask have been stored, over `moved` bytes. */
  ghost predicate StoringDown(m: Machine, m': Machine, list: RegisterList, sz: Size, at: int, i: nat, moved: int)
    requires i <= 16
  {
    && moved == Room(list, sz, 16) - Room(list, sz, 16 - i) && Even(moved)
    && (moved != 0 ==> Even(at))
    && m' == m.(ram := m'.ram) && (moved == 0 ==> m' == m)
    && StoredDown(m, list, sz, 16, at, m.ram) == StoredDown(m, list, sz, 16 - i, at - moved, m'.ram)
  }

  lemma StoredNext(m: Machine, m': Machine, m'': Machine, list: RegisterList, sz: Size, at: int, i: nat, moved: int)
    requires i < 16 && sz != Byte && StoringDown(m, m', list, sz, at, i, moved)
    requires list[15 - i] ==>
      && Even(at - moved)
      && m'' == m'.(ram := WriteSized(m'.ram, sz, at - moved, Truncate(sz, RegisterValue(m', 15 - i))))
    requires !list[15 - i] ==> m'' == m'
    ensures StoringDown(m, m'', list, sz, at, i + 1, moved + if list[15 - i] then sz.Bytes() else 0)
  {
    hide Even, WriteSized, Truncate;
    SameParity(at, moved, sz.Bytes());
    RoomGrows(list, sz, 15 - i);
  }

  lemma RoomGrows(list: RegisterList, sz: Size, k: nat)
    requires k < 16
    ensures Room(list, sz, k + 1) == Room(list, sz, k) + if list[k] then sz.Bytes() else 0
    ensures Room(list, sz, 16) >= Room(list, sz, k + 1)
  {
    hide Room;
    RoomMonotonic(list, sz, k + 1, 16);
    RoomUnfolds(list, sz, k);
  }

  lemma RoomUnfolds(list: RegisterList, sz: Size, k: nat)
    requires k < 16
    ensures Room(list, sz, k + 1) == Room(list, sz, k) + if list[k] then sz.Bytes() else 0
  {
  }

  lemma {:induction false} RoomMonotonic(list: RegisterList, sz: Size, j: nat, k: nat)
    requires j <= k <= 16
    ensures Room(list, sz, j) <= Room(list, sz, k)
  {
    if j < k {
      RoomMonotonic(list, sz, j, k - 1);
    }
  }

  /** The writes of MOVEM to -(An): A7 first, D0 last, each below the one before. `moved` is how far down they
      have come. */
  method StoreDown(cpu: Cpu, mask: u16, sz: Size) returns (o: Outcome<()>, moved: int)
    requires cpu.Valid() && cpu.dst.l == MemoryLocation && sz != Byte
    modifies cpu, cpu.d, cpu.a, cpu.mem.ram
    ensures var m, list, at: int := old(cpu.S()), Listed(mask, true), old(cpu.dst.n);
      && !o.Undefined?
      && (o.Done? <==> Room(list, sz, 16) == 0 || Even(at))
      && (o.Done? ==> moved == Room(list, sz, 16) && cpu.S() == m.(ram := StoredDown(m, list, sz, 16, at, m.ram)))
      && (o.Exception? ==> cpu.S() == m.AddressError(at, false, old(cpu.dst).programSpace))
    ensures Safe(old(cpu.S()), cpu.S(), o)
  {
    hide Within, Taken, Wrap32, Even, Cell, Listed, MaskBit, Truncate, WriteSized, RegisterValue;
    hide Room, StoringDown, StoredDown;
    hide Machine.AddressError;
    ghost var m, list, at: int := cpu.S(), Listed(mask, true), cpu.dst.n;
    var i := 0;
    moved := 0;
    NothingStored(m, list, sz, at);
    while i < 16
      invariant 0 <= i <= 16
      invariant cpu.dst == old(cpu.dst).(n := Wrap32(at - moved))
      invariant StoringDown(m, cpu.S(), list, sz, at, i, moved)
    {
      ghost var m1 := cpu.S();
      ListedAt(mask, true, 15 - i);
      StoringKeeps(m, m1, list, sz, at, i, moved);
      if MaskBit(mask, i) {
        WrapStep(at - moved, 0 - sz.Bytes());
        o := StoreOne(cpu, sz, Truncate(sz, ListedValue(cpu, 15 - i)), at - moved);
        SafeAfter(m, m1, cpu.S(), o);
        if o.IsFailure() {
          RoomGrows(list, sz, 15 - i);
          return;
        }
        cpu.dst := cpu.dst.(n := Wrap32(cpu.dst.n - sz.Bytes()));
      }
      StoredNext(m, m1, cpu.S(), list, sz, at, i, moved);
      moved := moved + if MaskBit(mask, i) then sz.Bytes() else 0;
      i := i + 1;
    }
    StoringKeeps(m, cpu.S(), list, sz, at, 16, moved);
    AllStored(m, cpu.S(), list, sz, at, moved);
    o := Done(());
  }

  lemma NothingStored(m: Machine, list: RegisterList, sz: Size, at: int)
    ensures StoringDown(m, m, list, sz, at, 0, 0)
  {
  }

  lemma StoringKeeps(m: Machine, m': Machine, list: RegisterList, sz: Size, at: int, i: nat, moved: int)
    requires i <= 16 && StoringDown(m, m', list, sz, at, i, moved)
    ensures Within(m, m') && (Even(at - moved) <==> Even(at)) && (moved == 0 ==> m' == m) && (!Even(at) ==> moved == 0)
  {
    hide Room, StoredDown;
    SameParity(at, moved, 2);
  }

  lemma AllStored(m: Machine, m': Machine, list: RegisterList, sz: Size, at: int, moved: int)
    requires StoringDown(m, m', list, sz, at, 16, moved)
    ensures moved == Room(list, sz, 16) && m' == m.(ram := StoredDown(m, list, sz, 16, at, m.ram))
    ensures moved != 0 ==> Even(at)
  {
    hide Even, WriteSized;
  }

  // ---- Storing upwards ----

  ghost predicate StoringUp(m: Machine, m': Machine, list: RegisterList, sz: Size, at: int, i: nat)
    requires i <= 16
  {
    var moved := Room(list, sz, i);
    && Even(moved) && (moved != 0 ==> Even(at))
    && m' == m.(ram := m'.ram) && (moved == 0 ==> m' == m)
    && StoredUp(m, list, sz, 0, at, m.ram) == StoredUp(m, list, sz, i, at + moved, m'.ram)
  }

  lemma StoredUpNext(m: Machine, m': Machine, m'': Machine, list: RegisterList, sz: Size, at: int, i: nat)
    requires i < 16 && sz != Byte && StoringUp(m, m', list, sz, at, i)
    requires list[i] ==>
      && Even(at + Room(list, sz, i))
      && m'' == m'.(ram := WriteSized(m'.ram, sz, at + Room(list, sz, i), Truncate(sz, RegisterValue(m', i))))
    requires !list[i] ==> m'' == m'
    ensures StoringUp(m, m'', list, sz, at, i + 1)
  {
    hide Even, WriteSized, Truncate, Room;
    SameParity(at, Room(list, sz, i), sz.Bytes());
    RoomUnfolds(list, sz, i);
  }

  lemma NothingStoredUp(m: Machine, list: RegisterList, sz: Size, at: int)
    ensures StoringUp(m, m, list, sz, at, 0)
  {
  }

  lemma StoringUpKeeps(m: Machine, m': Machine, list: RegisterList, sz: Size, at: int, i: nat)
    requires i <= 16 && StoringUp(m, m', list, sz, at, i)
    ensures Even(at + Room(list, sz, i)) <==> Even(at)
    ensures Room(list, sz, i) == 0 ==> m' == m
    ensures !Even(at) ==> Room(list, sz, i) == 0
  {
    hide Room, StoredUp;
    SameParity(at, Room(list, sz, i), 2);
  }

  lemma AllStoredUp(m: Machine, m': Machine, list: RegisterList, sz: Size, at: int)
    requires StoringUp(m, m', list, sz, at, 16)
    ensures m' == m.(ram := StoredUp(m, list, sz, 0, at, m.ram))
    ensures Room(list, sz, 16) != 0 ==> Even(at)
  {
    hide Even, WriteSized;
  }

  /** The writes of MOVEM in the other modes: D0 first, A7 last. A destination that is not in memory is not a legal
      one; its number still counts up. */
  method StoreUp(cpu: Cpu, mask: u16, sz: Size) returns (o: Outcome<()>)
    requires cpu.Valid() && sz != Byte
    modifies cpu, cpu.d, cpu.a, cpu.mem.ram
    ensures old(cpu.dst).l == MemoryLocation ==>
      var m, list, at: int := old(cpu.S()), Listed(mask, false), old(cpu.dst.n);
      && !o.Undefined?
      && (o.Done? <==> Room(list, sz, 16) == 0 || Even(at))
      && (o.Done? ==> cpu.S() == m.(ram := StoredUp(m, list, sz, 0, at, m.ram)))
      && (o.Exception? ==> cpu.S() == m.AddressError(at, false, old(cpu.dst).programSpace))
    ensures Safe(old(cpu.S()), cpu.S(), o)
  {
    hide Within, Taken, Wrap32, Even, Cell, Listed, MaskBit, Truncate, WriteSized, RegisterValue;
    hide Room, StoringUp, StoredUp;
    hide Machine.AddressError;
    ghost var m, list, at: int := cpu.S(), Listed(mask, false), cpu.dst.n;
    ghost var inMemory := cpu.dst.l == MemoryLocation;
    var i := 0;
    NothingStoredUp(m, list, sz, at);
    PlainWithin(m, m);
    RoomStart(list, sz);
    while i < 16
      invariant 0 <= i <= 16
      invariant cpu.dst.l == old(cpu.dst).l && cpu.dst.programSpace == old(cpu.dst).programSpace
      invariant Within(m, cpu.S())
      invariant inMemory ==> cpu.dst.n == Wrap32(at + Room(list, sz, i)) && StoringUp(m, cpu.S(), list, sz, at, i)
    {
      ghost var m1 := cpu.S();
      ListedAt(mask, false, i);
      RoomGrows(list, sz, i);
      if inMemory { StoringUpKeeps(m, m1, list, sz, at, i); }
      if MaskBit(mask, i) {
        WrapStep(at + Room(list, sz, i), sz.Bytes());
        o := StoreOne(cpu, sz, Truncate(sz, ListedValue(cpu, i)), at + Room(list, sz, i));
        SafeAfter(m, m1, cpu.S(), o);
        if o.IsFailure() {
          return;
        }
        cpu.dst := cpu.dst.(n := Wrap32(cpu.dst.n + sz.Bytes()));
      }
      if inMemory { StoredUpNext(m, m1, cpu.S(), list, sz, at, i); }
      i := i + 1;
    }
    if inMemory { AllStoredUp(m, cpu.S(), list, sz, at); }
    o := Done(());
  }

  lemma RoomStart(list: RegisterList, sz: Size)
    ensures Room(list, sz, 0) == 0
  {
  }

  // ---- Loading ----

  ghost predicate Loading(m: Machine, m': Machine, list: RegisterList, sz: Size, at: int, i: nat)
    requires i <= 16
  {
    var moved := Room(list, sz, i);
    && Even(moved) && (moved != 0 ==> Even(at))
    && m'.ram == m.ram && (moved == 0 ==> m' == m)
    && LoadedUp(m, list, sz, 0, at) == LoadedUp(m', list, sz, i, at + moved)
  }

  lemma LoadedNext(m: Machine, m': Machine, m'': Machine, list: RegisterList, sz: Size, at: int, i: nat)
    requires i < 16 && sz != Byte && Loading(m, m', list, sz, at, i)
    requires list[i] ==>
      && Even(at + Room(list, sz, i))
      && m'' == SetRegister(m', i, Extended(sz, ReadSized(m'.ram, sz, at + Room(list, sz, i))))
    requires !list[i] ==> m'' == m'
    ensures Loading(m, m'', list, sz, at, i + 1)
  {
    hide Even, ReadSized, Extended, Room;
    SameParity(at, Room(list, sz, i), sz.Bytes());
    RoomUnfolds(list, sz, i);
  }

  lemma NothingLoadedYet(m: Machine, list: RegisterList, sz: Size, at: int)
    ensures Loading(m, m, list, sz, at, 0)
  {
  }

  lemma LoadingKeeps(m: Machine, m': Machine, list: RegisterList, sz: Size, at: int, i: nat)
    requires i <= 16 && Loading(m, m', list, sz, at, i)
    ensures m'.ram == m.ram
    ensures Even(at + Room(list, sz, i)) <==> Even(at)
    ensures Room(list, sz, i) == 0 ==> m' == m
    ensures !Even(at) ==> Room(list, sz, i) == 0
  {
    hide Room, LoadedUp;
    SameParity(at, Room(list, sz, i), 2);
  }

  lemma AllLoaded(m: Machine, m': Machine, list: RegisterList, sz: Size, at: int)
    requires Loading(m, m', list, sz, at, 16)
    ensures m' == LoadedUp(m, list, sz, 0, at)
    ensures Room(list, sz, 16) != 0 ==> Even(at)
  {
    hide Even;
  }

  /** The reads of MOVEM to registers, in every mode: D0 first, A7 last. */
  method LoadUp(cpu: Cpu, mask: u16, sz: Size) returns (o: Outcome<()>, moved: int)
    requires cpu.Valid() && sz != Byte
    modifies cpu, cpu.d, cpu.a, cpu.mem.ram
    ensures old(cpu.src).l == MemoryLocation ==>
      var m, list, at: int := old(cpu.S()), Listed(mask, false), old(cpu.src.n);
      && !o.Undefined?
      && (o.Done? <==> Room(list, sz, 16) == 0 || Even(at))
      && (o.Done? ==> moved == Room(list, sz, 16) && cpu.S() == LoadedUp(m, list, sz, 0, at))
      && (o.Exception? ==> cpu.S() == m.AddressError(at, true, old(cpu.src).programSpace))
    ensures Safe(old(cpu.S()), cpu.S(), o)
  {
    hide Within, Taken, Wrap32, Even, Cell, Listed, MaskBit, Extended, ReadSized, SetRegister, Room, Loading, LoadedUp;
    hide Machine.AddressError;
    ghost var m, list, at: int := cpu.S(), Listed(mask, false), cpu.src.n;
    ghost var inMemory := cpu.src.l == MemoryLocation;
    var i := 0;
    moved := 0;
    NothingLoadedYet(m, list, sz, at);
    PlainWithin(m, m);
    RoomStart(list, sz);
    while i < 16
      invariant 0 <= i <= 16
      invariant cpu.src.l == old(cpu.src).l && cpu.src.programSpace == old(cpu.src).programSpace
      invariant Within(m, cpu.S()) && moved == Room(list, sz, i)
      invariant inMemory ==> cpu.src.n == Wrap32(at + Room(list, sz, i)) && Loading(m, cpu.S(), list, sz, at, i)
    {
      ghost var m1 := cpu.S();
      ListedAt(mask, false, i);
      RoomGrows(list, sz, i);
      if inMemory { LoadingKeeps(m, m1, list, sz, at, i); }
      if MaskBit(mask, i) {
        WrapStep(at + Room(list, sz, i), sz.Bytes());
        var v := LoadOne(cpu, sz, at + Room(list, sz, i));
        SafeAfter(m, m1, cpu.S(), v);
        if v.IsFailure() {
          o := v.PropagateFailure();
          return;
        }
        SetListed(cpu, i, Extended(sz, v.value));
        WithinTwice(m, m1, cpu.S());
        cpu.src := cpu.src.(n := Wrap32(cpu.src.n + sz.Bytes()));
        moved := moved + sz.Bytes();
      }
      if inMemory { LoadedNext(m, m1, cpu.S(), list, sz, at, i); }
      i := i + 1;
    }
    if inMemory { AllLoaded(m, cpu.S(), list, sz, at); }
    o := Done(());
  }

  // ---- The instructions ----

  /** MOVEM to memory in a mode other than -(An). */
  function StoreUpwards(m: Machine, opcode: u16, sz: Size): Expected {
    var m1 := m.Fetch();
    var list := Listed(m1.opcode, false);
    match m1.Resolve(EaReg(opcode), EaMode(opcode), sz.Bytes())
    case At(m2, at) =>
      if at.l != MemoryLocation then Unspecified
      else if Room(list, sz, 16) == 0 || Even(at.n) then Becomes(m2.(ram := StoredUp(m2, list, sz, 0, at.n, m2.ram)))
      else Becomes(m2.AddressError(at.n, false, at.programSpace))
    case IllegalMode => Becomes(m1.Exception(VECTOR_ILLEGAL_INSTRUCTION))
  }

  function StoreRegisters(m: Machine, opcode: u16, sz: Size): Expected {
    if EaMode(opcode) == 4 then Becomes(StoreList(m, EaReg(opcode), sz)) else StoreUpwards(m, opcode, sz)
  }

  /** MOVEM from memory in a mode other than (An)+. */
  function LoadUpwards(m: Machine, opcode: u16, sz: Size): Expected {
    var m1 := m.Fetch();
    var list := Listed(m1.opcode, false);
    match m1.Resolve(EaReg(opcode), EaMode(opcode), sz.Bytes())
    case At(m2, at) =>
      if at.l != MemoryLocation then Unspecified
      else if Room(list, sz, 16) == 0 || Even(at.n) then Becomes(LoadedUp(m2, list, sz, 0, at.n))
      else Becomes(m2.AddressError(at.n, true, at.programSpace))
    case IllegalMode => Becomes(m1.Exception(VECTOR_ILLEGAL_INSTRUCTION))
  }

  function LoadRegisters(m: Machine, opcode: u16, sz: Size): Expected {
    if EaMode(opcode) == 3 then Becomes(LoadList(m, EaReg(opcode), sz)) else LoadUpwards(m, opcode, sz)
  }

  lemma SetAgain(m: Machine, reg: Reg, v: u32, w: u32)
    ensures m.SetA(reg, v).SetA(reg, w) == m.SetA(reg, w)
    ensures m.SetA(reg, m.A(reg)) == m
  {
    assert m.a[reg := v][reg := w] == m.a[reg := w];
    assert m.a[reg := m.a[reg]] == m.a;
  }

  /** The address register before -(An) is decremented again, and where the first register goes. */
  lemma PredecrementAt(m: Machine, reg: Reg, sz: Size)
    requires sz != Byte
    ensures var m1 := m.DecA(reg, sz.Bytes());
      && m1.A(reg) == Wrap32(m.A(reg) - sz.Bytes())
      && m1.IncA(reg, sz.Bytes()) == m
      && Even(m1.A(reg)) == Even(m.A(reg))
  {
    hide Wrap32, Even;
    var top: int := m.A(reg);
    WrapStep(top - sz.Bytes(), sz.Bytes());
    SetAReads(m, reg, Wrap32(top - sz.Bytes()));
    SetAgain(m, reg, Wrap32(top - sz.Bytes()), top);
    WrapParity(top - sz.Bytes());
    EvenStep(top, sz.Bytes());
  }

  lemma EvenStep(a: int, w: int)
    requires w == 2 || w == 4
    ensures Even(a - w) == Even(a) == Even(a + w)
  {
  }

  lemma PredecrementDone(m: Machine, list: RegisterList, reg: Reg, sz: Size)
    requires Room(list, sz, 16) == 0 || Even(m.A(reg))
    ensures var at: int := Wrap32(m.A(reg) - sz.Bytes());
      m.(ram := StoredDown(m, list, sz, 16, at, m.ram)).SetA(reg, Wrap32(at - Room(list, sz, 16) + sz.Bytes()))
        == StoredList(m, list, reg, sz)
  {
    hide Wrap32, Even, StoredDown, Room;
    hide Machine.A, Machine.SetA, Machine.AddressError;
    var top: int := m.A(reg);
    WrapStep(top - sz.Bytes(), sz.Bytes() - Room(list, sz, 16));
    if Room(list, sz, 16) == 0 {
      NothingToLoad(m, list, sz, Wrap32(top - sz.Bytes()));
      SetAgain(m, reg, 0, 0);
    }
  }

  /** MOVEM to -(An), after the mask has been fetched. */
  method StorePredecrement(cpu: Cpu, mask: u16, reg: Reg, sz: Size) returns (o: Outcome<()>)
    requires cpu.Valid() && sz != Byte
    modifies cpu, cpu.d, cpu.a, cpu.mem.ram
    ensures !o.Undefined? && cpu.S() == StoredList(old(cpu.S()), Listed(mask, true), reg, sz)
    ensures Safe(old(cpu.S()), cpu.S(), o)
  {
    hide Within, Taken, Wrap32, Even, StoredDown, Listed, Room;
    hide Machine.A, Machine.SetA, Machine.DecA, Machine.IncA, Machine.AddressError;
    ghost var m := cpu.S();
    var _ := cpu.DstSet(reg, 4, sz.Bytes());
    var regVal: int := cpu.AddressRegValue(reg);
    cpu.AddressRegInc(reg, sz.Bytes());
    PredecrementAt(m, reg, sz);
    var moved: int;
    o, moved := StoreDown(cpu, mask, sz);
    if o.IsFailure() {
      return;
    }
    ghost var m1 := cpu.S();
    PredecrementDone(m, Listed(mask, true), reg, sz);
    cpu.AddressRegSetLong(reg, Wrap32(regVal - moved + sz.Bytes()));
    WithinTwice(m, m1, cpu.S());
  }

  lemma PostincrementAt(m: Machine, reg: Reg, sz: Size)
    requires sz != Byte
    ensures m.IncA(reg, sz.Bytes()) == m.SetA(reg, Wrap32(m.A(reg) + sz.Bytes()))
    ensures m.IncA(reg, sz.Bytes()).A(reg) == Wrap32(m.A(reg) + sz.Bytes())
    ensures m.IncA(reg, sz.Bytes()).SetA(reg, m.A(reg)) == m
  {
    hide Wrap32;
    SetAReads(m, reg, Wrap32(m.A(reg) + sz.Bytes()));
    SetAgain(m, reg, Wrap32(m.A(reg) + sz.Bytes()), m.A(reg));
  }

  lemma NothingToLoad(m: Machine, list: RegisterList, sz: Size, at: int)
    requires Room(list, sz, 16) == 0
    ensures LoadedUp(m, list, sz, 0, at) == m && StoredDown(m, list, sz, 16, at, m.ram) == m.ram
  {
    hide Room, ReadSized, WriteSized;
    forall k: ListIndex
      ensures !list[k]
    {
      if list[k] { RoomOrder(list, sz, k, 16); }
    }
    NoneLoaded(m, list, sz, 0, at);
    NoneStored(m, list, sz, 16, at, m.ram);
  }

  lemma {:induction false} NoneLoaded(m: Machine, list: RegisterList, sz: Size, k: nat, at: int)
    requires k <= 16 && forall j: ListIndex :: !list[j]
    ensures LoadedUp(m, list, sz, k, at) == m
    decreases 16 - k
  {
    if k < 16 {
      NoneLoaded(m, list, sz, k + 1, at);
    }
  }

  lemma {:induction false} NoneStored(m: Machine, list: RegisterList, sz: Size, k: nat, at: int, ram: Ram)
    requires k <= 16 && forall j: ListIndex :: !list[j]
    ensures StoredDown(m, list, sz, k, at, ram) == ram
  {
    if k > 0 {
      NoneStored(m, list, sz, k - 1, at, ram);
    }
  }

  /** MOVEM from (An)+, after the mask has been fetched. */
  method LoadPostincrement(cpu: Cpu, mask: u16, reg: Reg, sz: Size) returns (o: Outcome<()>)
    requires cpu.Valid() && sz != Byte
    modifies cpu, cpu.d, cpu.a, cpu.mem.ram
    ensures !o.Undefined? && cpu.S() == LoadedList(old(cpu.S()), Listed(mask, false), reg, sz)
    ensures Safe(old(cpu.S()), cpu.S(), o)
  {
    hide Within, Taken, Wrap32, Even, LoadedUp, Listed, Room;
    hide Machine.A, Machine.SetA, Machine.IncA, Machine.AddressError;
    ghost var m := cpu.S();
    PostincrementAt(m, reg, sz);
    var _ := cpu.SrcSet(reg, 3, sz.Bytes());
    ghost var m1 := cpu.S();
    var regVal: int := cpu.AddressRegValue(reg);
    var moved: int;
    o, moved := LoadUp(cpu, mask, sz);
    SafeAfter(m, m1, cpu.S(), o);
    if o.IsFailure() {
      return;
    }
    ghost var m2 := cpu.S();
    if moved == 0 { NothingToLoad(m1, Listed(mask, false), sz, m.A(reg)); }
    WrapStep(m.A(reg) + sz.Bytes(), moved - sz.Bytes());
    cpu.AddressRegSetLong(reg, Wrap32(regVal + moved - sz.Bytes()));
    WithinTwice(m, m2, cpu.S());
  }

  method RegistersToMemory(cpu: Cpu, opcode: u16, sz: Size) returns (o: Outcome<()>)
    requires cpu.Valid() && sz != Byte
    modifies cpu, cpu.d, cpu.a, cpu.mem.ram
    ensures Reaches(StoreRegisters(old(cpu.S()), opcode, sz), o, cpu.S())
    ensures Safe(old(cpu.S()), cpu.S(), o)
  {
    hide Within, Taken, Even, StoredUp, StoredList, Listed, Room, EaReg, EaMode;
    hide Machine.Resolve, Machine.Fetch, Machine.Exception, Machine.AddressError;
    ghost var m := cpu.S();
    var mask := cpu.Fetch();
    ghost var m1 := cpu.S();
    if EaMode(opcode) == 4 {
      o := StorePredecrement(cpu, mask, EaReg(opcode), sz);
      SafeAfter(m, m1, cpu.S(), o);
      return;
    }
    o := cpu.DstSet(EaReg(opcode), EaMode(opcode), sz.Bytes());
    SafeAfter(m, m1, cpu.S(), o);
    if o.IsFailure() {
      return;
    }
    ghost var m2 := cpu.S();
    o := StoreUp(cpu, mask, sz);
    SafeAfter(m, m2, cpu.S(), o);
  }

  method MemoryToRegisters(cpu: Cpu, opcode: u16, sz: Size) returns (o: Outcome<()>)
    requires cpu.Valid() && sz != Byte
    modifies cpu, cpu.d, cpu.a, cpu.mem.ram
    ensures Reaches(LoadRegisters(old(cpu.S()), opcode, sz), o, cpu.S())
    ensures Safe(old(cpu.S()), cpu.S(), o)
  {
    hide Within, Taken, Even, LoadedUp, LoadedList, Listed, Room, EaReg, EaMode;
    hide Machine.Resolve, Machine.Fetch, Machine.Exception, Machine.AddressError;
    ghost var m := cpu.S();
    var mask := cpu.Fetch();
    ghost var m1 := cpu.S();
    if EaMode(opcode) == 3 {
      o := LoadPostincrement(cpu, mask, EaReg(opcode), sz);
      SafeAfter(m, m1, cpu.S(), o);
      return;
    }
    o := cpu.SrcSet(EaReg(opcode), EaMode(opcode), sz.Bytes());
    SafeAfter(m, m1, cpu.S(), o);
    if o.IsFailure() {
      return;
    }
    ghost var m2 := cpu.S();
    var moved: int;
    o, moved := LoadUp(cpu, mask, sz);
    SafeAfter(m, m2, cpu.S(), o);
  }
}
