/** Moving data, from the instruction words in memory: what LEA, PEA, MOVE and their relatives leave in registers and
    memory, for every addressing mode. */
module DataMovement {
  import opened Words
  import opened Machines
  import opened Opcodes
  import opened Operations
  import opened Addressing
  import opened PlainEffects
  import opened Decoding
  import ExtendedArithmetic
  import FlowInstructions
  import MovemInstructions
  import MultiplyInstructions

  // ---- Addresses ----

  /** LEA loads the address itself, for every mode that names memory. */
  lemma LeaLoadsAddress(m: Machine, x: Reg, ea: Mode, hooked: bool)
    requires Coded(m, 4, x, 7, ea) && ea.InMemory()
    ensures var f := Fetched(m);
      Executed(m, hooked) == Becomes(Behind(f, ea, Long).SetA(x, Address(f, ea, Long)))
  {
    hide WordAt, Wrap32, Encode, EaReg, EaMode, OpReg, OpMode, AddressOf, Behind, Performed, Ordinary, AddressLoaded;
    hide Machine.SetA, Machine.Resolve;
    var (f, w) := (Fetched(m), Encode(4, x, 7, ea.Field(), ea.Register()));
    Begins(m, hooked);
    EncodedFields(4, x, 7, ea.Field(), ea.Register());
    LeaField(x);
    OrdinaryDecodes(f, w, hooked);
    OneOperandCases(f, w, Long);
    LeaAt(f, w, x, ea);
  }

  lemma IsLine4(f: Machine, w: u16, hooked: bool)
    requires w / 0x1000 == 4
    ensures Performed(f, w, hooked) == Line4(f, w, hooked)
  {
    hide Line4;
  }

  /** The fields of the instructions that have a case of their own. */
  predicate Special(field: int) {
    field in {0, 1, 2, 16, 17, 18, 24, 25, 26, 27, 32, 34, 35, 50, 51, 57, 58, 59}
  }

  lemma IsOrdinary(f: Machine, w: u16, field: int, hooked: bool)
    requires w / 0x40 % 0x40 == field && !Special(field)
    ensures Line4(f, w, hooked) == Ordinary(f, w, field)
  {
    hide Ordinary, Control, StatusMoved, ToDestination, SignExtended, EaMode;
    hide MovemInstructions.StoreRegisters, MovemInstructions.LoadRegisters, FlowInstructions.Jump;
  }

  lemma OrdinaryDecodes(f: Machine, w: u16, hooked: bool)
    requires w / 0x1000 == 4 && !Special(w / 0x40 % 0x40)
    ensures Performed(f, w, hooked) == Ordinary(f, w, w / 0x40 % 0x40)
  {
    hide Performed, Line4, Ordinary;
    IsLine4(f, w, hooked);
    IsOrdinary(f, w, w / 0x40 % 0x40, hooked);
  }

  lemma LeaField(x: Reg)
    ensures (x * 8 + 7) % 8 == 7 && !Special(x * 8 + 7)
  {
  }

  lemma LeaAt(f: Machine, w: u16, x: Reg, ea: Mode)
    requires EaMode(w) == ea.Field() && EaReg(w) == ea.Register() && OpReg(w) == x && ea.InMemory()
    ensures AddressLoaded(f, w) == Behind(f, ea, Long).SetA(x, Address(f, ea, Long))
  {
    hide WordAt, Wrap32, EaReg, EaMode, OpReg, AddressOf, Behind;
    hide Machine.SetA, Machine.Resolve;
    SetUp(f, ea, Long);
  }

  // ---- MOVE ----

  function MoveLine(sz: Size): Nibble {
    match sz case Byte => 1 case Word => 3 case Long => 2
  }

  lemma MoveDecodes(f: Machine, w: u16, sz: Size, hooked: bool)
    requires w / 0x1000 == MoveLine(sz)
    ensures Performed(f, w, hooked) == Moved(f, w, sz)
  {
    hide Moved;
  }

  /** MOVE copies the operand of any mode to any alterable one: the address of the destination is formed after the
      source has been read, its codes set and its extension words passed. */
  lemma MoveCopies(m: Machine, src: Mode, dst: Mode, sz: Size, hooked: bool)
    requires Coded(m, MoveLine(sz), dst.Register(), dst.Field(), src)
    requires var f := Fetched(m);
      && Readable(f, src, sz) && dst.Alterable()
      && Accessible(Tested(Behind(f, src, sz), sz, ValueOf(f, src, sz)), dst, sz)
    ensures var f := Fetched(m);
      var v := ValueOf(f, src, sz);
      var g := Tested(Behind(f, src, sz), sz, v);
      Executed(m, hooked) == Becomes(Written(Behind(g, dst, sz), dst, Address(g, dst, sz), sz, v))
  {
    hide WordAt, Wrap32, Encode, EaReg, EaMode, OpReg, OpMode, AddressOf, Behind, Performed, Moved, ValueOf;
    hide Readable, Accessible, Written, Tested, MoveLine;
    var (f, w) := (Fetched(m), WordAt(m.ram, m.pc));
    Begins(m, hooked);
    EncodedFields(MoveLine(sz), dst.Register(), dst.Field(), src.Field(), src.Register());
    MoveDecodes(f, w, sz, hooked);
    MoveAt(f, w, src, dst, sz);
  }

  lemma MoveAt(f: Machine, w: u16, src: Mode, dst: Mode, sz: Size)
    requires EaMode(w) == src.Field() && EaReg(w) == src.Register()
    requires OpMode(w) == dst.Field() && OpReg(w) == dst.Register()
    requires Readable(f, src, sz) && dst.Alterable()
    requires Accessible(Tested(Behind(f, src, sz), sz, ValueOf(f, src, sz)), dst, sz)
    ensures var v := ValueOf(f, src, sz);
      var g := Tested(Behind(f, src, sz), sz, v);
      Moved(f, w, sz) == Becomes(Written(Behind(g, dst, sz), dst, Address(g, dst, sz), sz, v))
  {
    hide WordAt, Wrap32, EaReg, EaMode, OpReg, OpMode, AddressOf, Behind, ValueOf, Accessible, Written, Place;
    hide Machine.Resolve, Machine.Load, Machine.Store, Signed;
    SetUp(f, src, sz);
    Loads(f, src, sz, true);
    var v := ValueOf(f, src, sz);
    var g := Tested(Behind(f, src, sz), sz, v);
    SetUp(g, dst, sz);
    Stores(g, Behind(g, dst, sz), dst, sz, v);
  }

  /** An odd word or long is an address error of its own kind: of the source before anything else, of the destination
      when the codes have been set. */
  lemma MoveFaults(m: Machine, src: Mode, dst: Mode, sz: Size, hooked: bool)
    requires Coded(m, MoveLine(sz), dst.Register(), dst.Field(), src)
    ensures var f := Fetched(m);
      !Accessible(f, src, sz) ==>
        Executed(m, hooked) == Becomes(Behind(f, src, sz).AddressError(Address(f, src, sz), true, src.FromPc()))
    ensures var f := Fetched(m);
      var g := Tested(Behind(f, src, sz), sz, ValueOf(f, src, sz));
      Readable(f, src, sz) && dst.Alterable() && !Accessible(g, dst, sz) ==>
        Executed(m, hooked) == Becomes(Behind(g, dst, sz).AddressError(Address(g, dst, sz), false, false))
  {
    hide WordAt, Wrap32, Encode, EaReg, EaMode, OpReg, OpMode, AddressOf, Behind, Performed, Moved, ValueOf;
    hide Readable, Accessible, Tested, MoveLine, Machine.AddressError;
    var (f, w) := (Fetched(m), WordAt(m.ram, m.pc));
    Begins(m, hooked);
    EncodedFields(MoveLine(sz), dst.Register(), dst.Field(), src.Field(), src.Register());
    MoveDecodes(f, w, sz, hooked);
    MoveFaultsAt(f, w, src, dst, sz);
  }

  lemma MoveFaultsAt(f: Machine, w: u16, src: Mode, dst: Mode, sz: Size)
    requires EaMode(w) == src.Field() && EaReg(w) == src.Register()
    requires OpMode(w) == dst.Field() && OpReg(w) == dst.Register()
    ensures !Accessible(f, src, sz) ==>
      Moved(f, w, sz) == Becomes(Behind(f, src, sz).AddressError(Address(f, src, sz), true, src.FromPc()))
    ensures var g := Tested(Behind(f, src, sz), sz, ValueOf(f, src, sz));
      Readable(f, src, sz) && dst.Alterable() && !Accessible(g, dst, sz) ==>
        Moved(f, w, sz) == Becomes(Behind(g, dst, sz).AddressError(Address(g, dst, sz), false, false))
  {
    hide WordAt, Wrap32, EaReg, EaMode, OpReg, OpMode, AddressOf, Behind, ValueOf, Accessible, Place, Signed;
    hide Machine.Resolve, Machine.Load, Machine.Store, Machine.AddressError;
    SetUp(f, src, sz);
    if !Accessible(f, src, sz) {
      Faults(f, src, sz, true);
    } else if Readable(f, src, sz) {
      Loads(f, src, sz, true);
      var v := ValueOf(f, src, sz);
      var g := Tested(Behind(f, src, sz), sz, v);
      SetUp(g, dst, sz);
      if dst.Alterable() && !Accessible(g, dst, sz) {
        StoreFaults(g, Behind(g, dst, sz), dst, sz, v);
      }
    }
  }

  /** MOVEA extends the sign over the whole register and sets no codes. */
  lemma MoveaExtends(m: Machine, src: Mode, x: Reg, sz: Size, hooked: bool)
    requires sz != Byte && Coded(m, MoveLine(sz), x, 1, src) && Readable(Fetched(m), src, sz)
    ensures var f := Fetched(m);
      Executed(m, hooked) == Becomes(Behind(f, src, sz).SetA(x, Wrap32(Signed(sz, ValueOf(f, src, sz)))))
  {
    hide WordAt, Wrap32, Encode, EaReg, EaMode, OpReg, OpMode, AddressOf, Behind, Performed, Moved, ValueOf;
    hide Readable, MoveLine, Signed;
    hide Machine.SetA;
    var (f, w) := (Fetched(m), WordAt(m.ram, m.pc));
    Begins(m, hooked);
    EncodedFields(MoveLine(sz), x, 1, src.Field(), src.Register());
    MoveDecodes(f, w, sz, hooked);
    MoveaAt(f, w, src, x, sz);
  }

  lemma MoveaAt(f: Machine, w: u16, src: Mode, x: Reg, sz: Size)
    requires EaMode(w) == src.Field() && EaReg(w) == src.Register() && OpMode(w) == 1 && OpReg(w) == x
    requires sz != Byte && Readable(f, src, sz)
    ensures Moved(f, w, sz) == Becomes(Behind(f, src, sz).SetA(x, Wrap32(Signed(sz, ValueOf(f, src, sz)))))
  {
    hide WordAt, EaReg, EaMode, OpReg, OpMode, AddressOf, Behind, ValueOf, Accessible, Place;
    hide Machine.Resolve, Machine.Load;
    SetUp(f, src, sz);
    Loads(f, src, sz, true);
    var g := Behind(f, src, sz);
    DirectSetUp(g, AddressDirect(x), sz.Bytes());
  }

  // ---- One operand ----

  function SizeNumber(sz: Size): Reg {
    match sz case Byte => 0 case Word => 1 case Long => 2
  }

  lemma OneOperandCases(f: Machine, w: u16, sz: Size)
    ensures w / 0x40 % 0x40 == 8 + SizeNumber(sz) ==> Ordinary(f, w, w / 0x40 % 0x40) == Cleared(f, w, sz)
    ensures w / 0x40 % 0x40 == 40 + SizeNumber(sz) ==> Ordinary(f, w, w / 0x40 % 0x40) == Examined(f, w, sz)
    ensures w / 0x40 % 0x40 % 8 == 7 ==> Ordinary(f, w, w / 0x40 % 0x40) == Becomes(AddressLoaded(f, w))
    ensures w / 0x40 % 0x40 == 43 ==> Ordinary(f, w, w / 0x40 % 0x40) == TestedAndSet(f, w)
    ensures w / 0x40 % 0x40 == 33 && EaMode(w) == 0 ==> Ordinary(f, w, w / 0x40 % 0x40) == Becomes(Swapped(f, w))
    ensures w / 0x40 % 0x40 == 33 && (EaMode(w) == 2 || EaMode(w) >= 5) ==>
      Ordinary(f, w, w / 0x40 % 0x40) == Becomes(AddressPushed(f, w))
  {
    hide AddressLoaded, StatusRead, Cleared, Checked, CodesMoved, Swapped, AddressPushed, Examined, TestedAndSet;
    hide EaMode;
  }

  /** CLR leaves zero and Z alone of the codes. */
  lemma ClrClears(m: Machine, ea: Mode, sz: Size, hooked: bool)
    requires Coded(m, 4, 1, SizeNumber(sz), ea) && ea.Alterable() && Accessible(Fetched(m), ea, sz)
    ensures var f := Fetched(m);
      Executed(m, hooked) == Becomes(Tested(Written(Behind(f, ea, sz), ea, Address(f, ea, sz), sz, 0), sz, 0))
  {
    hide WordAt, Wrap32, Encode, EaReg, EaMode, OpReg, OpMode, AddressOf, Behind, Performed, Ordinary, Cleared;
    hide Accessible, Tested, Written;
    var (f, w) := (Fetched(m), WordAt(m.ram, m.pc));
    Begins(m, hooked);
    EncodedFields(4, 1, SizeNumber(sz), ea.Field(), ea.Register());
    OrdinaryDecodes(f, w, hooked);
    OneOperandCases(f, w, sz);
    ClrAt(f, w, ea, sz);
  }

  lemma ClrAt(f: Machine, w: u16, ea: Mode, sz: Size)
    requires EaMode(w) == ea.Field() && EaReg(w) == ea.Register() && ea.Alterable() && Accessible(f, ea, sz)
    ensures Cleared(f, w, sz) == Becomes(Tested(Written(Behind(f, ea, sz), ea, Address(f, ea, sz), sz, 0), sz, 0))
  {
    hide WordAt, Wrap32, EaReg, EaMode, AddressOf, Behind, ValueOf, Accessible, Place, Written;
    hide Machine.Resolve, Machine.Load, Machine.Store;
    SetUp(f, ea, sz);
    Loads(f, ea, sz, false);
    Stores(f, Behind(f, ea, sz), ea, sz, 0);
  }

  /** TST sets the codes of any readable operand and changes nothing else. */
  lemma TstTests(m: Machine, ea: Mode, sz: Size, hooked: bool)
    requires Coded(m, 4, 5, SizeNumber(sz), ea) && Readable(Fetched(m), ea, sz)
    ensures var f := Fetched(m);
      Executed(m, hooked) == Becomes(Tested(Behind(f, ea, sz), sz, ValueOf(f, ea, sz)))
  {
    hide WordAt, Wrap32, Encode, EaReg, EaMode, OpReg, OpMode, AddressOf, Behind, Performed, Ordinary, Examined;
    hide Readable, Tested;
    var (f, w) := (Fetched(m), WordAt(m.ram, m.pc));
    Begins(m, hooked);
    EncodedFields(4, 5, SizeNumber(sz), ea.Field(), ea.Register());
    OrdinaryDecodes(f, w, hooked);
    OneOperandCases(f, w, sz);
    TstAt(f, w, ea, sz);
  }

  lemma TstAt(f: Machine, w: u16, ea: Mode, sz: Size)
    requires EaMode(w) == ea.Field() && EaReg(w) == ea.Register() && Readable(f, ea, sz)
    ensures Examined(f, w, sz) == Becomes(Tested(Behind(f, ea, sz), sz, ValueOf(f, ea, sz)))
  {
    hide WordAt, Wrap32, EaReg, EaMode, AddressOf, Behind, ValueOf, Accessible, Place;
    hide Machine.Resolve, Machine.Load, Signed;
    SetUp(f, ea, sz);
    Loads(f, ea, sz, true);
  }

  /** An odd word or long of TST, and of CLR, which reads before it clears, is an address error of a read. */
  lemma OneOperandFaults(m: Machine, clear: bool, ea: Mode, sz: Size, hooked: bool)
    requires Coded(m, 4, if clear then 1 else 5, SizeNumber(sz), ea) && !Accessible(Fetched(m), ea, sz)
    ensures var f := Fetched(m);
      Executed(m, hooked) == Becomes(Behind(f, ea, sz).AddressError(Address(f, ea, sz), true, ea.FromPc()))
  {
    hide WordAt, Wrap32, Encode, EaReg, EaMode, OpReg, OpMode, AddressOf, Behind, Performed, Ordinary, Place;
    hide Machine.AddressError, Machine.Resolve, Machine.Load;
    var (f, w) := (Fetched(m), WordAt(m.ram, m.pc));
    Begins(m, hooked);
    EncodedFields(4, if clear then 1 else 5, SizeNumber(sz), ea.Field(), ea.Register());
    OrdinaryDecodes(f, w, hooked);
    OneOperandCases(f, w, sz);
    SetUp(f, ea, sz);
    Faults(f, ea, sz, !clear);
  }

  /** PEA pushes the address, high word on top. */
  lemma PeaPushes(m: Machine, ea: Mode, hooked: bool)
    requires Coded(m, 4, 4, 1, ea) && ea.InMemory() && !ea.Postincrement? && !ea.Predecrement?
    ensures var f := Fetched(m);
      Executed(m, hooked) == Becomes(Behind(f, ea, Long).PushLong(Address(f, ea, Long)))
  {
    hide WordAt, Wrap32, Encode, EaReg, EaMode, OpReg, OpMode, AddressOf, Behind, Performed, Ordinary, AddressPushed;
    hide Machine.PushLong;
    var (f, w) := (Fetched(m), WordAt(m.ram, m.pc));
    Begins(m, hooked);
    EncodedFields(4, 4, 1, ea.Field(), ea.Register());
    OrdinaryDecodes(f, w, hooked);
    OneOperandCases(f, w, Long);
    PeaAt(f, w, ea);
  }

  lemma PeaAt(f: Machine, w: u16, ea: Mode)
    requires EaMode(w) == ea.Field() && EaReg(w) == ea.Register() && ea.InMemory()
    ensures AddressPushed(f, w) == Behind(f, ea, Long).PushLong(Address(f, ea, Long))
  {
    hide WordAt, Wrap32, EaReg, EaMode, AddressOf, Behind;
    hide Machine.PushLong, Machine.Resolve;
    SetUp(f, ea, Long);
  }

  // ---- Registers ----

  /** MOVEQ loads a signed byte. */
  lemma MoveqLoads(m: Machine, x: Reg, data: u8, hooked: bool)
    requires WordAt(m.ram, m.pc) == 0x7000 + x * 0x200 + data
    ensures var (f, v) := (Fetched(m), Wrap32(Signed(Byte, data)));
      Executed(m, hooked) == Becomes(Tested(f.SetD(x, v), Long, v))
  {
    hide WordAt, Performed;
    var (f, w) := (Fetched(m), WordAt(m.ram, m.pc));
    Begins(m, hooked);
    MoveqFields(w, x, data);
    MoveqDecodes(f, w, hooked);
    hide OpReg;
  }

  lemma MoveqFields(w: u16, x: Reg, data: u8)
    requires w == 0x7000 + x * 0x200 + data
    ensures w / 0x1000 == 7 && OpReg(w) == x && w % 0x100 == data
  {
  }

  lemma MoveqDecodes(f: Machine, w: u16, hooked: bool)
    requires w / 0x1000 == 7
    ensures Performed(f, w, hooked) == Becomes(MovedQuick(f, w))
  {
    hide MovedQuick;
  }

  /** SWAP exchanges the halves of a register. */
  lemma SwapExchanges(m: Machine, x: Reg, hooked: bool)
    requires Coded(m, 4, 4, 1, DataDirect(x))
    ensures var (f, v) := (Fetched(m), m.d[x] % 0x1_0000 * 0x1_0000 + m.d[x] / 0x1_0000);
      Executed(m, hooked) == Becomes(Tested(f.SetD(x, v), Long, v))
  {
    hide WordAt, Wrap32, Encode, EaReg, EaMode, Performed, Ordinary, Signed;
    var (f, w) := (Fetched(m), WordAt(m.ram, m.pc));
    Begins(m, hooked);
    EncodedFields(4, 4, 1, 0, x);
    OrdinaryDecodes(f, w, hooked);
    OneOperandCases(f, w, Long);
  }

  /** EXT extends the sign of the low byte to the low word, or of the low word to the register. */
  lemma ExtExtends(m: Machine, x: Reg, long: bool, hooked: bool)
    requires Coded(m, 4, 4, if long then 3 else 2, DataDirect(x))
    ensures var f := Fetched(m);
      var low := Wrap32(Signed(Byte, m.d[x] % 0x100)) % 0x1_0000;
      var all := Wrap32(Signed(Word, m.d[x] % 0x1_0000));
      Executed(m, hooked)
      == if long then Becomes(Tested(f.SetD(x, all), Long, all))
         else Becomes(Tested(f.SetD(x, WithLow(Word, m.d[x], low)), Word, low))
  {
    hide WordAt, Encode, EaReg, EaMode, OpMode, Performed;
    var (f, w) := (Fetched(m), WordAt(m.ram, m.pc));
    Begins(m, hooked);
    EncodedFields(4, 4, if long then 3 else 2, 0, x);
    ExtDecodes(f, w, hooked);
    ExtAt(f, w, x, long);
  }

  lemma ExtDecodes(f: Machine, w: u16, hooked: bool)
    requires w / 0x1000 == 4 && 34 <= w / 0x40 % 0x40 <= 35 && EaMode(w) == 0
    ensures Performed(f, w, hooked) == Becomes(SignExtended(f, w))
  {
    hide Performed, Ordinary, Control, StatusMoved, ToDestination, SignExtended, EaMode;
    hide MovemInstructions.StoreRegisters, MovemInstructions.LoadRegisters, FlowInstructions.Jump;
    IsLine4(f, w, hooked);
  }

  lemma ExtAt(f: Machine, w: u16, x: Reg, long: bool)
    requires EaReg(w) == x && OpMode(w) == if long then 3 else 2
    ensures var low := Wrap32(Signed(Byte, f.d[x] % 0x100)) % 0x1_0000;
      var all := Wrap32(Signed(Word, f.d[x] % 0x1_0000));
      SignExtended(f, w)
      == if long then Tested(f.SetD(x, all), Long, all)
         else Tested(f.SetD(x, WithLow(Word, f.d[x], low)), Word, low)
  {
    hide EaReg, OpMode;
  }

  /** EXG exchanges two data registers, two address registers, or a data register `x` and an address register. */
  lemma ExgExchanges(m: Machine, x: Reg, other: Mode, both: bool, hooked: bool)
    requires other.Direct() && (other.DataDirect? ==> both)
    requires Coded(m, 0xC, x, if both then 5 else 6, other)
    ensures var (f, y) := (Fetched(m), other.reg);
      Executed(m, hooked)
      == Becomes(if other.DataDirect? then f.SetD(y, m.d[x]).SetD(x, m.d[y])
                 else if both then f.SetA(y, m.A(x)).SetA(x, m.A(y))
                 else f.SetD(x, m.A(y)).SetA(y, m.d[x]))
  {
    hide WordAt, Encode, EaReg, EaMode, OpReg, OpMode, Performed, Wrap32;
    var (f, w) := (Fetched(m), WordAt(m.ram, m.pc));
    Begins(m, hooked);
    EncodedFields(0xC, x, if both then 5 else 6, other.Field(), other.Register());
    ExgDecodes(f, w, hooked);
  }

  lemma ExgDecodes(f: Machine, w: u16, hooked: bool)
    requires w / 0x1000 == 0xC && ((OpMode(w) == 5 && EaMode(w) < 2) || (OpMode(w) == 6 && EaMode(w) == 1))
    ensures Performed(f, w, hooked) == Becomes(Exchanged(f, w))
  {
    hide EaMode, OpMode, FromRegister, FromSource, Exchanged;
    hide MultiplyInstructions.Multiply, ExtendedArithmetic.Extended;
  }
}
