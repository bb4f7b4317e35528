/** Addition, subtraction and bit operators, from the instruction words in memory: which operand is taken from which,
    where the result goes and what the codes are, for every addressing mode. */
module IntegerArithmetic {
  import opened Words
  import opened StatusRegister
  import opened Machines
  import opened Opcodes
  import opened Operations
  import opened Addressing
  import opened Decoding
  import opened DataMovement
  import opened PlainEffects
  import Alu
  import ControlFlow
  import ExtendedArithmetic
  import FlowInstructions
  import MovemInstructions
  import MultiplyInstructions
  import Shifts

  datatype Kind = Addition | Subtraction | Bits(logic: Logic) {
    /** The line of the forms with a data register. */
    function Line(): Nibble {
      match this
      case Addition => 0xD
      case Subtraction => 9
      case Bits(logic) => if logic == OR then 8 else if logic == AND then 0xC else 0xB
    }

    /** The upper field of the form with an immediate. */
    function ImmediateField(): Reg {
      match this
      case Addition => 3
      case Subtraction => 2
      case Bits(logic) => if logic == OR then 0 else if logic == AND then 1 else 5
    }

    function AsOperation(): (op: Operation)
      ensures !op.NBCD? && !op.Shifted?
    {
      match this case Addition => ADD case Subtraction => SUB case Bits(logic) => Logical(logic)
    }

    /** The destination after the operation. */
    function Value(sz: Size, src: u32, dst: u32): (v: u32)
      requires src < sz.Modulus() && dst < sz.Modulus()
      ensures v < sz.Modulus()
    {
      match this
      case Addition => (dst + src) % sz.Modulus()
      case Subtraction => (dst - src) % sz.Modulus()
      case Bits(logic) =>
        Shifts.PowBits(sz);
        Bitwise(logic, src, dst, sz.Bits())
    }

    /** Carry or borrow out of the top. */
    predicate Carry(sz: Size, src: u32, dst: u32) {
      match this
      case Addition => dst + src >= sz.Modulus()
      case Subtraction => dst < src
      case _ => false
    }

    /** The signed result does not fit. */
    predicate Overflow(sz: Size, src: u32, dst: u32) {
      match this
      case Addition => !Fits(sz, Signed(sz, dst) + Signed(sz, src))
      case Subtraction => !Fits(sz, Signed(sz, dst) - Signed(sz, src))
      case _ => false
    }

    /** Sign, zero, overflow and carry; X follows the carry, but not of the bit operators. */
    function Codes(sz: Size, src: u32, dst: u32, sr: Status): Status
      requires src < sz.Modulus() && dst < sz.Modulus()
    {
      var v := Value(sz, src, dst);
      sr.(n := Signed(sz, v) < 0, z := v == 0, v := Overflow(sz, src, dst), c := Carry(sz, src, dst),
          x := if Bits? then sr.x else Carry(sz, src, dst))
    }
  }

  /** The operations of the instructions mean this. */
  lemma ApplyIs(kind: Kind, sz: Size, src: u32, dst: u32, sr: Status)
    requires src < sz.Modulus() && dst < sz.Modulus()
    ensures var out := kind.AsOperation().Apply(sz, src, dst, sr);
      out.value == kind.Value(sz, src, dst) && out.sr == kind.Codes(sz, src, dst, sr)
  {
    hide Signed, Fits, Bitwise;
    Shifts.PowBits(sz);
  }

  // ---- From any operand to a data register ----

  lemma SourceDecodes(f: Machine, w: u16, kind: Kind, sz: Size, hooked: bool)
    requires !(kind.Bits? && (kind.logic == EOR || kind.logic == ANDNOT))
    requires w / 0x1000 == kind.Line() && OpMode(w) == SizeNumber(sz)
    ensures Performed(f, w, hooked) == FromSource(f, w, sz, kind.AsOperation())
  {
    hide OpMode, EaMode, ToAddress, FromSource, FromRegister, CompareFrom, CompareAddress;
    hide MultiplyInstructions.Multiply, MultiplyInstructions.Divide, ExtendedArithmetic.Extended;
  }

  /** ADD, SUB, AND and OR to a data register: the register is the destination, the operand the source. Only the low
      part of the register, the codes and the registers of the mode change. */
  lemma SourceToRegister(m: Machine, kind: Kind, x: Reg, ea: Mode, sz: Size, hooked: bool)
    requires !(kind.Bits? && (kind.logic == EOR || kind.logic == ANDNOT))
    requires Coded(m, kind.Line(), x, SizeNumber(sz), ea) && Readable(Fetched(m), ea, sz)
    ensures var f := Fetched(m);
      var (src, dst) := (ValueOf(f, ea, sz), Low(sz, m.d[x]));
      Executed(m, hooked)
      == Becomes(Behind(f, ea, sz).SetD(x, WithLow(sz, m.d[x], kind.Value(sz, src, dst)))
                                  .(sr := kind.Codes(sz, src, dst, m.sr)))
  {
    hide WordAt, Wrap32, Encode, EaReg, EaMode, OpReg, OpMode, AddressOf, Behind, Performed, FromSource, ValueOf;
    hide Readable, Low, WithLow, Kind.Line, Kind.Value, Kind.Codes, Kind.AsOperation;
    var (f, w) := (Fetched(m), WordAt(m.ram, m.pc));
    Begins(m, hooked);
    EncodedFields(kind.Line(), x, SizeNumber(sz), ea.Field(), ea.Register());
    SourceDecodes(f, w, kind, sz, hooked);
    SourceAt(f, w, kind, x, ea, sz);
  }

  lemma SourceAt(f: Machine, w: u16, kind: Kind, x: Reg, ea: Mode, sz: Size)
    requires EaMode(w) == ea.Field() && EaReg(w) == ea.Register() && OpReg(w) == x && Readable(f, ea, sz)
    ensures var (src, dst) := (ValueOf(f, ea, sz), Low(sz, f.d[x]));
      FromSource(f, w, sz, kind.AsOperation())
      == Becomes(Behind(f, ea, sz).SetD(x, WithLow(sz, f.d[x], kind.Value(sz, src, dst)))
                                  .(sr := kind.Codes(sz, src, dst, f.sr)))
  {
    hide WordAt, Wrap32, EaReg, EaMode, OpReg, AddressOf, ValueOf, Accessible, Place, Kind.Value, Kind.Codes;
    hide Machine.Resolve, Machine.Load, Kind.AsOperation, Operation.Apply, Behind, Merge, Truncate, Low;
    var (src, dst) := (ValueOf(f, ea, sz), Low(sz, f.d[x]));
    SetUp(f, ea, sz);
    Loads(f, ea, sz, true);
    BehindKeeps(f, ea, sz);
    LowIs(sz, f.d[x]);
    ApplyIs(kind, sz, src, dst, f.sr);
  }

  /** An odd operand is an address error, with nothing computed. */
  lemma SourceFaults(m: Machine, kind: Kind, x: Reg, ea: Mode, sz: Size, hooked: bool)
    requires !(kind.Bits? && (kind.logic == EOR || kind.logic == ANDNOT))
    requires Coded(m, kind.Line(), x, SizeNumber(sz), ea) && !Accessible(Fetched(m), ea, sz)
    ensures var f := Fetched(m);
      Executed(m, hooked) == Becomes(Behind(f, ea, sz).AddressError(Address(f, ea, sz), true, ea.FromPc()))
  {
    hide WordAt, Wrap32, Encode, EaReg, EaMode, OpReg, OpMode, AddressOf, Behind, Performed, Accessible, Place;
    hide Kind.Line, Machine.AddressError, Machine.Resolve, Machine.Load;
    var (f, w) := (Fetched(m), WordAt(m.ram, m.pc));
    Begins(m, hooked);
    EncodedFields(kind.Line(), x, SizeNumber(sz), ea.Field(), ea.Register());
    SourceDecodes(f, w, kind, sz, hooked);
    SetUp(f, ea, sz);
    Faults(f, ea, sz, true);
  }

  // ---- To any destination ----

  /** An operation on an operand that is read, changed and written back; the codes are set before it is written. */
  lemma DestinationAt(g: Machine, w: u16, ea: Mode, sz: Size, op: Operation, src: u32)
    requires EaMode(w) == ea.Field() && EaReg(w) == ea.Register()
    requires ea.Alterable() && Accessible(g, ea, sz) && op.Allows(sz, src)
    ensures var out := op.Apply(sz, src, ValueOf(g, ea, sz), g.sr);
      ToDestination(g, w, sz, op, src)
      == Becomes(Written(Behind(g, ea, sz).(sr := out.sr), ea, Address(g, ea, sz), sz, out.value))
  {
    hide WordAt, Wrap32, EaReg, EaMode, AddressOf, Behind, ValueOf, Accessible, Place, Written, Operation.Apply;
    hide Machine.Resolve, Machine.Load, Machine.Store, Operation.Allows;
    var out := op.Apply(sz, src, ValueOf(g, ea, sz), g.sr);
    SetUp(g, ea, sz);
    Loads(g, ea, sz, false);
    BehindKeeps(g, ea, sz);
    Stores(g, Behind(g, ea, sz).(sr := out.sr), ea, sz, out.value);
  }

  /** The destination with the result in it, and the codes. */
  function Combined(g: Machine, kind: Kind, ea: Mode, sz: Size, src: u32): Machine
    requires src < sz.Modulus()
  {
    var dst := ValueOf(g, ea, sz);
    Written(Behind(g, ea, sz).(sr := kind.Codes(sz, src, dst, g.sr)), ea, Address(g, ea, sz), sz,
            kind.Value(sz, src, dst))
  }

  lemma CombinedAt(g: Machine, w: u16, kind: Kind, ea: Mode, sz: Size, src: u32)
    requires EaMode(w) == ea.Field() && EaReg(w) == ea.Register()
    requires ea.Alterable() && Accessible(g, ea, sz) && src < sz.Modulus()
    ensures ToDestination(g, w, sz, kind.AsOperation(), src) == Becomes(Combined(g, kind, ea, sz, src))
  {
    hide WordAt, Wrap32, EaReg, EaMode, AddressOf, Behind, ValueOf, Accessible, Written, Operation.Apply;
    hide Kind.Value, Kind.Codes, ToDestination;
    DestinationAt(g, w, ea, sz, kind.AsOperation(), src);
    ApplyIs(kind, sz, src, ValueOf(g, ea, sz), g.sr);
  }

  lemma DestinationDecodes(f: Machine, w: u16, kind: Kind, sz: Size, hooked: bool)
    requires !(kind.Bits? && kind.logic == ANDNOT)
    requires w / 0x1000 == kind.Line() && OpMode(w) == 4 + SizeNumber(sz)
    requires EaMode(w) >= 2 || (EaMode(w) == 0 && kind == Bits(EOR))
    ensures Performed(f, w, hooked) == FromRegister(f, w, sz, kind.AsOperation())
  {
    hide OpMode, EaMode, ToAddress, FromSource, FromRegister, CompareFrom, CompareAddress, CompareMemory, Exchanged;
    hide MultiplyInstructions.Multiply, MultiplyInstructions.Divide, ExtendedArithmetic.Extended;
  }

  /** ADD, SUB, AND, OR and EOR of a data register to a destination: memory is the destination, and the register is
      not changed. Only EOR has a register as destination here. */
  lemma RegisterToDestination(m: Machine, kind: Kind, x: Reg, ea: Mode, sz: Size, hooked: bool)
    requires !(kind.Bits? && kind.logic == ANDNOT)
    requires Coded(m, kind.Line(), x, 4 + SizeNumber(sz), ea)
    requires ea.Alterable() && (ea.InMemory() || kind == Bits(EOR)) && Accessible(Fetched(m), ea, sz)
    ensures Executed(m, hooked) == Becomes(Combined(Fetched(m), kind, ea, sz, Low(sz, m.d[x])))
  {
    hide WordAt, Wrap32, Encode, EaReg, EaMode, OpReg, OpMode, Performed, Combined, Accessible, ToDestination;
    hide Low, Truncate, Kind.Line, Kind.AsOperation;
    var (f, w) := (Fetched(m), WordAt(m.ram, m.pc));
    Begins(m, hooked);
    EncodedFields(kind.Line(), x, 4 + SizeNumber(sz), ea.Field(), ea.Register());
    DestinationDecodes(f, w, kind, sz, hooked);
    LowIs(sz, m.d[x]);
    CombinedAt(f, w, kind, ea, sz, Low(sz, m.d[x]));
  }

  /** An odd destination is an address error of its read, with nothing computed. */
  lemma DestinationFaults(m: Machine, kind: Kind, x: Reg, ea: Mode, sz: Size, hooked: bool)
    requires !(kind.Bits? && kind.logic == ANDNOT)
    requires Coded(m, kind.Line(), x, 4 + SizeNumber(sz), ea) && !Accessible(Fetched(m), ea, sz)
    ensures var f := Fetched(m);
      Executed(m, hooked) == Becomes(Behind(f, ea, sz).AddressError(Address(f, ea, sz), true, ea.FromPc()))
  {
    hide WordAt, Wrap32, Encode, EaReg, EaMode, OpReg, OpMode, Performed, Accessible, AddressOf, Behind, Place;
    hide Truncate, Kind.Line, Kind.AsOperation, Machine.Resolve, Machine.Load, Machine.AddressError;
    var (f, w) := (Fetched(m), WordAt(m.ram, m.pc));
    Begins(m, hooked);
    EncodedFields(kind.Line(), x, 4 + SizeNumber(sz), ea.Field(), ea.Register());
    MemoryIsNotDirect(f, ea, sz);
    DestinationDecodes(f, w, kind, sz, hooked);
    SetUp(f, ea, sz);
    Faults(f, ea, sz, false);
  }

  lemma MemoryIsNotDirect(f: Machine, ea: Mode, sz: Size)
    requires !Accessible(f, ea, sz)
    ensures ea.Field() >= 2
  {
  }

  // ---- Immediates ----

  lemma ImmediateDecodes(f: Machine, w: u16, kind: Kind, sz: Size, hooked: bool)
    requires !(kind.Bits? && kind.logic == ANDNOT) && w / 0x1000 == 0 && EaMode(w) != 1
    requires CondField(w) == 2 * kind.ImmediateField() && SizeField(w) == SizeNumber(sz)
    requires kind.Bits? ==> !NamesStatus(w, sz)
    ensures Performed(f, w, hooked) == FromImmediate(f, w, sz, kind.AsOperation())
  {
    hide CondField, SizeField, EaMode, BitOperated, MovedPeripheral, FromImmediate, CompareImmediate, NamesStatus;
  }

  lemma ImmediatelyIs(f: Machine, sz: Size)
    ensures Immediately(f, sz) == (Behind(f, ImmediateData, sz), ValueOf(f, ImmediateData, sz))
  {
    hide WordAt, Wrap32, Extension;
    FetchIs(f);
    FetchTwice(f);
  }

  /** ADDI, SUBI, ANDI, ORI and EORI: the immediate comes before the extension words of the destination. */
  lemma ImmediateToDestination(m: Machine, kind: Kind, ea: Mode, sz: Size, hooked: bool)
    requires !(kind.Bits? && kind.logic == ANDNOT)
    requires Coded(m, 0, kind.ImmediateField(), SizeNumber(sz), ea)
    requires ea.Alterable() && Accessible(Behind(Fetched(m), ImmediateData, sz), ea, sz)
    ensures var f := Fetched(m);
      Executed(m, hooked)
      == Becomes(Combined(Behind(f, ImmediateData, sz), kind, ea, sz, ValueOf(f, ImmediateData, sz)))
  {
    hide WordAt, Wrap32, Encode, EaReg, EaMode, OpReg, OpMode, CondField, SizeField, Performed, Combined, Behind;
    hide Accessible, ToDestination, Immediately, ValueOf, Kind.ImmediateField, Kind.AsOperation;
    var (f, w) := (Fetched(m), WordAt(m.ram, m.pc));
    Begins(m, hooked);
    EncodedFields(0, kind.ImmediateField(), SizeNumber(sz), ea.Field(), ea.Register());
    ImmediateDecodes(f, w, kind, sz, hooked);
    ImmediatelyIs(f, sz);
    CombinedAt(Behind(f, ImmediateData, sz), w, kind, ea, sz, ValueOf(f, ImmediateData, sz));
  }

  // ---- Small numbers ----

  /** The field zero stands for eight. */
  function QuickNumber(q: Reg): (n: int)
    ensures 1 <= n <= 8
  {
    if q == 0 then 8 else q
  }

  lemma QuickFields(w: u16, q: Reg, sz: Size, subtract: bool, ea: Mode)
    requires w == Encode(5, q, SizeNumber(sz) + if subtract then 4 else 0, ea.Field(), ea.Register())
    ensures w / 0x1000 == 5 && OpReg(w) == q && EaMode(w) == ea.Field() && EaReg(w) == ea.Register()
    ensures SizeField(w) != 3 && SizeOf(SizeField(w)) == sz && (CondField(w) % 2 == 1 <==> subtract)
  {
    hide Encode, OpReg, EaMode, EaReg, SizeField, CondField;
    EncodedFields(5, q, SizeNumber(sz) + if subtract then 4 else 0, ea.Field(), ea.Register());
    if subtract {
      ParityIs(CondField(w), q, 1);
    } else {
      ParityIs(CondField(w), q, 0);
    }
  }

  lemma QuickDecodes(f: Machine, w: u16, hooked: bool)
    requires w / 0x1000 == 5 && SizeField(w) != 3
    ensures Performed(f, w, hooked) == Quickly(f, w, SizeOf(SizeField(w)), CondField(w) % 2 == 1)
  {
    hide CondField, SizeField, Quickly, EaMode, SizeOf, ControlFlow.Dbcc, FlowInstructions.SetOnCondition;
  }

  /** ADDQ and SUBQ of one to eight. */
  lemma QuickToDestination(m: Machine, subtract: bool, q: Reg, ea: Mode, sz: Size, hooked: bool)
    requires Coded(m, 5, q, SizeNumber(sz) + if subtract then 4 else 0, ea)
    requires ea.Alterable() && Accessible(Fetched(m), ea, sz)
    ensures Executed(m, hooked)
      == Becomes(Combined(Fetched(m), if subtract then Subtraction else Addition, ea, sz, QuickNumber(q)))
  {
    hide WordAt, Wrap32, Encode, EaReg, EaMode, OpReg, OpMode, CondField, SizeField, Performed, Combined;
    hide Accessible, ToDestination, Quickly, Kind.AsOperation, QuickNumber, SizeOf;
    var (f, w) := (Fetched(m), WordAt(m.ram, m.pc));
    Begins(m, hooked);
    QuickFields(w, q, sz, subtract, ea);
    QuickDecodes(f, w, hooked);
    QuickAt(f, w, q, sz, subtract);
    CombinedAt(f, w, if subtract then Subtraction else Addition, ea, sz, QuickNumber(q));
  }

  lemma QuickAt(f: Machine, w: u16, q: Reg, sz: Size, subtract: bool)
    requires OpReg(w) == q
    ensures EaMode(w) != 1 ==>
      Quickly(f, w, sz, subtract) == ToDestination(
        f, w, sz, (if subtract then Subtraction else Addition).AsOperation(), QuickNumber(q))
    ensures EaMode(w) == 1 ==>
      Quickly(f, w, sz, subtract) == ToDestination(f, w, sz, if subtract then SubQuiet else AddQuiet, QuickNumber(q))
  {
    hide OpReg, EaMode, ToDestination;
  }

  /** On an address register they set no codes; of a word only the low part of the register changes. */
  lemma QuickToAddress(m: Machine, subtract: bool, q: Reg, r: Reg, sz: Size, hooked: bool)
    requires sz != Byte && Coded(m, 5, q, SizeNumber(sz) + if subtract then 4 else 0, AddressDirect(r))
    ensures var (f, n: int) := (Fetched(m), QuickNumber(q));
      var v := ((if subtract then Low(sz, m.A(r)) - n else Low(sz, m.A(r)) + n)) % sz.Modulus();
      Executed(m, hooked) == Becomes(f.SetA(r, WithLow(sz, m.A(r), v)))
  {
    hide WordAt, Wrap32, Encode, EaReg, EaMode, OpReg, OpMode, CondField, SizeField, Performed;
    hide ToDestination, Quickly, Low, WithLow, QuickNumber, SizeOf;
    hide Machine.A, Machine.SetA;
    var (f, w) := (Fetched(m), WordAt(m.ram, m.pc));
    Begins(m, hooked);
    QuickFields(w, q, sz, subtract, AddressDirect(r));
    QuickDecodes(f, w, hooked);
    QuickAt(f, w, q, sz, subtract);
    QuietAt(f, w, subtract, QuickNumber(q), r, sz);
    FetchedRegister(m, r);
  }

  lemma FetchedRegister(m: Machine, r: Reg)
    ensures Fetched(m).A(r) == m.A(r)
  {
    hide WordAt, Wrap32;
  }

  lemma QuietAt(f: Machine, w: u16, subtract: bool, n: u32, r: Reg, sz: Size)
    requires EaMode(w) == 1 && EaReg(w) == r && sz != Byte && n < sz.Modulus()
    ensures var v := ((if subtract then Low(sz, f.A(r)) - n else Low(sz, f.A(r)) + n)) % sz.Modulus();
      ToDestination(f, w, sz, if subtract then SubQuiet else AddQuiet, n) == Becomes(f.SetA(r, WithLow(sz, f.A(r), v)))
  {
    hide EaMode, EaReg, Operation.Apply;
    hide Machine.A, Machine.SetA, Machine.Resolve, Low, Merge, Truncate;
    DirectSetUp(f, AddressDirect(r), sz.Bytes());
    LowIs(sz, f.A(r));
    QuietMeans(sz, n, Low(sz, f.A(r)), f.sr);
  }

  lemma QuietMeans(sz: Size, n: u32, dst: u32, sr: Status)
    requires n < sz.Modulus() && dst < sz.Modulus()
    ensures AddQuiet.Apply(sz, n, dst, sr).value == (dst + n) % sz.Modulus() && AddQuiet.Apply(sz, n, dst, sr).sr == sr
    ensures SubQuiet.Apply(sz, n, dst, sr).value == (dst - n) % sz.Modulus() && SubQuiet.Apply(sz, n, dst, sr).sr == sr
  {
    hide Alu.Codes, Fits;
  }

  // ---- Address registers ----

  lemma AddressDecodes(f: Machine, w: u16, subtract: bool, sz: Size, hooked: bool)
    requires sz != Byte && w / 0x1000 == (if subtract then 9 else 0xD) && OpMode(w) == (if sz == Long then 7 else 3)
    ensures Performed(f, w, hooked) == ToAddress(f, w, sz, if subtract then SubQuiet else AddQuiet)
  {
    hide OpMode, EaMode, ToAddress, FromSource, FromRegister, ExtendedArithmetic.Extended;
  }

  /** ADDA and SUBA: the sign of a word is extended, all of the register takes part, and no codes are set. */
  lemma SourceToAddress(m: Machine, subtract: bool, x: Reg, ea: Mode, sz: Size, hooked: bool)
    requires sz != Byte && Coded(m, if subtract then 9 else 0xD, x, if sz == Long then 7 else 3, ea)
    requires Readable(Fetched(m), ea, sz)
    ensures var f := Fetched(m);
      var (g, v) := (Behind(f, ea, sz), Signed(sz, ValueOf(f, ea, sz)));
      Executed(m, hooked) == Becomes(g.SetA(x, Wrap32(if subtract then g.A(x) - v else g.A(x) + v)))
  {
    hide WordAt, Wrap32, Encode, EaReg, EaMode, OpReg, OpMode, AddressOf, Behind, Performed, ToAddress, ValueOf;
    hide Readable, Signed;
    hide Machine.A, Machine.SetA;
    var (f, w) := (Fetched(m), WordAt(m.ram, m.pc));
    Begins(m, hooked);
    EncodedFields(if subtract then 9 else 0xD, x, if sz == Long then 7 else 3, ea.Field(), ea.Register());
    AddressDecodes(f, w, subtract, sz, hooked);
    AddressAt(f, w, subtract, x, ea, sz);
  }

  lemma AddressAt(f: Machine, w: u16, subtract: bool, x: Reg, ea: Mode, sz: Size)
    requires EaMode(w) == ea.Field() && EaReg(w) == ea.Register() && OpReg(w) == x
    requires sz != Byte && Readable(f, ea, sz)
    ensures var (g, v) := (Behind(f, ea, sz), Signed(sz, ValueOf(f, ea, sz)));
      ToAddress(f, w, sz, if subtract then SubQuiet else AddQuiet)
      == Becomes(g.SetA(x, Wrap32(if subtract then g.A(x) - v else g.A(x) + v)))
  {
    hide WordAt, EaReg, EaMode, OpReg, AddressOf, Behind, ValueOf, Accessible, Place, Operation.Apply, Wrap32;
    hide Machine.Resolve, Machine.Load, Machine.A, Machine.SetA, SignExtend, Signed;
    SetUp(f, ea, sz);
    Loads(f, ea, sz, true);
    WholeRegister(sz, ValueOf(f, ea, sz), Behind(f, ea, sz).A(x), Behind(f, ea, sz).sr);
  }

  lemma WholeRegister(sz: Size, v: u32, a: u32, sr: Status)
    requires v < sz.Modulus()
    ensures AddQuiet.Apply(Long, SignExtend(sz, v), a, sr).value == Wrap32(a + Signed(sz, v))
    ensures SubQuiet.Apply(Long, SignExtend(sz, v), a, sr).value == Wrap32(a - Signed(sz, v))
  {
    hide Alu.Codes, Fits;
  }

  // ---- One operand ----

  /** NEG and NEGX subtract from zero, NOT complements: value and codes. */
  function UnaryValue(op: Operation, sz: Size, dst: u32, x: bool): (v: u32)
    requires dst < sz.Modulus()
    ensures v < sz.Modulus()
  {
    if op.NOT? then sz.Modulus() - 1 - dst else Reduce(sz, 0 - dst - BitOf(op.NEGX? && x))
  }

  function UnaryCodes(op: Operation, sz: Size, dst: u32, sr: Status): Status
    requires dst < sz.Modulus()
  {
    var v := UnaryValue(op, sz, dst, sr.x);
    if op.NOT? then sr.(n := Signed(sz, v) < 0, z := v == 0, v := false, c := false)
    else
      var x := BitOf(op.NEGX? && sr.x);
      sr.(n := Signed(sz, v) < 0, z := v == 0 && (op.NEGX? ==> sr.z), v := !Fits(sz, -Signed(sz, dst) - x),
          c := dst + x != 0, x := dst + x != 0)
  }

  lemma NegMeans(sz: Size, dst: u32, sr: Status)
    requires dst < sz.Modulus()
    ensures var out := NEG.Apply(sz, 0, dst, sr);
      out.value == UnaryValue(NEG, sz, dst, sr.x) && out.sr == UnaryCodes(NEG, sz, dst, sr)
  {
    assert Signed(sz, 0) == 0;
    hide Fits, Signed, Reduce;
  }

  lemma NegxMeans(sz: Size, dst: u32, sr: Status)
    requires dst < sz.Modulus()
    ensures var out := NEGX.Apply(sz, 0, dst, sr);
      out.value == UnaryValue(NEGX, sz, dst, sr.x) && out.sr == UnaryCodes(NEGX, sz, dst, sr)
  {
    assert Signed(sz, 0) == 0;
    hide Fits, Signed, Reduce;
  }

  lemma NotMeans(sz: Size, dst: u32, sr: Status)
    requires dst < sz.Modulus()
    ensures var out := NOT.Apply(sz, 0, dst, sr);
      out.value == UnaryValue(NOT, sz, dst, sr.x) && out.sr == UnaryCodes(NOT, sz, dst, sr)
  {
  }

  lemma UnaryMeans(op: Operation, sz: Size, dst: u32, sr: Status)
    requires dst < sz.Modulus() && (op.NEG? || op.NEGX? || op.NOT?)
    ensures var out := op.Apply(sz, 0, dst, sr);
      out.value == UnaryValue(op, sz, dst, sr.x) && out.sr == UnaryCodes(op, sz, dst, sr)
  {
    hide Operation.Apply, UnaryValue, UnaryCodes;
    match op
    case NEG => NegMeans(sz, dst, sr);
    case NEGX => NegxMeans(sz, dst, sr);
    case _ => NotMeans(sz, dst, sr);
  }

  lemma UnaryDecodes(f: Machine, w: u16, op: Operation, sz: Size, hooked: bool)
    requires (op.NEG? || op.NEGX? || op.NOT?) && w / 0x1000 == 4
    requires w / 0x40 % 0x40 == SizeNumber(sz) + if op.NEGX? then 0 else if op.NEG? then 16 else 24
    ensures Performed(f, w, hooked) == ToDestination(f, w, sz, op, 0)
  {
    hide Performed, Ordinary, Control, StatusMoved, ToDestination, SignExtended, EaMode;
    hide MovemInstructions.StoreRegisters, MovemInstructions.LoadRegisters, FlowInstructions.Jump;
    IsLine4(f, w, hooked);
  }

  /** NEGX, NEG and NOT of any alterable operand. */
  lemma UnaryToDestination(m: Machine, op: Operation, ea: Mode, sz: Size, hooked: bool)
    requires op.NEG? || op.NEGX? || op.NOT?
    requires Coded(m, 4, if op.NEGX? then 0 else if op.NEG? then 2 else 3, SizeNumber(sz), ea)
    requires ea.Alterable() && Accessible(Fetched(m), ea, sz)
    ensures var f := Fetched(m);
      var dst := ValueOf(f, ea, sz);
      Executed(m, hooked)
      == Becomes(Written(Behind(f, ea, sz).(sr := UnaryCodes(op, sz, dst, m.sr)), ea, Address(f, ea, sz), sz,
                         UnaryValue(op, sz, dst, m.sr.x)))
  {
    hide WordAt, Wrap32, Encode, EaReg, EaMode, OpReg, OpMode, Performed, Accessible, ToDestination, Behind, Written;
    hide AddressOf, ValueOf, Operation.Apply, UnaryCodes, UnaryValue;
    var (f, w) := (Fetched(m), WordAt(m.ram, m.pc));
    var upper: Reg := if op.NEGX? then 0 else if op.NEG? then 2 else 3;
    Begins(m, hooked);
    EncodedFields(4, upper, SizeNumber(sz), ea.Field(), ea.Register());
    UnaryDecodes(f, w, op, sz, hooked);
    DestinationAt(f, w, ea, sz, op, 0);
    UnaryMeans(op, sz, ValueOf(f, ea, sz), m.sr);
  }

  /** NBCD subtracts a byte of two decimal digits and X from zero, decimally. */
  lemma NbcdNegates(m: Machine, ea: Mode, hooked: bool)
    requires Coded(m, 4, 4, 0, ea) && ea.Alterable() && Alu.ValidBcd(ValueOf(Fetched(m), ea, Byte))
    ensures var f := Fetched(m);
      var v := ValueOf(f, ea, Byte);
      var out := Alu.SubBcd(v, 0, m.sr);
      && Executed(m, hooked)
         == Becomes(Written(Behind(f, ea, Byte).(sr := out.sr), ea, Address(f, ea, Byte), Byte, out.value))
      && Alu.ValidBcd(out.value) && out.sr.c == out.sr.x && out.sr.z == (m.sr.z && out.value == 0)
      && 0 - Alu.Decimal(v) - BitOf(m.sr.x) == Alu.Decimal(out.value) - (if out.sr.x then 100 else 0)
  {
    hide WordAt, Wrap32, Encode, EaReg, EaMode, OpReg, OpMode, Performed, Accessible, ToDestination, Behind, Written;
    hide AddressOf, ValueOf, Alu.AdjustDifference;
    var (f, w) := (Fetched(m), WordAt(m.ram, m.pc));
    Begins(m, hooked);
    EncodedFields(4, 4, 0, ea.Field(), ea.Register());
    NbcdDecodes(f, w, hooked);
    assert Accessible(f, ea, Byte) by { ByteAccessible(f, ea); }
    DestinationAt(f, w, ea, Byte, NBCD, 0);
    Alu.SubBcdIsDecimal(ValueOf(f, ea, Byte), 0, m.sr);
  }

  lemma ByteAccessible(f: Machine, ea: Mode)
    ensures Accessible(f, ea, Byte)
  {
  }

  lemma NbcdDecodes(f: Machine, w: u16, hooked: bool)
    requires w / 0x1000 == 4 && w / 0x40 % 0x40 == 32
    ensures Performed(f, w, hooked) == ToDestination(f, w, Byte, NBCD, 0)
  {
    hide Performed, Ordinary, Control, StatusMoved, ToDestination, SignExtended, EaMode;
    hide MovemInstructions.StoreRegisters, MovemInstructions.LoadRegisters, FlowInstructions.Jump;
    IsLine4(f, w, hooked);
  }
}
