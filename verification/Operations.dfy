/** The operations that instructions apply to an operand, and the machine after one has been applied in memory
    or to a data register. */
module Operations {
  import opened Words
  import opened StatusRegister
  import opened Memories
  import opened Machines
  import opened Safety
  import opened Opcodes
  import Alu
  import Shifts

  /** The bit operators of C on the low `n` bits. */
  function Bitwise(logic: Logic, a: nat, b: nat, n: nat): (r: nat)
    ensures r < Pow(2, n)
  {
    if n == 0 then 0 else BitOf(logic.Bit(Odd(a), Odd(b))) + 2 * Bitwise(logic, a / 2, b / 2, n - 1)
  }

  datatype Shift = ASL | ASR | LSL | LSR | ROL | ROR | ROXL | ROXR {
    function Apply(sz: Size, v: u32, count: nat, sr: Status): (out: Alu.Out)
      requires v < sz.Modulus()
      ensures out.value < sz.Modulus()
      ensures out.sr.sys == sr.sys
    {
      hide Shifts.LeftValue, Shifts.RightQuotient, Shifts.AsrValue, Shifts.RotatedLeft, Shifts.RotatedRight;
      Shifts.RightBound(sz, v, count);
      Shifts.PowBits(sz);
      match this
      case ASL => Shifts.Asl(sz, v, count, sr)
      case ASR => Shifts.Asr(sz, v, count, sr)
      case LSL => Shifts.Lsl(sz, v, count, sr)
      case LSR => Shifts.Lsr(sz, v, count, sr)
      case ROL => Shifts.Rol(sz, v, count, sr)
      case ROR => Shifts.Ror(sz, v, count, sr)
      case ROXL => Shifts.Roxl(sz, v, count, sr)
      case ROXR => Shifts.Roxr(sz, v, count, sr)
    }
  }

  /** `ADDQ` and `SUBQ` leave the condition codes alone when they work on an address register. */
  datatype Operation =
    | ADD | SUB | AddQuiet | SubQuiet | NEG | NEGX | NBCD | NOT | Logical(logic: Logic) | Shifted(shift: Shift)
  {
    predicate Allows(sz: Size, src: u32) {
      src < sz.Modulus() && (NBCD? ==> sz == Byte) && (Shifted? ==> src < 64)
    }

    /** What the operation makes of its source and destination operands. */
    function Apply(sz: Size, src: u32, dst: u32, sr: Status): (out: Alu.Out)
      requires Allows(sz, src) && dst < sz.Modulus()
      ensures out.value < sz.Modulus()
      ensures out.sr.sys == sr.sys
    {
      hide Shift.Apply, Signed, Bitwise;
      match this
      case ADD => Alu.Add(sz, src, dst, sr)
      case SUB => Alu.Sub(sz, src, dst, sr)
      case AddQuiet => Alu.Add(sz, src, dst, sr).(sr := sr)
      case SubQuiet => Alu.Sub(sz, src, dst, sr).(sr := sr)
      case NEG => Alu.Sub(sz, dst, 0, sr)
      case NEGX => Alu.Subx(sz, dst, 0, sr)
      case NBCD => Alu.SubBcd(dst, 0, sr)
      case NOT => LogicOut(sz, sz.Modulus() - 1 - dst, sr)
      case Logical(logic) =>
        Shifts.PowBits(sz);
        LogicOut(sz, Bitwise(logic, src, dst, sz.Bits()), sr)
      case Shifted(shift) => shift.Apply(sz, dst, src, sr)
    }
  }

  function LogicOut(sz: Size, r: nat, sr: Status): Alu.Out
    requires r < sz.Modulus()
  {
    Alu.Out(r, Alu.Codes(sz, r, false, false, sr))
  }

  /** Each bit of the result depends on the same bit of the operands. */
  lemma {:induction false} BitwiseBit(logic: Logic, a: nat, b: nat, n: nat, i: nat)
    requires i < n
    ensures Odd(Shifts.RightQuotient(Bitwise(logic, a, b, n), i))
        <==> logic.Bit(Odd(Shifts.RightQuotient(a, i)), Odd(Shifts.RightQuotient(b, i)))
  {
    hide Shifts.RightQuotient;
    var r := Bitwise(logic, a, b, n);
    if i == 0 {
      Shifts.RightZero(a);
      Shifts.RightZero(b);
      Shifts.RightZero(r);
    } else {
      BitwiseBit(logic, a / 2, b / 2, n - 1, i - 1);
      HalfFirst(a, i);
      HalfFirst(b, i);
      HalfFirst(r, i);
    }
  }

  lemma {:induction false} HalfFirst(v: nat, i: nat)
    requires i > 0
    ensures Shifts.RightQuotient(v, i) == Shifts.RightQuotient(v / 2, i - 1)
  {
    hide Shifts.RightQuotient;
    Shifts.RightStep(v, i - 1);
    if i > 1 {
      HalfFirst(v, i - 1);
      Shifts.RightStep(v / 2, i - 2);
    } else {
      Shifts.RightZero(v);
      Shifts.RightZero(v / 2);
    }
  }

  // ---- Machines after an operation ----

  /** What is known about the machine after an instruction: nothing where the program leaves the C language. */
  datatype Expected = Becomes(m: Machine) | Unspecified

  function After(r: Access<Machine>): Expected {
    match r
    case Value(m) => Becomes(m)
    case Fault(m, _) => Becomes(m)
    case OutOfRange => Unspecified
  }

  /** The instruction ends in the expected machine, either normally or with an exception. */
  predicate Reaches(e: Expected, o: Outcome<()>, m': Machine) {
    e.Becomes? ==> !o.Undefined? && m' == e.m
  }

  /** Read, apply, write back: the codes are set before the write, and stay set if the write fails. */
  function Modified(m: Machine, at: Location, sz: Size, op: Operation, src: u32): Expected
    requires op.Allows(sz, src)
  {
    match m.Load(at, sz, false)
    case Value(v) =>
      var out := op.Apply(sz, src, v, m.sr);
      After(m.(sr := out.sr).Store(at, sz, out.value))
    case Fault(m', _) => Becomes(m')
    case OutOfRange => Unspecified
  }

  /** The operation applied to a source operand and a data register. */
  function Accumulated(m: Machine, at: Location, sz: Size, op: Operation, reg: Reg): Expected
    requires !op.NBCD? && !op.Shifted?
  {
    match m.Load(at, sz, true)
    case Value(v) =>
      var out := op.Apply(sz, v, Truncate(sz, m.d[reg]), m.sr);
      Becomes(m.SetD(reg, Merge(sz, m.d[reg], out.value)).(sr := out.sr))
    case Fault(m', _) => Becomes(m')
    case OutOfRange => Unspecified
  }

  // ---- Instructions ----

  /** A byte, word or long that follows the opcode. */
  function Immediately(m: Machine, sz: Size): (r: (Machine, u32))
    ensures r.1 < sz.Modulus()
  {
    var m1 := m.Fetch();
    match sz
    case Byte => (m1, m1.opcode % 0x100)
    case Word => (m1, m1.opcode)
    case Long => (m1.Fetch(), Join16(m1.opcode, m1.Fetch().opcode))
  }

  /** The operation on the effective address as destination. */
  function ToDestination(m: Machine, opcode: u16, sz: Size, op: Operation, src: u32): Expected
    requires op.Allows(sz, src)
  {
    match m.Resolve(EaReg(opcode), EaMode(opcode), sz.Bytes())
    case At(m1, at) => Modified(m1, at, sz, op, src)
    case IllegalMode => Becomes(m.Exception(VECTOR_ILLEGAL_INSTRUCTION))
  }

  /** The operation on the effective address as source, and a data register. */
  function FromSource(m: Machine, opcode: u16, sz: Size, op: Operation): Expected
    requires !op.NBCD? && !op.Shifted?
  {
    match m.Resolve(EaReg(opcode), EaMode(opcode), sz.Bytes())
    case At(m1, at) => Accumulated(m1, at, sz, op, OpReg(opcode))
    case IllegalMode => Becomes(m.Exception(VECTOR_ILLEGAL_INSTRUCTION))
  }

  /** The data register of the opcode, applied to the destination. */
  function FromRegister(m: Machine, opcode: u16, sz: Size, op: Operation): Expected
    requires !op.NBCD? && !op.Shifted?
  {
    ToDestination(m, opcode, sz, op, Truncate(sz, m.d[OpReg(opcode)]))
  }

  /** ADDA and SUBA: a sign-extended source, all of an address register, and no condition codes. */
  function ToAddress(m: Machine, opcode: u16, sz: Size, op: Operation): Expected
    requires !op.NBCD? && !op.Shifted?
  {
    var reg := OpReg(opcode);
    match m.Resolve(EaReg(opcode), EaMode(opcode), sz.Bytes())
    case At(m1, at) => (
      match m1.Load(at, sz, true)
      case Value(v) => Becomes(m1.SetA(reg, op.Apply(Long, SignExtend(sz, v), m1.A(reg), m1.sr).value))
      case Fault(m2, _) => Becomes(m2)
      case OutOfRange => Unspecified)
    case IllegalMode => Becomes(m.Exception(VECTOR_ILLEGAL_INSTRUCTION))
  }

  function FromImmediate(m: Machine, opcode: u16, sz: Size, op: Operation): Expected
    requires !op.NBCD? && !op.Shifted?
  {
    ToDestination(Immediately(m, sz).0, opcode, sz, op, Immediately(m, sz).1)
  }

  /** ADDQ and SUBQ: a number from one to eight in the opcode. */
  function QuickValue(opcode: u16): (v: int)
    ensures 1 <= v <= 8
  {
    if OpReg(opcode) == 0 then 8 else OpReg(opcode)
  }

  function Quickly(m: Machine, opcode: u16, sz: Size, subtract: bool): Expected {
    var quiet := EaMode(opcode) == 1;
    var op := if subtract then if quiet then SubQuiet else SUB else if quiet then AddQuiet else ADD;
    ToDestination(m, opcode, sz, op, QuickValue(opcode))
  }

  /** How far a register is shifted: by a number from one to eight, or by a register modulo 64. */
  function ShiftCount(m: Machine, opcode: u16): (n: int)
    ensures 0 <= n < 64
  {
    if opcode / 0x20 % 2 == 1 then m.d[OpReg(opcode)] % 64 else QuickValue(opcode)
  }

  function ShiftOf(kind: int, left: bool): Shift {
    match kind
    case 0 => if left then ASL else ASR
    case 1 => if left then LSL else LSR
    case 2 => if left then ROXL else ROXR
    case _ => if left then ROL else ROR
  }

  function ShiftedRegister(m: Machine, opcode: u16, sz: Size, shift: Shift): Expected {
    var reg := EaReg(opcode);
    var out := shift.Apply(sz, Truncate(sz, m.d[reg]), ShiftCount(m, opcode), m.sr);
    Becomes(m.SetD(reg, Merge(sz, m.d[reg], out.value)).(sr := out.sr))
  }

  /** The compare instructions change the condition codes only; a CMPA compares longs. */
  function CompareFrom(m: Machine, opcode: u16, sz: Size): Expected {
    match m.Resolve(EaReg(opcode), EaMode(opcode), sz.Bytes())
    case At(m1, at) => (
      match m1.Load(at, sz, true)
      case Value(v) => Becomes(m1.(sr := Alu.Cmp(sz, v, Truncate(sz, m1.d[OpReg(opcode)]), m1.sr)))
      case Fault(m2, _) => Becomes(m2)
      case OutOfRange => Unspecified)
    case IllegalMode => Becomes(m.Exception(VECTOR_ILLEGAL_INSTRUCTION))
  }

  function CompareImmediate(m: Machine, opcode: u16, sz: Size): Expected {
    var (m1, v) := Immediately(m, sz);
    match m1.Resolve(EaReg(opcode), EaMode(opcode), sz.Bytes())
    case At(m2, at) => (
      match m2.Load(at, sz, false)
      case Value(dst) => Becomes(m2.(sr := Alu.Cmp(sz, v, dst, m2.sr)))
      case Fault(m3, _) => Becomes(m3)
      case OutOfRange => Unspecified)
    case IllegalMode => Becomes(m1.Exception(VECTOR_ILLEGAL_INSTRUCTION))
  }

  function CompareAddress(m: Machine, opcode: u16, sz: Size): Expected {
    match m.Resolve(EaReg(opcode), EaMode(opcode), sz.Bytes())
    case At(m1, at) => (
      match m1.Load(at, sz, true)
      case Value(v) => Becomes(m1.(sr := Alu.Cmp(Long, SignExtend(sz, v), m1.A(OpReg(opcode)), m1.sr)))
      case Fault(m2, _) => Becomes(m2)
      case OutOfRange => Unspecified)
    case IllegalMode => Becomes(m.Exception(VECTOR_ILLEGAL_INSTRUCTION))
  }

  /** CMPM (Ay)+,(Ax)+: each register moves on before an odd address is noticed. */
  function CompareMemory(m: Machine, opcode: u16, sz: Size): Machine {
    var (y, x) := (EaReg(opcode), OpReg(opcode));
    var (from, m1) := (m.A(y), m.IncA(y, sz.Bytes()));
    if sz != Byte && !Even(from) then m1.AddressError(from, true, false) else
    var (to, m2) := (m1.A(x), m1.IncA(x, sz.Bytes()));
    if sz != Byte && !Even(to) then m2.AddressError(to, true, false) else
    m2.(sr := Alu.Cmp(sz, ReadSized(m.ram, sz, from), ReadSized(m.ram, sz, to), m.sr))
  }
}
