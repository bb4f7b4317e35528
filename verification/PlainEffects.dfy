/** What the remaining instructions do: data movement, bit operations and the status register. */
module PlainEffects {
  import opened Words
  import opened StatusRegister
  import opened Memories
  import opened Machines
  import opened Opcodes
  import opened Operations
  import Shifts

  // ---- Operands ----

  /** An operand that has been read, the machine after an exception instead, or a register that does not exist. */
  datatype Operand = Got(m: Machine, at: Location, v: u32) | Lost(m: Machine) | Astray

  function OperandAt(m: Machine, at: Location, sz: Size, source: bool): (r: Operand)
    ensures r.Got? ==> r.v < sz.Modulus()
  {
    match m.Load(at, sz, source)
    case Value(v) => Got(m, at, v)
    case Fault(m', _) => Lost(m')
    case OutOfRange => Astray
  }

  /** The effective address, set up and read as a source or as a destination. */
  function OperandOf(m: Machine, opcode: u16, width: int, sz: Size, source: bool): (r: Operand)
    ensures r.Got? ==> r.v < sz.Modulus()
  {
    match m.Resolve(EaReg(opcode), EaMode(opcode), width)
    case At(m1, at) => OperandAt(m1, at, sz, source)
    case IllegalMode => Lost(m.Exception(VECTOR_ILLEGAL_INSTRUCTION))
  }

  /** A destination set up and written. */
  function WrittenTo(m: Machine, reg: Reg, mode: Reg, width: int, sz: Size, v: u32): Expected
    requires v < sz.Modulus()
  {
    match m.Resolve(reg, mode, width)
    case At(m1, at) => After(m1.Store(at, sz, v))
    case IllegalMode => Becomes(m.Exception(VECTOR_ILLEGAL_INSTRUCTION))
  }

  function WithLogicCodes(m: Machine, sz: Size, v: u32): Machine
    requires v < sz.Modulus()
  {
    m.(sr := LogicOut(sz, v, m.sr).sr)
  }

  function Privileged(m: Machine): Machine {
    m.Exception(VECTOR_PRIVILEGE_VIOLATION)
  }

  // ---- Moves ----

  /** The codes are set before the destination is set up. A MOVEA writes the whole register and sets no codes. */
  function Moved(m: Machine, opcode: u16, sz: Size): Expected {
    match OperandOf(m, opcode, sz.Bytes(), sz, true)
    case Got(m1, _, v) =>
      if sz != Byte && OpMode(opcode) == 1 then
        WrittenTo(m1, OpReg(opcode), OpMode(opcode), sz.Bytes(), Long, SignExtend(sz, v))
      else WrittenTo(WithLogicCodes(m1, sz, v), OpReg(opcode), OpMode(opcode), sz.Bytes(), sz, v)
    case Lost(m1) => Becomes(m1)
    case Astray => Unspecified
  }

  function MovedQuick(m: Machine, opcode: u16): Machine {
    var v: u32 := SignExtend(Byte, opcode % 0x100);
    WithLogicCodes(m.SetD(OpReg(opcode), v), Long, v)
  }

  /** Every other byte from an address on. */
  function EveryOther(ram: Ram, at: int, i: int): u8 {
    Read8(ram, Wrap32(at + 2 * i))
  }

  function PutEveryOther(ram: Ram, at: int, i: int, v: u8): Ram {
    Write8(ram, Wrap32(at + 2 * i), v)
  }

  /** MOVEP to a register: a word or a long. */
  function PeripheralRead(m: Machine, reg: Reg, at: int, long: bool): Machine {
    var (b0, b1) := (EveryOther(m.ram, at, 0), EveryOther(m.ram, at, 1));
    if long then m.SetD(reg, Join16(Join8(b0, b1), Join8(EveryOther(m.ram, at, 2), EveryOther(m.ram, at, 3))))
    else m.SetD(reg, Merge(Word, m.d[reg], Join8(b0, b1)))
  }

  /** MOVEP from a register, the least significant byte first. */
  function PeripheralWritten(ram: Ram, v: u32, at: int, long: bool): Ram {
    if long then
      var ram' := PutEveryOther(PutEveryOther(ram, at, 3, v % 0x100), at, 2, v / 0x100 % 0x100);
      PutEveryOther(PutEveryOther(ram', at, 1, v / 0x1_0000 % 0x100), at, 0, v / 0x100_0000 % 0x100)
    else PutEveryOther(PutEveryOther(ram, at, 1, v % 0x100), at, 0, v / 0x100 % 0x100)
  }

  function MovedPeripheral(m: Machine, opcode: u16): Machine {
    var (m1, reg) := (m.Fetch(), OpReg(opcode));
    var at: int := Wrap32(m.A(EaReg(opcode)) + m1.Displacement());
    match OpMode(opcode)
    case 4 => PeripheralRead(m1, reg, at, false)
    case 5 => PeripheralRead(m1, reg, at, true)
    case 6 => m1.(ram := PeripheralWritten(m1.ram, m1.d[reg], at, false))
    case 7 => m1.(ram := PeripheralWritten(m1.ram, m1.d[reg], at, true))
    case _ => m1.Exception(VECTOR_ILLEGAL_INSTRUCTION)
  }

  function WithZero(m: Machine): Machine {
    m.(sr := m.sr.(n := false, z := true, v := false, c := false))
  }

  function ClearedAt(m: Machine, at: Location, sz: Size): Expected {
    match m.Store(at, sz, 0)
    case Value(m1) => Becomes(WithZero(m1))
    case Fault(m1, _) => Becomes(m1)
    case OutOfRange => Unspecified
  }

  /** Words and longs are read before they are cleared, for the exception that a read raises. */
  function ReadAndCleared(m: Machine, at: Location, sz: Size): Expected {
    if sz == Byte then ClearedAt(m, at, sz)
    else
      match OperandAt(m, at, sz, false)
      case Got(_, _, _) => ClearedAt(m, at, sz)
      case Lost(m1) => Becomes(m1)
      case Astray => Unspecified
  }

  function Cleared(m: Machine, opcode: u16, sz: Size): Expected {
    match m.Resolve(EaReg(opcode), EaMode(opcode), sz.Bytes())
    case At(m1, at) => ReadAndCleared(m1, at, sz)
    case IllegalMode => Becomes(m.Exception(VECTOR_ILLEGAL_INSTRUCTION))
  }

  function Exchanged(m: Machine, opcode: u16): Machine {
    var (y, x) := (EaReg(opcode), OpReg(opcode));
    match opcode / 8 % 0x20
    case 8 => m.SetD(y, m.d[x]).SetD(x, m.d[y])
    case 9 => m.SetA(y, m.A(x)).SetA(x, m.A(y))
    case 17 => m.SetD(x, m.A(y)).SetA(y, m.d[x])
    case _ => m
  }

  function SignExtended(m: Machine, opcode: u16): Machine {
    var reg := EaReg(opcode);
    if OpMode(opcode) == 2 then
      var v := SignExtend(Byte, m.d[reg] % 0x100) % 0x1_0000;
      WithLogicCodes(m.SetD(reg, Merge(Word, m.d[reg], v)), Word, v)
    else
      var v := SignExtend(Word, m.d[reg] % 0x1_0000);
      WithLogicCodes(m.SetD(reg, v), Long, v)
  }

  function Swapped(m: Machine, opcode: u16): Machine {
    var reg := EaReg(opcode);
    var v: u32 := Join16(m.d[reg] % 0x1_0000, m.d[reg] / 0x1_0000);
    WithLogicCodes(m.SetD(reg, v), Long, v)
  }

  /** LEA and PEA use the address itself, or the number of a register. */
  function AddressLoaded(m: Machine, opcode: u16): Machine {
    match m.Resolve(EaReg(opcode), EaMode(opcode), 4)
    case At(m1, at) => m1.SetA(OpReg(opcode), at.n)
    case IllegalMode => m.Exception(VECTOR_ILLEGAL_INSTRUCTION)
  }

  function AddressPushed(m: Machine, opcode: u16): Machine {
    match m.Resolve(EaReg(opcode), EaMode(opcode), 4)
    case At(m1, at) => m1.PushLong(at.n)
    case IllegalMode => m.Exception(VECTOR_ILLEGAL_INSTRUCTION)
  }

  function Examined(m: Machine, opcode: u16, sz: Size): Expected {
    match OperandOf(m, opcode, sz.Bytes(), sz, true)
    case Got(m1, _, v) => Becomes(WithLogicCodes(m1, sz, v))
    case Lost(m1) => Becomes(m1)
    case Astray => Unspecified
  }

  function TestedAndSet(m: Machine, opcode: u16): Expected {
    match OperandOf(m, opcode, 1, Byte, false)
    case Got(m1, at, v) =>
      Shifts.PowBits(Byte);
      After(WithLogicCodes(m1, Byte, v).Store(at, Byte, Bitwise(OR, v, 0x80, 8)))
    case Lost(m1) => Becomes(m1)
    case Astray => Unspecified
  }

  // ---- Bits ----

  /** BTST, BCHG, BCLR and BSET (0 to 3): Z tells whether the bit was clear. */
  function BitChanged(m: Machine, opcode: u16, width: int, sz: Size, number: nat, action: int): Expected {
    match OperandOf(m, opcode, width, sz, false)
    case Got(m1, at, v) =>
      var bit := Odd(Shifts.RightQuotient(v, number));
      var m2 := m1.(sr := m1.sr.(z := !bit));
      var on := action == 3 || (action == 1 && !bit);
      Shifts.PowBits(sz);
      if action == 0 then Becomes(m2)
      else After(m2.Store(at, sz, Bitwise(if on then OR else ANDNOT, v, Pow(2, number), sz.Bits())))
    case Lost(m1) => Becomes(m1)
    case Astray => Unspecified
  }

  /** The bit of a long in a data register, or of a byte elsewhere. */
  function BitOperated(m: Machine, opcode: u16, immediate: bool, action: int): Expected {
    var m1 := if immediate then m.Fetch() else m;
    var number := if immediate then m1.opcode else m.d[OpReg(opcode)];
    if EaMode(opcode) == 0 then BitChanged(m1, opcode, 8, Long, number % 32, action)
    else BitChanged(m1, opcode, 1, Byte, number % 8, action)
  }

  // ---- The status register ----

  /** ANDI, ORI and EORI to the condition codes. */
  function LogicCodes(logic: Logic, sr: Status, operand: Status): Status {
    sr.Combine(logic, if logic == AND then operand.LowByteOnly() else operand.CodesOnly())
  }

  /** The privileged forms, on the whole register. */
  function LogicStatus(logic: Logic, sr: Status, operand: Status): Status {
    sr.Combine(logic, if logic == AND then operand else operand.Filtered())
  }

  /** The immediate destination stands for the condition codes or the whole status register. */
  predicate NamesStatus(opcode: u16, sz: Size) {
    sz != Long && EaMode(opcode) == 7 && EaReg(opcode) == 4
  }

  function LogicWithImmediate(m: Machine, opcode: u16, sz: Size, logic: Logic): Expected {
    if !NamesStatus(opcode, sz) then FromImmediate(m, opcode, sz, Logical(logic))
    else
      var (m1, value) := Immediately(m, sz);
      var operand := FromWord(value % 0x1_0000);
      if sz == Byte then Becomes(m1.(sr := LogicCodes(logic, m1.sr, operand)))
      else if m.sr.sys.s then Becomes(m1.(sr := LogicStatus(logic, m1.sr, operand)))
      else Becomes(Privileged(m1))
  }

  function CodesMoved(m: Machine, opcode: u16): Expected {
    match OperandOf(m, opcode, 2, Word, true)
    case Got(m1, _, v) => Becomes(m1.(sr := m1.sr.WithCodesOf(FromWord(v % 0x1_0000))))
    case Lost(m1) => Becomes(m1)
    case Astray => Unspecified
  }

  function StatusMoved(m: Machine, opcode: u16): Expected {
    if !m.sr.sys.s then Becomes(Privileged(m))
    else
      match OperandOf(m, opcode, 2, Word, true)
      case Got(m1, _, v) => Becomes(m1.(sr := FromWord(v % 0x1_0000).Filtered()))
      case Lost(m1) => Becomes(m1)
      case Astray => Unspecified
  }

  function StatusRead(m: Machine, opcode: u16): Expected {
    match OperandOf(m, opcode, 2, Word, false)
    case Got(m1, at, _) => After(m1.Store(at, Word, m1.sr.ToWord()))
    case Lost(m1) => Becomes(m1)
    case Astray => Unspecified
  }

  function UserStackSet(m: Machine, opcode: u16): Machine {
    if m.sr.sys.s then m.(a := m.a[SP := m.A(EaReg(opcode))]) else Privileged(m)
  }

  function UserStackRead(m: Machine, opcode: u16): Machine {
    if m.sr.sys.s then m.SetA(EaReg(opcode), m.a[SP]) else Privileged(m)
  }

  /** STOP loads the status register and stays at itself. */
  function Stopped(m: Machine): Machine {
    if !m.sr.sys.s then Privileged(m)
    else
      var m1 := m.Fetch();
      m1.(sr := FromWord(m1.opcode).Filtered(), pc := Wrap32(m1.pc - 4))
  }

  function ResetBy(m: Machine): Machine {
    if m.sr.sys.s then m else Privileged(m)
  }

  /** CHK: outside the range from zero to the bound, an exception at the next instruction. */
  function CheckedAgainst(m: Machine, at: Location, checked: int): Expected {
    match OperandAt(m, at, Word, true)
    case Got(_, _, bound) =>
      if checked > Signed(Word, bound) || checked < 0 then
        Becomes(m.Framed(VECTOR_CHK_INSTRUCTION))
      else Becomes(m)
    case Lost(m1) => Becomes(m1)
    case Astray => Unspecified
  }

  function Checked(m: Machine, opcode: u16): Expected {
    match m.Resolve(EaReg(opcode), EaMode(opcode), 2)
    case IllegalMode => Becomes(m.Exception(VECTOR_ILLEGAL_INSTRUCTION))
    case At(m1, at) =>
      var checked := Signed(Word, Truncate(Word, m1.d[OpReg(opcode)]));
      CheckedAgainst(m1.(sr := m1.sr.(v := false, c := false, z := false, n := checked < 0)), at, checked)
  }
}
