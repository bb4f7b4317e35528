/** What every instruction does, by opcode. Only a register that does not exist, a MOVEM operand outside memory, a
    division that C leaves undefined and a hooked trap are unspecified. */
module Decoding {
  import opened Words
  import opened Machines
  import opened Opcodes
  import opened Operations
  import opened Multiprecision
  import ControlFlow
  import ExtendedArithmetic
  import FlowInstructions
  import MovemInstructions
  import MultiplyInstructions
  import opened PlainEffects

  function Illegally(m: Machine): Expected {
    Becomes(m.Exception(VECTOR_ILLEGAL_INSTRUCTION))
  }

  /** The size in the two low bits of the operation mode. */
  function ModeSize(opcode: u16): Size {
    SizeOf(OpMode(opcode) % 4)
  }

  /** Immediates, bit operations and MOVEP. */
  function Line0(m: Machine, opcode: u16): Expected {
    var sz := SizeOf(SizeField(opcode));
    if EaMode(opcode) == 1 then Becomes(MovedPeripheral(m, opcode))
    else if CondField(opcode) % 2 == 1 then BitOperated(m, opcode, false, SizeField(opcode))
    else
      match CondField(opcode)
      case 14 => Illegally(m)
      case 0 => if SizeField(opcode) == 3 then Illegally(m) else LogicWithImmediate(m, opcode, sz, OR)
      case 2 => if SizeField(opcode) == 3 then Illegally(m) else LogicWithImmediate(m, opcode, sz, AND)
      case 10 => if SizeField(opcode) == 3 then Illegally(m) else LogicWithImmediate(m, opcode, sz, EOR)
      case 4 => if SizeField(opcode) == 3 then Illegally(m) else FromImmediate(m, opcode, sz, SUB)
      case 6 => if SizeField(opcode) == 3 then Illegally(m) else FromImmediate(m, opcode, sz, ADD)
      case 12 => if SizeField(opcode) == 3 then Illegally(m) else CompareImmediate(m, opcode, sz)
      case _ => BitOperated(m, opcode, true, SizeField(opcode))
  }

  /** The miscellaneous instructions. */
  function Line4(m: Machine, opcode: u16, hooked: bool): Expected {
    match opcode / 0x40 % 0x40
    case 0 => ToDestination(m, opcode, Byte, NEGX, 0)
    case 1 => ToDestination(m, opcode, Word, NEGX, 0)
    case 2 => ToDestination(m, opcode, Long, NEGX, 0)
    case 16 => ToDestination(m, opcode, Byte, NEG, 0)
    case 17 => ToDestination(m, opcode, Word, NEG, 0)
    case 18 => ToDestination(m, opcode, Long, NEG, 0)
    case 24 => ToDestination(m, opcode, Byte, NOT, 0)
    case 25 => ToDestination(m, opcode, Word, NOT, 0)
    case 26 => ToDestination(m, opcode, Long, NOT, 0)
    case 32 => ToDestination(m, opcode, Byte, NBCD, 0)
    case 34 =>
      if EaMode(opcode) == 0 then Becomes(SignExtended(m, opcode))
      else MovemInstructions.StoreRegisters(m, opcode, Word)
    case 35 =>
      if EaMode(opcode) == 0 then Becomes(SignExtended(m, opcode))
      else MovemInstructions.StoreRegisters(m, opcode, Long)
    case 50 => MovemInstructions.LoadRegisters(m, opcode, Word)
    case 51 => MovemInstructions.LoadRegisters(m, opcode, Long)
    case 57 => Control(m, opcode, hooked)
    case 58 => Becomes(FlowInstructions.Jump(m, opcode, true))
    case 59 => Becomes(FlowInstructions.Jump(m, opcode, false))
    case 27 => StatusMoved(m, opcode)
    case _ => Ordinary(m, opcode, opcode / 0x40 % 0x40)
  }

  function Ordinary(m: Machine, opcode: u16, field: int): Expected {
    if field == 3 then StatusRead(m, opcode)
    else if 8 <= field < 11 then Cleared(m, opcode, SizeOf(field % 4))
    else if field % 8 == 6 then Checked(m, opcode)
    else if field % 8 == 7 then Becomes(AddressLoaded(m, opcode))
    else if field == 19 then CodesMoved(m, opcode)
    else if field == 33 && EaMode(opcode) == 0 then Becomes(Swapped(m, opcode))
    else if field == 33 && (EaMode(opcode) == 2 || EaMode(opcode) >= 5) then Becomes(AddressPushed(m, opcode))
    else if 40 <= field < 43 then Examined(m, opcode, SizeOf(field % 4))
    else if field == 43 then TestedAndSet(m, opcode)
    else Illegally(m)
  }

  /** Traps, stack frames and returns. */
  function Control(m: Machine, opcode: u16, hooked: bool): Expected {
    match EaMode(opcode)
    case 0 => FlowInstructions.TrapOf(m, opcode, hooked)
    case 1 => FlowInstructions.TrapOf(m, opcode, hooked)
    case 2 => Becomes(ControlFlow.Link(m, EaReg(opcode)))
    case 3 => Becomes(ControlFlow.Unlk(m, EaReg(opcode)))
    case 4 => Becomes(UserStackSet(m, opcode))
    case 5 => Becomes(UserStackRead(m, opcode))
    case 6 => (
      match EaReg(opcode)
      case 0 => Becomes(ResetBy(m))
      case 1 => Becomes(m)
      case 2 => Becomes(Stopped(m))
      case 3 => Becomes(ControlFlow.Rte(m))
      case 5 => Becomes(ControlFlow.Rts(m))
      case 6 => Becomes(FlowInstructions.TrapOnOverflow(m))
      case 7 => Becomes(ControlFlow.Rtr(m))
      case _ => Illegally(m))
    case _ => Illegally(m)
  }

  /** ADDQ, SUBQ, Scc and DBcc. */
  function Line5(m: Machine, opcode: u16): Expected {
    if SizeField(opcode) != 3 then Quickly(m, opcode, SizeOf(SizeField(opcode)), CondField(opcode) % 2 == 1)
    else if EaMode(opcode) == 1 then Becomes(ControlFlow.Dbcc(m, opcode))
    else FlowInstructions.SetOnCondition(m, opcode)
  }

  /** OR, DIVU, DIVS and SBCD. */
  function Line8(m: Machine, opcode: u16): Expected {
    match OpMode(opcode)
    case 3 => MultiplyInstructions.Divide(m, opcode, false)
    case 7 => MultiplyInstructions.Divide(m, opcode, true)
    case 4 =>
      if EaMode(opcode) < 2 then Becomes(ExtendedArithmetic.Extended(m, opcode, SBCD))
      else FromRegister(m, opcode, Byte, Logical(OR))
    case 5 => if EaMode(opcode) == 1 then Illegally(m) else FromRegister(m, opcode, Word, Logical(OR))
    case 6 => if EaMode(opcode) == 1 then Illegally(m) else FromRegister(m, opcode, Long, Logical(OR))
    case _ => FromSource(m, opcode, ModeSize(opcode), Logical(OR))
  }

  /** ADD and ADDX, or SUB and SUBX. */
  function Additive(m: Machine, opcode: u16, subtract: bool): Expected {
    var op := if subtract then SUB else ADD;
    match OpMode(opcode)
    case 3 => ToAddress(m, opcode, Word, if subtract then SubQuiet else AddQuiet)
    case 7 => ToAddress(m, opcode, Long, if subtract then SubQuiet else AddQuiet)
    case 0 => FromSource(m, opcode, Byte, op)
    case 1 => FromSource(m, opcode, Word, op)
    case 2 => FromSource(m, opcode, Long, op)
    case _ =>
      if EaMode(opcode) >= 2 then FromRegister(m, opcode, ModeSize(opcode), op)
      else
        var sz := ModeSize(opcode);
        Becomes(ExtendedArithmetic.Extended(m, opcode, if subtract then SUBX(sz) else ADDX(sz)))
  }

  /** CMP, CMPA, CMPM and EOR. */
  function LineB(m: Machine, opcode: u16): Expected {
    match OpMode(opcode)
    case 3 => CompareAddress(m, opcode, Word)
    case 7 => CompareAddress(m, opcode, Long)
    case 0 => CompareFrom(m, opcode, Byte)
    case 1 => CompareFrom(m, opcode, Word)
    case 2 => CompareFrom(m, opcode, Long)
    case _ =>
      if EaMode(opcode) == 1 then Becomes(CompareMemory(m, opcode, ModeSize(opcode)))
      else FromRegister(m, opcode, ModeSize(opcode), Logical(EOR))
  }

  /** AND, MULU, MULS and ABCD. */
  function LineC(m: Machine, opcode: u16): Expected {
    match OpMode(opcode)
    case 3 => MultiplyInstructions.Multiply(m, opcode, false)
    case 7 => MultiplyInstructions.Multiply(m, opcode, true)
    case 4 =>
      if EaMode(opcode) < 2 then Becomes(ExtendedArithmetic.Extended(m, opcode, ABCD))
      else FromRegister(m, opcode, Byte, Logical(AND))
    case 5 =>
      if EaMode(opcode) < 2 then Becomes(Exchanged(m, opcode)) else FromRegister(m, opcode, Word, Logical(AND))
    case 6 =>
      if EaMode(opcode) == 0 then Illegally(m)
      else if EaMode(opcode) == 1 then Becomes(Exchanged(m, opcode))
      else FromRegister(m, opcode, Long, Logical(AND))
    case _ => FromSource(m, opcode, ModeSize(opcode), Logical(AND))
  }

  /** Shifts and rotates. */
  function LineE(m: Machine, opcode: u16): Expected {
    var left := CondField(opcode) % 2 == 1;
    if SizeField(opcode) == 3 then ToDestination(m, opcode, Word, Shifted(ShiftOf(opcode / 0x200 % 4, left)), 1)
    else ShiftedRegister(m, opcode, SizeOf(SizeField(opcode)), ShiftOf(opcode / 8 % 4, left))
  }

  /** An instruction after its opcode has been fetched. */
  function Performed(m: Machine, opcode: u16, hooked: bool): Expected {
    match opcode / 0x1000
    case 0 => Line0(m, opcode)
    case 1 => Moved(m, opcode, Byte)
    case 2 => Moved(m, opcode, Long)
    case 3 => Moved(m, opcode, Word)
    case 4 => Line4(m, opcode, hooked)
    case 5 => Line5(m, opcode)
    case 6 => Becomes(ControlFlow.Branch(m, opcode))
    case 7 => Becomes(MovedQuick(m, opcode))
    case 8 => Line8(m, opcode)
    case 9 => Additive(m, opcode, true)
    case 10 => Becomes(m.Exception(VECTOR_UNIMPLEMENTED_A_LINE))
    case 11 => LineB(m, opcode)
    case 12 => LineC(m, opcode)
    case 13 => Additive(m, opcode, false)
    case 14 => LineE(m, opcode)
    case _ => Becomes(m.Exception(VECTOR_UNIMPLEMENTED_F_LINE))
  }

  /** One step of the processor. */
  function Executed(m: Machine, hooked: bool): Expected {
    var m1 := m.(oldPc := m.pc).Fetch();
    Performed(m1, m1.opcode, hooked)
  }

  /** MOVE to USP, the only instruction that changes the user stack pointer from supervisor mode. */
  predicate MovesToUsp(opcode: u16) {
    opcode / 0x1000 == 4 && opcode / 0x40 % 0x40 == 57 && EaMode(opcode) == 4
  }
}
