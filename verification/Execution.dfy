/** One step of the processor: fetch, decode, perform. */
module Execution {
  import opened Words
  import opened Machines
  import opened Safety
  import opened Opcodes
  import opened Operations
  import opened Cpus
  import opened Arithmetic
  import opened ExtendedArithmetic
  import opened FlowInstructions
  import opened MovemInstructions
  import opened MultiplyInstructions
  import opened PlainEffects
  import opened PlainInstructions
  import opened Multiprecision
  import opened Decoding

  method ExecuteLine0(cpu: Cpu, opcode: u16) returns (o: Outcome<()>)
    requires cpu.Valid()
    modifies cpu, cpu.d, cpu.a, cpu.mem.ram
    ensures Reaches(Line0(old(cpu.S()), opcode), o, cpu.S())
    ensures SafeStep(old(cpu.S()), cpu.S(), o, false)
  {
    hide Safe, SafeStep, EaMode, SizeField, CondField;
    hide FromImmediate, CompareImmediate, LogicWithImmediate, BitOperated, MovedPeripheral, Machine.Exception;
    ghost var m := cpu.S();
    if EaMode(opcode) == 1 {
      o := Movep(cpu, opcode);
    } else {
      var field := CondField(opcode);
      var sz := SizeOf(SizeField(opcode));
      if field == 14 {
        o := RaiseIllegal(cpu);
      } else if field % 2 == 1 {
        o := BitInstruction(cpu, opcode, false, SizeField(opcode));
      } else if field == 8 {
        o := BitInstruction(cpu, opcode, true, SizeField(opcode));
      } else if SizeField(opcode) == 3 {
        o := RaiseIllegal(cpu);
      } else if field == 4 {
        o := OperateWithImmediate(cpu, opcode, sz, SUB);
      } else if field == 6 {
        o := OperateWithImmediate(cpu, opcode, sz, ADD);
      } else if field == 12 {
        o := CompareWithImmediate(cpu, opcode, sz);
      } else {
        o := LogicImmediate(cpu, opcode, sz, if field == 0 then OR else if field == 2 then AND else EOR);
        return;
      }
    }
    SafeIsSafeStep(m, cpu.S(), o, false);
  }

  method RaiseIllegal(cpu: Cpu) returns (o: Outcome<()>)
    requires cpu.Valid()
    modifies cpu, cpu.mem.ram
    ensures !o.Undefined? && cpu.S() == old(cpu.S()).Exception(VECTOR_ILLEGAL_INSTRUCTION)
    ensures Safe(old(cpu.S()), cpu.S(), o)
  {
    hide Taken;
    hide Machine.Exception;
    o := cpu.Illegal();
  }

  method ExecuteLine4(cpu: Cpu, opcode: u16) returns (o: Outcome<()>)
    requires cpu.Valid()
    modifies cpu, cpu.d, cpu.a, cpu.mem.ram
    ensures Reaches(Line4(old(cpu.S()), opcode, cpu.hooked), o, cpu.S())
    ensures SafeStep(old(cpu.S()), cpu.S(), o, opcode / 0x40 % 0x40 == 57 && EaMode(opcode) == 4)
  {
    hide Safe, SafeStep, EaMode;
    hide ToDestination, StoreRegisters, LoadRegisters, Jump, Control, Ordinary, StatusMoved, SignExtended;
    hide Machine.Exception;
    var field := opcode / 0x40 % 0x40;
    var usp := field == 57 && EaMode(opcode) == 4;
    ghost var m := cpu.S();
    match field {
      case 0 => o := OperateOnDestination(cpu, opcode, Byte, NEGX, 0);
      case 1 => o := OperateOnDestination(cpu, opcode, Word, NEGX, 0);
      case 2 => o := OperateOnDestination(cpu, opcode, Long, NEGX, 0);
      case 16 => o := OperateOnDestination(cpu, opcode, Byte, NEG, 0);
      case 17 => o := OperateOnDestination(cpu, opcode, Word, NEG, 0);
      case 18 => o := OperateOnDestination(cpu, opcode, Long, NEG, 0);
      case 24 => o := OperateOnDestination(cpu, opcode, Byte, NOT, 0);
      case 25 => o := OperateOnDestination(cpu, opcode, Word, NOT, 0);
      case 26 => o := OperateOnDestination(cpu, opcode, Long, NOT, 0);
      case 32 => o := OperateOnDestination(cpu, opcode, Byte, NBCD, 0);
      case 27 =>
        o := MoveToSr(cpu, opcode);
        return;
      case 34 => o := ExtOrStore(cpu, opcode, Word);
      case 35 => o := ExtOrStore(cpu, opcode, Long);
      case 50 => o := MemoryToRegisters(cpu, opcode, Word);
      case 51 => o := MemoryToRegisters(cpu, opcode, Long);
      case 57 =>
        o := ExecuteControl(cpu, opcode);
        return;
      case 58 => o := Jsr(cpu, opcode);
      case 59 => o := Jmp(cpu, opcode);
      case _ => o := ExecuteOrdinary(cpu, opcode, field);
    }
    SafeIsSafeStep(m, cpu.S(), o, usp);
  }

  method ExtOrStore(cpu: Cpu, opcode: u16, sz: Size) returns (o: Outcome<()>)
    requires cpu.Valid() && sz != Byte
    modifies cpu, cpu.d, cpu.a, cpu.mem.ram
    ensures Reaches(if EaMode(opcode) == 0 then Becomes(SignExtended(old(cpu.S()), opcode))
                    else StoreRegisters(old(cpu.S()), opcode, sz), o, cpu.S())
    ensures Safe(old(cpu.S()), cpu.S(), o)
  {
    hide Safe, EaMode, StoreRegisters, SignExtended;
    if EaMode(opcode) == 0 {
      o := Ext(cpu, opcode);
    } else {
      o := RegistersToMemory(cpu, opcode, sz);
    }
  }

  method ExecuteOrdinary(cpu: Cpu, opcode: u16, field: int) returns (o: Outcome<()>)
    requires cpu.Valid()
    modifies cpu, cpu.d, cpu.a, cpu.mem.ram
    ensures Reaches(Ordinary(old(cpu.S()), opcode, field), o, cpu.S())
    ensures Safe(old(cpu.S()), cpu.S(), o)
  {
    hide Safe, EaMode, StatusRead, Cleared, Checked, AddressLoaded, CodesMoved, Swapped, AddressPushed, Examined;
    hide TestedAndSet, Machine.Exception;
    if field == 3 {
      o := MoveFromSr(cpu, opcode);
    } else if 8 <= field < 11 {
      o := Clr(cpu, opcode, SizeOf(field % 4));
    } else if field % 8 == 6 {
      o := Chk(cpu, opcode);
    } else if field % 8 == 7 {
      o := Lea(cpu, opcode);
    } else if field == 19 {
      o := MoveToCcr(cpu, opcode);
    } else if field == 33 && EaMode(opcode) == 0 {
      o := Swap(cpu, opcode);
    } else if field == 33 && (EaMode(opcode) == 2 || EaMode(opcode) >= 5) {
      o := Pea(cpu, opcode);
    } else if 40 <= field < 43 {
      o := Tst(cpu, opcode, SizeOf(field % 4));
    } else if field == 43 {
      o := Tas(cpu, opcode);
    } else {
      o := RaiseIllegal(cpu);
    }
  }

  method ExecuteControl(cpu: Cpu, opcode: u16) returns (o: Outcome<()>)
    requires cpu.Valid()
    modifies cpu, cpu.d, cpu.a, cpu.mem.ram
    ensures Reaches(Control(old(cpu.S()), opcode, cpu.hooked), o, cpu.S())
    ensures SafeStep(old(cpu.S()), cpu.S(), o, EaMode(opcode) == 4)
  {
    hide Safe, SafeStep, EaMode, EaReg, TrapOf, TrapOnOverflow, UserStackSet, UserStackRead, Stopped, ResetBy;
    hide Machine.Exception;
    hide ControlFlow.Link, ControlFlow.Unlk, ControlFlow.Rte, ControlFlow.Rts, ControlFlow.Rtr;
    ghost var m := cpu.S();
    match EaMode(opcode) {
      case 0 => o := Trap(cpu, opcode);
      case 1 => o := Trap(cpu, opcode);
      case 2 => o := Link(cpu, opcode);
      case 3 => o := Unlk(cpu, opcode);
      case 4 =>
        o := MoveToUsp(cpu, opcode);
        return;
      case 5 =>
        o := MoveFromUsp(cpu, opcode);
        return;
      case 6 =>
        o := ExecuteSystem(cpu, opcode);
        return;
      case _ => o := RaiseIllegal(cpu);
    }
    SafeIsSafeStep(m, cpu.S(), o, EaMode(opcode) == 4);
  }

  /** The instructions without operands. */
  method ExecuteSystem(cpu: Cpu, opcode: u16) returns (o: Outcome<()>)
    requires cpu.Valid() && EaMode(opcode) == 6
    modifies cpu, cpu.d, cpu.a, cpu.mem.ram
    ensures Reaches(Control(old(cpu.S()), opcode, cpu.hooked), o, cpu.S())
    ensures SafeStep(old(cpu.S()), cpu.S(), o, false)
  {
    hide Safe, SafeStep, EaMode, EaReg, TrapOnOverflow, Stopped, ResetBy, Machine.Exception;
    hide ControlFlow.Rte, ControlFlow.Rts, ControlFlow.Rtr;
    ghost var m := cpu.S();
    match EaReg(opcode) {
      case 0 =>
        o := Reset(cpu);
        return;
      case 1 => o := Nop(cpu);
      case 2 =>
        o := Stop(cpu);
        return;
      case 3 =>
        o := Rte(cpu);
        return;
      case 5 => o := Rts(cpu);
      case 6 => o := Trapv(cpu);
      case 7 => o := Rtr(cpu);
      case _ => o := RaiseIllegal(cpu);
    }
    SafeIsSafeStep(m, cpu.S(), o, false);
  }

  method Nop(cpu: Cpu) returns (o: Outcome<()>)
    requires cpu.Valid()
    ensures o.Done? && Safe(cpu.S(), cpu.S(), o)
  {
    hide Within;
    PlainWithin(cpu.S(), cpu.S());
    o := Done(());
  }

  method ExecuteLine5(cpu: Cpu, opcode: u16) returns (o: Outcome<()>)
    requires cpu.Valid()
    modifies cpu, cpu.d, cpu.a, cpu.mem.ram
    ensures Reaches(Line5(old(cpu.S()), opcode), o, cpu.S())
    ensures Safe(old(cpu.S()), cpu.S(), o)
  {
    hide Safe, EaMode, SizeField, CondField, Quickly, SetOnCondition, ControlFlow.Dbcc;
    if SizeField(opcode) != 3 {
      o := OperateQuick(cpu, opcode, SizeOf(SizeField(opcode)), CondField(opcode) % 2 == 1);
    } else if EaMode(opcode) == 1 {
      o := Dbcc(cpu, opcode);
    } else {
      o := Scc(cpu, opcode);
    }
  }

  method ExecuteLine8(cpu: Cpu, opcode: u16) returns (o: Outcome<()>)
    requires cpu.Valid()
    modifies cpu, cpu.d, cpu.a, cpu.mem.ram
    ensures Reaches(Line8(old(cpu.S()), opcode), o, cpu.S())
    ensures Safe(old(cpu.S()), cpu.S(), o)
  {
    hide Safe, EaMode, OpMode, FromSource, FromRegister, Divide, Extended, Machine.Exception;
    match OpMode(opcode) {
      case 3 => o := DivideInstruction(cpu, opcode, false);
      case 7 => o := DivideInstruction(cpu, opcode, true);
      case 4 =>
        if EaMode(opcode) < 2 {
          o := ExtendedInstruction(cpu, opcode, SBCD);
        } else {
          o := OperateFromRegister(cpu, opcode, Byte, Logical(OR));
        }
      case 5 =>
        if EaMode(opcode) == 1 {
          o := RaiseIllegal(cpu);
        } else {
          o := OperateFromRegister(cpu, opcode, Word, Logical(OR));
        }
      case 6 =>
        if EaMode(opcode) == 1 {
          o := RaiseIllegal(cpu);
        } else {
          o := OperateFromRegister(cpu, opcode, Long, Logical(OR));
        }
      case _ => o := OperateFromSource(cpu, opcode, ModeSize(opcode), Logical(OR));
    }
  }

  method ExecuteAdditive(cpu: Cpu, opcode: u16, subtract: bool) returns (o: Outcome<()>)
    requires cpu.Valid()
    modifies cpu, cpu.d, cpu.a, cpu.mem.ram
    ensures Reaches(Additive(old(cpu.S()), opcode, subtract), o, cpu.S())
    ensures Safe(old(cpu.S()), cpu.S(), o)
  {
    hide Safe, EaMode, OpMode, FromSource, FromRegister, ToAddress, Extended;
    var op := if subtract then SUB else ADD;
    match OpMode(opcode) {
      case 3 => o := OperateOnAddress(cpu, opcode, Word, if subtract then SubQuiet else AddQuiet);
      case 7 => o := OperateOnAddress(cpu, opcode, Long, if subtract then SubQuiet else AddQuiet);
      case 0 => o := OperateFromSource(cpu, opcode, Byte, op);
      case 1 => o := OperateFromSource(cpu, opcode, Word, op);
      case 2 => o := OperateFromSource(cpu, opcode, Long, op);
      case _ =>
        var sz := ModeSize(opcode);
        if EaMode(opcode) >= 2 {
          o := OperateFromRegister(cpu, opcode, sz, op);
        } else {
          o := ExtendedInstruction(cpu, opcode, if subtract then SUBX(sz) else ADDX(sz));
        }
    }
  }

  method ExecuteLineB(cpu: Cpu, opcode: u16) returns (o: Outcome<()>)
    requires cpu.Valid()
    modifies cpu, cpu.d, cpu.a, cpu.mem.ram
    ensures Reaches(LineB(old(cpu.S()), opcode), o, cpu.S())
    ensures Safe(old(cpu.S()), cpu.S(), o)
  {
    hide Safe, EaMode, OpMode, CompareFrom, CompareAddress, CompareMemory, FromRegister;
    match OpMode(opcode) {
      case 3 => o := CompareAddressSource(cpu, opcode, Word);
      case 7 => o := CompareAddressSource(cpu, opcode, Long);
      case 0 => o := CompareSource(cpu, opcode, Byte);
      case 1 => o := CompareSource(cpu, opcode, Word);
      case 2 => o := CompareSource(cpu, opcode, Long);
      case _ =>
        if EaMode(opcode) == 1 {
          o := CompareBothMemory(cpu, opcode, ModeSize(opcode));
        } else {
          o := OperateFromRegister(cpu, opcode, ModeSize(opcode), Logical(EOR));
        }
    }
  }

  method ExecuteLineC(cpu: Cpu, opcode: u16) returns (o: Outcome<()>)
    requires cpu.Valid()
    modifies cpu, cpu.d, cpu.a, cpu.mem.ram
    ensures Reaches(LineC(old(cpu.S()), opcode), o, cpu.S())
    ensures Safe(old(cpu.S()), cpu.S(), o)
  {
    hide Safe, EaMode, OpMode, FromSource, FromRegister, Multiply, Extended, Exchanged, Machine.Exception;
    match OpMode(opcode) {
      case 3 => o := MultiplyInstruction(cpu, opcode, false);
      case 7 => o := MultiplyInstruction(cpu, opcode, true);
      case 4 =>
        if EaMode(opcode) < 2 {
          o := ExtendedInstruction(cpu, opcode, ABCD);
        } else {
          o := OperateFromRegister(cpu, opcode, Byte, Logical(AND));
        }
      case 5 =>
        if EaMode(opcode) < 2 {
          o := Exg(cpu, opcode);
        } else {
          o := OperateFromRegister(cpu, opcode, Word, Logical(AND));
        }
      case 6 =>
        if EaMode(opcode) == 0 {
          o := RaiseIllegal(cpu);
        } else if EaMode(opcode) == 1 {
          o := Exg(cpu, opcode);
        } else {
          o := OperateFromRegister(cpu, opcode, Long, Logical(AND));
        }
      case _ => o := OperateFromSource(cpu, opcode, ModeSize(opcode), Logical(AND));
    }
  }

  method ExecuteLineE(cpu: Cpu, opcode: u16) returns (o: Outcome<()>)
    requires cpu.Valid()
    modifies cpu, cpu.d, cpu.a, cpu.mem.ram
    ensures Reaches(LineE(old(cpu.S()), opcode), o, cpu.S())
    ensures Safe(old(cpu.S()), cpu.S(), o)
  {
    hide Safe, SizeField, CondField, ToDestination, ShiftedRegister;
    var left := CondField(opcode) % 2 == 1;
    if SizeField(opcode) == 3 {
      o := ShiftMemory(cpu, opcode, ShiftOf(opcode / 0x200 % 4, left));
    } else {
      o := ShiftRegister(cpu, opcode, SizeOf(SizeField(opcode)), ShiftOf(opcode / 8 % 4, left));
    }
  }

  /** An instruction after its opcode has been fetched. */
  method Perform(cpu: Cpu, opcode: u16) returns (o: Outcome<()>)
    requires cpu.Valid()
    modifies cpu, cpu.d, cpu.a, cpu.mem.ram
    ensures Reaches(Performed(old(cpu.S()), opcode, cpu.hooked), o, cpu.S())
    ensures SafeStep(old(cpu.S()), cpu.S(), o, MovesToUsp(opcode))
  {
    hide Safe, SafeStep, Line0, Line4, Line5, Line8, LineB, LineC, LineE, Additive, ControlFlow.Branch, EaMode;
    hide Moved, MovedQuick, Machine.Exception, Taken;
    ghost var m := cpu.S();
    match opcode / 0x1000 {
      case 0 =>
        o := ExecuteLine0(cpu, opcode);
        return;
      case 1 => o := Move(cpu, opcode, Byte);
      case 2 => o := Move(cpu, opcode, Long);
      case 3 => o := Move(cpu, opcode, Word);
      case 4 =>
        o := ExecuteLine4(cpu, opcode);
        return;
      case 5 => o := ExecuteLine5(cpu, opcode);
      case 6 => o := Branch(cpu, opcode);
      case 7 => o := Moveq(cpu, opcode);
      case 8 => o := ExecuteLine8(cpu, opcode);
      case 9 => o := ExecuteAdditive(cpu, opcode, true);
      case 10 => o := RaiseUnimplemented(cpu, VECTOR_UNIMPLEMENTED_A_LINE);
      case 11 => o := ExecuteLineB(cpu, opcode);
      case 12 => o := ExecuteLineC(cpu, opcode);
      case 13 => o := ExecuteAdditive(cpu, opcode, false);
      case 14 => o := ExecuteLineE(cpu, opcode);
      case _ => o := RaiseUnimplemented(cpu, VECTOR_UNIMPLEMENTED_F_LINE);
    }
    SafeIsSafeStep(m, cpu.S(), o, MovesToUsp(opcode));
  }

  method RaiseUnimplemented(cpu: Cpu, vector: u32) returns (o: Outcome<()>)
    requires cpu.Valid() && vector != VECTOR_ADDRESS_ERROR
    modifies cpu, cpu.mem.ram
    ensures !o.Undefined? && cpu.S() == old(cpu.S()).Exception(vector)
    ensures Safe(old(cpu.S()), cpu.S(), o)
  {
    hide Taken;
    hide Machine.Exception;
    o := cpu.Raise(vector);
  }

  /** One step. */
  method Execute(cpu: Cpu) returns (o: Outcome<()>)
    requires cpu.Valid()
    modifies cpu, cpu.d, cpu.a, cpu.mem.ram
    ensures Reaches(Executed(old(cpu.S()), cpu.hooked), o, cpu.S())
    ensures SafeStep(old(cpu.S()), cpu.S(), o, MovesToUsp(WordAt(old(cpu.S()).ram, old(cpu.S()).pc)))
  {
    hide Within, SafeStep, Performed, WordAt, Wrap32, MovesToUsp;
    ghost var m := cpu.S();
    cpu.oldPc := cpu.pc;
    ghost var m0 := cpu.S();
    OldPcWithin(m, m0);
    var opcode := cpu.Fetch();
    ghost var m1 := cpu.S();
    WithinTwice(m, m0, m1);
    o := Perform(cpu, opcode);
    StepAfter(m, m1, cpu.S(), o, MovesToUsp(opcode));
  }

  lemma OldPcWithin(m: Machine, m': Machine)
    requires m' == m.(oldPc := m'.oldPc)
    ensures Within(m, m')
  {
    hide Even, SameUpperByte;
  }
}
