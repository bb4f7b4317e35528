/** The arithmetic and logical instructions in place. */
module Arithmetic {
  import opened Words
  import opened StatusRegister
  import opened Memories
  import opened Machines
  import opened Safety
  import opened Opcodes
  import opened Operations
  import opened Cpus
  import Alu
  import Shifts

  method Compute(cpu: Cpu, sz: Size, op: Operation, src: u32, dst: u32) returns (result: u32)
    requires op.Allows(sz, src) && dst < sz.Modulus()
    modifies cpu`c, cpu`v, cpu`z, cpu`n, cpu`x
    ensures result == op.Apply(sz, src, dst, old(cpu.Sr())).value
    ensures cpu.Sr() == op.Apply(sz, src, dst, old(cpu.Sr())).sr
  {
    hide Bitwise, BitAt, Alu.Add, Alu.Sub, Alu.Subx, Alu.SubBcd, Shift.Apply;
    match op {
      case ADD => result := cpu.AddHelper(sz, src, dst, false);
      case SUB => result := cpu.SubHelper(sz, src, dst, false);
      case AddQuiet => result := cpu.AddHelper(sz, src, dst, true);
      case SubQuiet => result := cpu.SubHelper(sz, src, dst, true);
      case NEG => result := cpu.SubHelper(sz, dst, 0, false);
      case NEGX => result := cpu.SubxHelper(sz, dst, 0);
      case NBCD => result := cpu.SubBcdHelper(dst, 0);
      case NOT => result := LogicHelper(cpu, sz, sz.Modulus() - 1 - dst);
      case Logical(logic) =>
        Shifts.PowBits(sz);
        result := LogicHelper(cpu, sz, Bitwise(logic, src, dst, sz.Bits()));
      case Shifted(shift) => result := ShiftHelper(cpu, sz, shift, dst, src);
    }
  }

  method LogicHelper(cpu: Cpu, sz: Size, value: u32) returns (result: u32)
    requires value < sz.Modulus()
    modifies cpu`c, cpu`v, cpu`z, cpu`n
    ensures result == LogicOut(sz, value, old(cpu.Sr())).value
    ensures cpu.Sr() == LogicOut(sz, value, old(cpu.Sr())).sr
  {
    hide BitAt;
    TopBit(sz, value);
    result := value;
    cpu.n := BitAt(result, sz.Half());
    cpu.z := result == 0;
    cpu.c := false;
    cpu.v := false;
  }

  method ShiftHelper(cpu: Cpu, sz: Size, shift: Shift, value: u32, count: u8) returns (result: u32)
    requires value < sz.Modulus()
    modifies cpu`c, cpu`v, cpu`z, cpu`n, cpu`x
    ensures result == shift.Apply(sz, value, count, old(cpu.Sr())).value
    ensures cpu.Sr() == shift.Apply(sz, value, count, old(cpu.Sr())).sr
  {
    hide Shifts.Asl, Shifts.Asr, Shifts.Lsl, Shifts.Lsr, Shifts.Rol, Shifts.Ror, Shifts.Roxl, Shifts.Roxr;
    match shift {
      case ASL => result := cpu.AslHelper(sz, value, count);
      case ASR => result := cpu.AsrHelper(sz, value, count);
      case LSL => result := cpu.LslHelper(sz, value, count);
      case LSR => result := cpu.LsrHelper(sz, value, count);
      case ROL => result := cpu.RolHelper(sz, value, count);
      case ROR => result := cpu.RorHelper(sz, value, count);
      case ROXL => result := cpu.RoxlHelper(sz, value, count);
      case ROXR => result := cpu.RoxrHelper(sz, value, count);
    }
  }

  /** Reads the destination that has been set up, applies the operation and writes the result back. */
  method Modify(cpu: Cpu, sz: Size, op: Operation, src: u32) returns (o: Outcome<()>)
    requires cpu.Valid() && op.Allows(sz, src)
    modifies cpu, cpu.d, cpu.a, cpu.mem.ram
    ensures Reaches(Modified(old(cpu.S()), old(cpu.dst), sz, op, src), o, cpu.S())
    ensures Safe(old(cpu.S()), cpu.S(), o)
  {
    hide Within, Taken, Wrap32, Even, LongAt, Operation.Apply, Operation.Allows;
    hide Machine.Load, Machine.Store;
    ghost var m := cpu.S();
    var v :- cpu.DstRead(sz);
    var result := Compute(cpu, sz, op, src, v);
    ghost var m1 := cpu.S();
    PlainWithin(m, m1);
    o := cpu.DstWrite(sz, result);
    SafeAfter(m, m1, cpu.S(), o);
  }

  /** Applies the operation to the source that has been set up and a data register. */
  method Accumulate(cpu: Cpu, sz: Size, op: Operation, reg: Reg) returns (o: Outcome<()>)
    requires cpu.Valid() && !op.NBCD? && !op.Shifted?
    modifies cpu, cpu.d, cpu.mem.ram
    ensures Reaches(Accumulated(old(cpu.S()), old(cpu.src), sz, op, reg), o, cpu.S())
    ensures Safe(old(cpu.S()), cpu.S(), o)
  {
    hide Within, Taken, Wrap32, Even, LongAt, Operation.Apply, Truncate, Merge;
    hide Machine.Load;
    ghost var m := cpu.S();
    var v :- cpu.SrcRead(sz);
    var result := Compute(cpu, sz, op, v, Truncate(sz, cpu.d[reg]));
    cpu.SetDataReg(reg, Merge(sz, cpu.d[reg], result));
    PlainWithin(m, cpu.S());
    o := Done(());
  }

  // ---- Forms of the instructions ----

  method OperateOnDestination(cpu: Cpu, opcode: u16, sz: Size, op: Operation, src: u32) returns (o: Outcome<()>)
    requires cpu.Valid() && op.Allows(sz, src)
    modifies cpu, cpu.d, cpu.a, cpu.mem.ram
    ensures Reaches(ToDestination(old(cpu.S()), opcode, sz, op, src), o, cpu.S())
    ensures Safe(old(cpu.S()), cpu.S(), o)
  {
    hide Within, Taken, Modified, Operation.Allows, EaReg, EaMode;
    hide Machine.Resolve, Machine.Exception;
    ghost var m := cpu.S();
    var _ :- cpu.DstSet(EaReg(opcode), EaMode(opcode), sz.Bytes());
    ghost var m1 := cpu.S();
    o := Modify(cpu, sz, op, src);
    SafeAfter(m, m1, cpu.S(), o);
  }

  method OperateFromSource(cpu: Cpu, opcode: u16, sz: Size, op: Operation) returns (o: Outcome<()>)
    requires cpu.Valid() && !op.NBCD? && !op.Shifted?
    modifies cpu, cpu.d, cpu.a, cpu.mem.ram
    ensures Reaches(FromSource(old(cpu.S()), opcode, sz, op), o, cpu.S())
    ensures Safe(old(cpu.S()), cpu.S(), o)
  {
    hide Within, Taken, Accumulated, EaReg, EaMode, OpReg;
    hide Machine.Resolve, Machine.Exception;
    ghost var m := cpu.S();
    var _ :- cpu.SrcSet(EaReg(opcode), EaMode(opcode), sz.Bytes());
    ghost var m1 := cpu.S();
    o := Accumulate(cpu, sz, op, OpReg(opcode));
    SafeAfter(m, m1, cpu.S(), o);
  }

  method OperateFromRegister(cpu: Cpu, opcode: u16, sz: Size, op: Operation) returns (o: Outcome<()>)
    requires cpu.Valid() && !op.NBCD? && !op.Shifted?
    modifies cpu, cpu.d, cpu.a, cpu.mem.ram
    ensures Reaches(FromRegister(old(cpu.S()), opcode, sz, op), o, cpu.S())
    ensures Safe(old(cpu.S()), cpu.S(), o)
  {
    hide ToDestination, Safe, OpReg;
    o := OperateOnDestination(cpu, opcode, sz, op, Truncate(sz, cpu.d[OpReg(opcode)]));
  }

  /** The source is extended to a long, and the whole address register takes part. */
  method OperateOnAddress(cpu: Cpu, opcode: u16, sz: Size, op: Operation) returns (o: Outcome<()>)
    requires cpu.Valid() && (op.AddQuiet? || op.SubQuiet?)
    modifies cpu, cpu.d, cpu.a, cpu.mem.ram
    ensures Reaches(ToAddress(old(cpu.S()), opcode, sz, op), o, cpu.S())
    ensures Safe(old(cpu.S()), cpu.S(), o)
  {
    hide Within, Taken, EaReg, EaMode, OpReg, SignExtend, Wrap32, Even, LongAt, Operation.Apply;
    hide Machine.Resolve, Machine.Exception, Machine.Load, Machine.A, Machine.SetA;
    ghost var m := cpu.S();
    var _ :- cpu.SrcSet(EaReg(opcode), EaMode(opcode), sz.Bytes());
    ghost var m1 := cpu.S();
    var dst := cpu.AddressRegValue(OpReg(opcode));
    var v := cpu.SrcRead(sz);
    SafeAfter(m, m1, cpu.S(), v);
    if v.IsFailure() {
      return v.PropagateFailure();
    }
    QuietKeepsCodes(Long, op, SignExtend(sz, v.value), dst, cpu.Sr());
    var result := Compute(cpu, Long, op, SignExtend(sz, v.value), dst);
    cpu.AddressRegSetLong(OpReg(opcode), result);
    o := Done(());
    WithinTwice(m, m1, cpu.S());
  }

  lemma QuietKeepsCodes(sz: Size, op: Operation, src: u32, dst: u32, sr: Status)
    requires (op.AddQuiet? || op.SubQuiet?) && src < sz.Modulus() && dst < sz.Modulus()
    ensures op.Apply(sz, src, dst, sr).sr == sr
  {
  }

  /** The operand that follows the opcode. */
  method FetchImmediate(cpu: Cpu, sz: Size) returns (value: u32)
    requires cpu.Valid()
    modifies cpu`pc, cpu`opcode
    ensures (cpu.S(), value) == Immediately(old(cpu.S()), sz)
    ensures Within(old(cpu.S()), cpu.S())
  {
    hide Within;
    hide Machine.Fetch;
    ghost var m := cpu.S();
    value := cpu.Fetch();
    if sz == Byte {
      value := value % 0x100;
    } else if sz == Long {
      ghost var m1 := cpu.S();
      var low := cpu.Fetch();
      value := Join16(value, low);
      WithinTwice(m, m1, cpu.S());
    }
  }

  method OperateWithImmediate(cpu: Cpu, opcode: u16, sz: Size, op: Operation) returns (o: Outcome<()>)
    requires cpu.Valid() && !op.NBCD? && !op.Shifted?
    modifies cpu, cpu.d, cpu.a, cpu.mem.ram
    ensures Reaches(FromImmediate(old(cpu.S()), opcode, sz, op), o, cpu.S())
    ensures Safe(old(cpu.S()), cpu.S(), o)
  {
    hide Within, Taken, ToDestination, Immediately;
    ghost var m := cpu.S();
    var value := FetchImmediate(cpu, sz);
    ghost var m1 := cpu.S();
    o := OperateOnDestination(cpu, opcode, sz, op, value);
    SafeAfter(m, m1, cpu.S(), o);
  }

  method OperateQuick(cpu: Cpu, opcode: u16, sz: Size, subtract: bool) returns (o: Outcome<()>)
    requires cpu.Valid()
    modifies cpu, cpu.d, cpu.a, cpu.mem.ram
    ensures Reaches(Quickly(old(cpu.S()), opcode, sz, subtract), o, cpu.S())
    ensures Safe(old(cpu.S()), cpu.S(), o)
  {
    hide ToDestination, Safe, EaMode, OpReg;
    var value: int := OpReg(opcode);
    if value == 0 {
      value := 8;
    }
    var quiet := EaMode(opcode) == 1;
    if subtract {
      o := OperateOnDestination(cpu, opcode, sz, if quiet then SubQuiet else SUB, value);
    } else {
      o := OperateOnDestination(cpu, opcode, sz, if quiet then AddQuiet else ADD, value);
    }
  }

  method CompareSource(cpu: Cpu, opcode: u16, sz: Size) returns (o: Outcome<()>)
    requires cpu.Valid()
    modifies cpu, cpu.d, cpu.a, cpu.mem.ram
    ensures Reaches(CompareFrom(old(cpu.S()), opcode, sz), o, cpu.S())
    ensures Safe(old(cpu.S()), cpu.S(), o)
  {
    hide Within, Taken, EaReg, EaMode, OpReg, Truncate, Wrap32, Even, LongAt, Signed;
    hide Alu.Cmp, Machine.Resolve, Machine.Exception, Machine.Load;
    ghost var m := cpu.S();
    var _ :- cpu.SrcSet(EaReg(opcode), EaMode(opcode), sz.Bytes());
    ghost var m1 := cpu.S();
    var v := cpu.SrcRead(sz);
    SafeAfter(m, m1, cpu.S(), v);
    if v.IsFailure() {
      return v.PropagateFailure();
    }
    CmpKeepsMode(sz, v.value, Truncate(sz, cpu.d[OpReg(opcode)]), cpu.Sr());
    cpu.CmpHelper(sz, v.value, Truncate(sz, cpu.d[OpReg(opcode)]));
    PlainWithin(m1, cpu.S());
    WithinTwice(m, m1, cpu.S());
    o := Done(());
  }

  lemma CmpKeepsMode(sz: Size, sub: u32, min: u32, sr: Status)
    requires sub < sz.Modulus() && min < sz.Modulus()
    ensures Alu.Cmp(sz, sub, min, sr).sys == sr.sys && Alu.Cmp(sz, sub, min, sr).x == sr.x
  {
  }

  method CompareAddressSource(cpu: Cpu, opcode: u16, sz: Size) returns (o: Outcome<()>)
    requires cpu.Valid()
    modifies cpu, cpu.d, cpu.a, cpu.mem.ram
    ensures Reaches(CompareAddress(old(cpu.S()), opcode, sz), o, cpu.S())
    ensures Safe(old(cpu.S()), cpu.S(), o)
  {
    hide Within, Taken, EaReg, EaMode, OpReg, SignExtend, Wrap32, Even, LongAt, Signed;
    hide Alu.Cmp, Machine.Resolve, Machine.Exception, Machine.Load, Machine.A;
    ghost var m := cpu.S();
    var _ :- cpu.SrcSet(EaReg(opcode), EaMode(opcode), sz.Bytes());
    ghost var m1 := cpu.S();
    var dst := cpu.AddressRegValue(OpReg(opcode));
    var v := cpu.SrcRead(sz);
    SafeAfter(m, m1, cpu.S(), v);
    if v.IsFailure() {
      return v.PropagateFailure();
    }
    CmpKeepsMode(Long, SignExtend(sz, v.value), dst, cpu.Sr());
    cpu.CmpHelper(Long, SignExtend(sz, v.value), dst);
    PlainWithin(m1, cpu.S());
    WithinTwice(m, m1, cpu.S());
    o := Done(());
  }

  method CompareWithImmediate(cpu: Cpu, opcode: u16, sz: Size) returns (o: Outcome<()>)
    requires cpu.Valid()
    modifies cpu, cpu.d, cpu.a, cpu.mem.ram
    ensures Reaches(CompareImmediate(old(cpu.S()), opcode, sz), o, cpu.S())
    ensures Safe(old(cpu.S()), cpu.S(), o)
  {
    hide Within, Taken, EaReg, EaMode, Wrap32, Even, LongAt, Signed, Immediately;
    hide Alu.Cmp, Machine.Resolve, Machine.Exception, Machine.Load;
    ghost var m := cpu.S();
    var value := FetchImmediate(cpu, sz);
    ghost var m1 := cpu.S();
    var located := cpu.DstSet(EaReg(opcode), EaMode(opcode), sz.Bytes());
    SafeAfter(m, m1, cpu.S(), located);
    var _ :- located;
    ghost var m2 := cpu.S();
    var v := cpu.DstRead(sz);
    SafeAfter(m, m2, cpu.S(), v);
    if v.IsFailure() {
      return v.PropagateFailure();
    }
    CmpKeepsMode(sz, value, v.value, cpu.Sr());
    cpu.CmpHelper(sz, value, v.value);
    PlainWithin(m2, cpu.S());
    WithinTwice(m, m2, cpu.S());
    o := Done(());
  }

  method CompareBothMemory(cpu: Cpu, opcode: u16, sz: Size) returns (o: Outcome<()>)
    requires cpu.Valid()
    modifies cpu, cpu.d, cpu.a, cpu.mem.ram
    ensures !o.Undefined? && cpu.S() == CompareMemory(old(cpu.S()), opcode, sz)
    ensures Safe(old(cpu.S()), cpu.S(), o)
  {
    hide Within, Taken, EaReg, OpReg, Wrap32, Even, LongAt, Signed, ReadSized;
    hide Alu.Cmp, Machine.A, Machine.IncA, Machine.AddressError;
    ghost var m := cpu.S();
    var from := cpu.AddressRegValue(EaReg(opcode));
    cpu.AddressRegInc(EaReg(opcode), sz.Bytes());
    ghost var m1 := cpu.S();
    var src, error := ReadAt(cpu, from, sz);
    if error {
      o := cpu.AddressFault(from, true, false);
      SafeAfter(m, m1, cpu.S(), o);
      return;
    }
    var to := cpu.AddressRegValue(OpReg(opcode));
    cpu.AddressRegInc(OpReg(opcode), sz.Bytes());
    ghost var m2 := cpu.S();
    WithinTwice(m, m1, m2);
    var dst, error' := ReadAt(cpu, to, sz);
    if error' {
      o := cpu.AddressFault(to, true, false);
      SafeAfter(m, m2, cpu.S(), o);
      return;
    }
    CmpKeepsMode(sz, src, dst, cpu.Sr());
    cpu.CmpHelper(sz, src, dst);
    PlainWithin(m2, cpu.S());
    WithinTwice(m, m2, cpu.S());
    o := Done(());
  }

  /** A direct read of memory; only words and longs can be misaligned. */
  method ReadAt(cpu: Cpu, address: u32, sz: Size) returns (value: u32, error: bool)
    requires cpu.Valid()
    ensures error <==> sz != Byte && !Even(address)
    ensures !error ==> value == ReadSized(cpu.mem.Bytes(), sz, address)
    ensures value < sz.Modulus()
  {
    hide Cell;
    error := false;
    match sz {
      case Byte => value := cpu.mem.ReadByte(address);
      case Word => value, error := cpu.mem.ReadWord(address);
      case Long => value, error := cpu.mem.ReadLong(address);
    }
  }
}
