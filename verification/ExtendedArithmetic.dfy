/** ADDX, SUBX, ABCD, SBCD and the shifts and rotates in place. */
module ExtendedArithmetic {
  import opened Words
  import opened Memories
  import opened Machines
  import opened Safety
  import opened Opcodes
  import opened Operations
  import opened Cpus
  import opened Multiprecision
  import opened Arithmetic

  /** The two forms: predecremented memory, limb by limb, or two data registers. */
  function Extended(m: Machine, opcode: u16, op: ExtendedOp): Machine {
    var (y, x) := (EaReg(opcode), OpReg(opcode));
    if opcode / 8 % 2 == 1 then Step(m, op, y, x)
    else
      var sz := op.Width();
      var out := op.Combine(Truncate(sz, m.d[y]), Truncate(sz, m.d[x]), m.sr);
      m.SetD(x, Merge(sz, m.d[x], out.value)).(sr := out.sr)
  }

  method Combine(cpu: Cpu, op: ExtendedOp, src: u32, dst: u32) returns (result: u32)
    requires src < op.Width().Modulus() && dst < op.Width().Modulus()
    modifies cpu`c, cpu`v, cpu`z, cpu`n, cpu`x
    ensures result == op.Combine(src, dst, old(cpu.Sr())).value
    ensures cpu.Sr() == op.Combine(src, dst, old(cpu.Sr())).sr
  {
    match op {
      case ADDX(sz) => result := cpu.AddxHelper(sz, src, dst);
      case SUBX(sz) => result := cpu.SubxHelper(sz, src, dst);
      case ABCD => result := cpu.AddBcdHelper(src, dst);
      case SBCD => result := cpu.SubBcdHelper(src, dst);
    }
  }

  method WriteAt(cpu: Cpu, address: u32, sz: Size, value: u32)
    requires cpu.Valid() && value < sz.Modulus() && (sz == Byte || Even(address))
    modifies cpu.mem.ram
    ensures cpu.S() == old(cpu.S()).(ram := WriteSized(old(cpu.mem.Bytes()), sz, address, value))
  {
    hide Cell;
    match sz {
      case Byte => cpu.mem.WriteByte(address, value);
      case Word => var _ := cpu.mem.WriteWord(address, value);
      case Long => var _ := cpu.mem.WriteLong(address, value);
    }
  }

  /** The memory form: each register is decremented, and its operand read, before the next. */
  method CombineMemory(cpu: Cpu, op: ExtendedOp, y: Reg, x: Reg) returns (o: Outcome<()>)
    requires cpu.Valid()
    modifies cpu, cpu.d, cpu.a, cpu.mem.ram
    ensures !o.Undefined? && cpu.S() == Step(old(cpu.S()), op, y, x)
    ensures Safe(old(cpu.S()), cpu.S(), o)
  {
    hide Within, Taken, Wrap32, Even, LongAt, Cell, ReadSized, WriteSized, ExtendedOp.Combine;
    hide Machine.A, Machine.DecA, Machine.AddressError;
    var sz := op.Width();
    ghost var m := cpu.S();
    cpu.AddressRegDec(y, sz.Bytes());
    ghost var m1 := cpu.S();
    var from := cpu.AddressRegValue(y);
    var src, error := ReadAt(cpu, from, sz);
    if error {
      o := cpu.AddressFault(from, true, false);
      SafeAfter(m, m1, cpu.S(), o);
      return;
    }
    cpu.AddressRegDec(x, sz.Bytes());
    ghost var m2 := cpu.S();
    WithinTwice(m, m1, m2);
    var address := cpu.AddressRegValue(x);
    var dst, error' := ReadAt(cpu, address, sz);
    if error' {
      o := cpu.AddressFault(address, true, false);
      SafeAfter(m, m2, cpu.S(), o);
      return;
    }
    CombineKeepsMode(op, src, dst, cpu.Sr());
    var result := Combine(cpu, op, src, dst);
    WriteAt(cpu, address, sz, result);
    PlainWithin(m2, cpu.S());
    WithinTwice(m, m2, cpu.S());
    o := Done(());
  }

  method CombineRegisters(cpu: Cpu, op: ExtendedOp, y: Reg, x: Reg)
    requires cpu.Valid()
    modifies cpu, cpu.d
    ensures var m, sz := old(cpu.S()), op.Width();
      var out := op.Combine(Truncate(sz, m.d[y]), Truncate(sz, m.d[x]), m.sr);
      cpu.S() == m.SetD(x, Merge(sz, m.d[x], out.value)).(sr := out.sr)
    ensures Within(old(cpu.S()), cpu.S())
  {
    hide Within, Truncate, Merge, ExtendedOp.Combine;
    var sz := op.Width();
    ghost var m := cpu.S();
    CombineKeepsMode(op, Truncate(sz, cpu.d[y]), Truncate(sz, cpu.d[x]), cpu.Sr());
    var result := Combine(cpu, op, Truncate(sz, cpu.d[y]), Truncate(sz, cpu.d[x]));
    cpu.SetDataReg(x, Merge(sz, cpu.d[x], result));
    PlainWithin(m, cpu.S());
  }

  method ExtendedInstruction(cpu: Cpu, opcode: u16, op: ExtendedOp) returns (o: Outcome<()>)
    requires cpu.Valid()
    modifies cpu, cpu.d, cpu.a, cpu.mem.ram
    ensures !o.Undefined? && cpu.S() == Extended(old(cpu.S()), opcode, op)
    ensures Safe(old(cpu.S()), cpu.S(), o)
  {
    hide Within, Taken, Step, Truncate, Merge, ExtendedOp.Combine, EaReg, OpReg;
    if opcode / 8 % 2 == 1 {
      o := CombineMemory(cpu, op, EaReg(opcode), OpReg(opcode));
    } else {
      CombineRegisters(cpu, op, EaReg(opcode), OpReg(opcode));
      o := Done(());
    }
  }

  // ---- Shifts and rotates ----

  method ShiftRegister(cpu: Cpu, opcode: u16, sz: Size, shift: Shift) returns (o: Outcome<()>)
    requires cpu.Valid()
    modifies cpu, cpu.d
    ensures o.Done? && Reaches(ShiftedRegister(old(cpu.S()), opcode, sz, shift), o, cpu.S())
    ensures Safe(old(cpu.S()), cpu.S(), o)
  {
    hide Within, Taken, Truncate, Merge, Shift.Apply, EaReg, OpReg;
    ghost var m := cpu.S();
    var reg := EaReg(opcode);
    var count: int := OpReg(opcode);
    if opcode / 0x20 % 2 == 1 {
      count := cpu.d[count] % 64;
    } else if count == 0 {
      count := 8;
    }
    var result := ShiftHelper(cpu, sz, shift, Truncate(sz, cpu.d[reg]), count);
    cpu.SetDataReg(reg, Merge(sz, cpu.d[reg], result));
    PlainWithin(m, cpu.S());
    o := Done(());
  }

  /** In memory a word is shifted by one. */
  method ShiftMemory(cpu: Cpu, opcode: u16, shift: Shift) returns (o: Outcome<()>)
    requires cpu.Valid()
    modifies cpu, cpu.d, cpu.a, cpu.mem.ram
    ensures Reaches(ToDestination(old(cpu.S()), opcode, Word, Shifted(shift), 1), o, cpu.S())
    ensures Safe(old(cpu.S()), cpu.S(), o)
  {
    o := OperateOnDestination(cpu, opcode, Word, Shifted(shift), 1);
  }
}
