/** The remaining instructions in place: data movement, bit operations and the status register. */
module PlainInstructions {
  import opened Words
  import opened StatusRegister
  import opened Memories
  import opened Machines
  import opened Safety
  import opened Opcodes
  import opened Operations
  import opened Cpus
  import opened Arithmetic
  import opened FlowInstructions
  import opened PlainEffects
  import Shifts

  // ---- Moves ----

  /** Sets up a destination and writes it. */
  method WriteTo(cpu: Cpu, reg: Reg, mode: Reg, width: int, sz: Size, value: u32) returns (o: Outcome<()>)
    requires cpu.Valid() && value < sz.Modulus()
    modifies cpu, cpu.d, cpu.a, cpu.mem.ram
    ensures Reaches(WrittenTo(old(cpu.S()), reg, mode, width, sz, value), o, cpu.S())
    ensures Safe(old(cpu.S()), cpu.S(), o)
  {
    hide Within, Taken;
    hide Machine.Resolve, Machine.Exception, Machine.Store;
    ghost var m := cpu.S();
    o := cpu.DstSet(reg, mode, width);
    if o.IsFailure() {
      return;
    }
    ghost var m1 := cpu.S();
    o := cpu.DstWrite(sz, value);
    SafeAfter(m, m1, cpu.S(), o);
  }

  /** How a method that reads an operand ends. */
  predicate Reads(r: Operand, o: Outcome<u32>, m': Machine, at: Location) {
    match r
    case Got(m, l, v) => o == Done(v) && m' == m && at == l
    case Lost(m) => o.Exception? && m' == m
    case Astray => o.Undefined?
  }

  /** Sets up the effective address as source and reads it. */
  method ReadFrom(cpu: Cpu, opcode: u16, sz: Size) returns (o: Outcome<u32>)
    requires cpu.Valid()
    modifies cpu, cpu.a, cpu.mem.ram
    ensures o.Done? ==> o.value < sz.Modulus()
    ensures Reads(OperandOf(old(cpu.S()), opcode, sz.Bytes(), sz, true), o, cpu.S(), cpu.src)
    ensures Safe(old(cpu.S()), cpu.S(), o)
  {
    hide Within, Taken, EaReg, EaMode;
    hide Machine.Resolve, Machine.Exception, Machine.Load;
    ghost var m := cpu.S();
    var _ :- cpu.SrcSet(EaReg(opcode), EaMode(opcode), sz.Bytes());
    ghost var m1 := cpu.S();
    o := cpu.SrcRead(sz);
    SafeAfter(m, m1, cpu.S(), o);
  }

  /** The same as destination. */
  method ReadDestination(cpu: Cpu, opcode: u16, width: int, sz: Size) returns (o: Outcome<u32>)
    requires cpu.Valid()
    modifies cpu, cpu.a, cpu.mem.ram
    ensures o.Done? ==> o.value < sz.Modulus()
    ensures Reads(OperandOf(old(cpu.S()), opcode, width, sz, false), o, cpu.S(), cpu.dst)
    ensures Safe(old(cpu.S()), cpu.S(), o)
  {
    hide Within, Taken, EaReg, EaMode;
    hide Machine.Resolve, Machine.Exception, Machine.Load;
    ghost var m := cpu.S();
    var _ :- cpu.DstSet(EaReg(opcode), EaMode(opcode), width);
    ghost var m1 := cpu.S();
    o := cpu.DstRead(sz);
    SafeAfter(m, m1, cpu.S(), o);
  }

  /** MOVE; a MOVEA writes the whole register and leaves the codes alone, but has no byte form. */
  method Move(cpu: Cpu, opcode: u16, sz: Size) returns (o: Outcome<()>)
    requires cpu.Valid()
    modifies cpu, cpu.d, cpu.a, cpu.mem.ram
    ensures Reaches(Moved(old(cpu.S()), opcode, sz), o, cpu.S())
    ensures Safe(old(cpu.S()), cpu.S(), o)
  {
    hide Within, Taken, OperandOf, WrittenTo, EaReg, EaMode, OpReg, OpMode, SignExtend, LogicOut;
    ghost var m := cpu.S();
    var value :- ReadFrom(cpu, opcode, sz);
    ghost var m1 := cpu.S();
    if sz != Byte && OpMode(opcode) == 1 {
      o := WriteTo(cpu, OpReg(opcode), OpMode(opcode), sz.Bytes(), Long, SignExtend(sz, value));
      SafeAfter(m, m1, cpu.S(), o);
      return;
    }
    SetLogicCodes(cpu, sz, value);
    ghost var m2 := cpu.S();
    WithinTwice(m, m1, m2);
    o := WriteTo(cpu, OpReg(opcode), OpMode(opcode), sz.Bytes(), sz, value);
    SafeAfter(m, m2, cpu.S(), o);
  }

  /** N and Z of a value; V and C are cleared. */
  method SetLogicCodes(cpu: Cpu, sz: Size, value: u32)
    requires cpu.Valid() && value < sz.Modulus()
    modifies cpu`c, cpu`v, cpu`z, cpu`n
    ensures cpu.S() == old(cpu.S()).(sr := LogicOut(sz, value, old(cpu.Sr())).sr)
    ensures Within(old(cpu.S()), cpu.S())
  {
    hide Within;
    ghost var m := cpu.S();
    var _ := LogicHelper(cpu, sz, value);
    PlainWithin(m, cpu.S());
  }

  method Moveq(cpu: Cpu, opcode: u16) returns (o: Outcome<()>)
    requires cpu.Valid()
    modifies cpu, cpu.d, cpu.a, cpu.mem.ram
    ensures !o.Undefined? && cpu.S() == MovedQuick(old(cpu.S()), opcode)
    ensures Safe(old(cpu.S()), cpu.S(), o)
  {
    hide Within, Taken, OpReg, SignExtend, LogicOut;
    ghost var m := cpu.S();
    var value: u32 := SignExtend(Byte, opcode % 0x100);
    cpu.SetDataReg(OpReg(opcode), value);
    ghost var m1 := cpu.S();
    PlainWithin(m, m1);
    SetLogicCodes(cpu, Long, value);
    WithinTwice(m, m1, cpu.S());
    o := Done(());
  }

  method ReadPeripheral(cpu: Cpu, reg: Reg, at: int, long: bool)
    requires cpu.Valid()
    modifies cpu, cpu.d
    ensures cpu.S() == PeripheralRead(old(cpu.S()), reg, at, long)
    ensures Within(old(cpu.S()), cpu.S())
  {
    hide Within, Wrap32, Merge, Read8;
    ghost var m := cpu.S();
    var b0 := cpu.mem.ReadByte(Wrap32(at + 2 * 0));
    var b1 := cpu.mem.ReadByte(Wrap32(at + 2 * 1));
    if long {
      var b2 := cpu.mem.ReadByte(Wrap32(at + 2 * 2));
      var b3 := cpu.mem.ReadByte(Wrap32(at + 2 * 3));
      cpu.SetDataReg(reg, Join16(Join8(b0, b1), Join8(b2, b3)));
    } else {
      cpu.SetDataReg(reg, Merge(Word, cpu.d[reg], Join8(b0, b1)));
    }
    PlainWithin(m, cpu.S());
  }

  method WritePeripheral(cpu: Cpu, v: u32, at: int, long: bool)
    requires cpu.Valid()
    modifies cpu.mem.ram
    ensures cpu.S() == old(cpu.S()).(ram := PeripheralWritten(old(cpu.mem.Bytes()), v, at, long))
    ensures Within(old(cpu.S()), cpu.S())
  {
    hide Within, Wrap32, Write8;
    ghost var m := cpu.S();
    if long {
      cpu.mem.WriteByte(Wrap32(at + 2 * 3), v % 0x100);
      cpu.mem.WriteByte(Wrap32(at + 2 * 2), v / 0x100 % 0x100);
      cpu.mem.WriteByte(Wrap32(at + 2 * 1), v / 0x1_0000 % 0x100);
      cpu.mem.WriteByte(Wrap32(at + 2 * 0), v / 0x100_0000 % 0x100);
    } else {
      cpu.mem.WriteByte(Wrap32(at + 2 * 1), v % 0x100);
      cpu.mem.WriteByte(Wrap32(at + 2 * 0), v / 0x100 % 0x100);
    }
    PlainWithin(m, cpu.S());
  }

  /** MOVEP: every other byte of memory, from or to a data register. */
  method Movep(cpu: Cpu, opcode: u16) returns (o: Outcome<()>)
    requires cpu.Valid()
    modifies cpu, cpu.d, cpu.a, cpu.mem.ram
    ensures !o.Undefined? && cpu.S() == MovedPeripheral(old(cpu.S()), opcode)
    ensures Safe(old(cpu.S()), cpu.S(), o)
  {
    hide Within, Taken, EaReg, OpReg, OpMode, Signed, Wrap32, PeripheralRead, PeripheralWritten;
    hide Machine.Exception, Machine.A;
    ghost var m := cpu.S();
    var base: int := cpu.AddressRegValue(EaReg(opcode));
    var ext := cpu.Fetch();
    ghost var m1 := cpu.S();
    var at: int := Wrap32(base + Signed(Word, ext));
    var reg := OpReg(opcode);
    o := Done(());
    match OpMode(opcode) {
      case 4 => ReadPeripheral(cpu, reg, at, false);
      case 5 => ReadPeripheral(cpu, reg, at, true);
      case 6 => WritePeripheral(cpu, cpu.d[reg], at, false);
      case 7 => WritePeripheral(cpu, cpu.d[reg], at, true);
      case _ =>
        o := cpu.Illegal();
        SafeAfter(m, m1, cpu.S(), o);
        return;
    }
    WithinTwice(m, m1, cpu.S());
  }

  method ClearDestination(cpu: Cpu, sz: Size) returns (o: Outcome<()>)
    requires cpu.Valid()
    modifies cpu, cpu.d, cpu.a, cpu.mem.ram
    ensures Reaches(ReadAndCleared(old(cpu.S()), old(cpu.dst), sz), o, cpu.S())
    ensures Safe(old(cpu.S()), cpu.S(), o)
  {
    hide Within, Taken;
    hide Machine.Load, Machine.Store;
    if sz != Byte {
      // A read access, for its exception only.
      var _ :- cpu.DstRead(sz);
    }
    ghost var m := cpu.S();
    o := cpu.DstWrite(sz, 0);
    if o.IsFailure() {
      return;
    }
    ghost var m1 := cpu.S();
    cpu.n, cpu.z, cpu.v, cpu.c := false, true, false, false;
    PlainWithin(m1, cpu.S());
    WithinTwice(m, m1, cpu.S());
  }

  method Clr(cpu: Cpu, opcode: u16, sz: Size) returns (o: Outcome<()>)
    requires cpu.Valid()
    modifies cpu, cpu.d, cpu.a, cpu.mem.ram
    ensures Reaches(Cleared(old(cpu.S()), opcode, sz), o, cpu.S())
    ensures Safe(old(cpu.S()), cpu.S(), o)
  {
    hide Within, Taken, EaReg, EaMode, ReadAndCleared;
    hide Machine.Resolve, Machine.Exception;
    ghost var m := cpu.S();
    o := cpu.DstSet(EaReg(opcode), EaMode(opcode), sz.Bytes());
    if o.IsFailure() {
      return;
    }
    ghost var m1 := cpu.S();
    o := ClearDestination(cpu, sz);
    SafeAfter(m, m1, cpu.S(), o);
  }

  method Exg(cpu: Cpu, opcode: u16) returns (o: Outcome<()>)
    requires cpu.Valid()
    modifies cpu, cpu.d, cpu.a, cpu.mem.ram
    ensures !o.Undefined? && cpu.S() == Exchanged(old(cpu.S()), opcode)
    ensures Safe(old(cpu.S()), cpu.S(), o)
  {
    hide Within, Taken, EaReg, OpReg;
    hide Machine.A, Machine.SetA;
    ghost var m := cpu.S();
    var (y, x) := (EaReg(opcode), OpReg(opcode));
    PlainWithin(m, m);
    match opcode / 8 % 0x20 {
      case 8 =>
        var temp := cpu.d[y];
        cpu.SetDataReg(y, cpu.d[x]);
        cpu.SetDataReg(x, temp);
        PlainWithin(m, cpu.S());
      case 9 =>
        var temp := cpu.AddressRegValue(y);
        cpu.AddressRegSetLong(y, cpu.AddressRegValue(x));
        ghost var m1 := cpu.S();
        cpu.AddressRegSetLong(x, temp);
        WithinTwice(m, m1, cpu.S());
      case 17 =>
        var temp := cpu.d[x];
        cpu.SetDataReg(x, cpu.AddressRegValue(y));
        ghost var m1 := cpu.S();
        PlainWithin(m, m1);
        cpu.AddressRegSetLong(y, temp);
        WithinTwice(m, m1, cpu.S());
      case _ =>
    }
    o := Done(());
  }

  method Ext(cpu: Cpu, opcode: u16) returns (o: Outcome<()>)
    requires cpu.Valid()
    modifies cpu, cpu.d, cpu.a, cpu.mem.ram
    ensures !o.Undefined? && cpu.S() == SignExtended(old(cpu.S()), opcode)
    ensures Safe(old(cpu.S()), cpu.S(), o)
  {
    hide Within, Taken, EaReg, OpMode, Signed, SignExtend, Merge, LogicOut;
    ghost var m := cpu.S();
    var reg := EaReg(opcode);
    if OpMode(opcode) == 2 {
      var value: int := SignExtend(Byte, cpu.d[reg] % 0x100) % 0x1_0000;
      cpu.SetDataReg(reg, Merge(Word, cpu.d[reg], value));
      PlainWithin(m, cpu.S());
      ghost var m1 := cpu.S();
      SetLogicCodes(cpu, Word, value);
      WithinTwice(m, m1, cpu.S());
    } else {
      cpu.SetDataReg(reg, SignExtend(Word, cpu.d[reg] % 0x1_0000));
      PlainWithin(m, cpu.S());
      ghost var m1 := cpu.S();
      SetLogicCodes(cpu, Long, cpu.d[reg]);
      WithinTwice(m, m1, cpu.S());
    }
    o := Done(());
  }

  method Swap(cpu: Cpu, opcode: u16) returns (o: Outcome<()>)
    requires cpu.Valid()
    modifies cpu, cpu.d, cpu.a, cpu.mem.ram
    ensures !o.Undefined? && cpu.S() == Swapped(old(cpu.S()), opcode)
    ensures Safe(old(cpu.S()), cpu.S(), o)
  {
    hide Within, Taken, EaReg, LogicOut;
    ghost var m := cpu.S();
    var reg := EaReg(opcode);
    var value := Join16(cpu.d[reg] % 0x1_0000, cpu.d[reg] / 0x1_0000);
    cpu.SetDataReg(reg, value);
    ghost var m1 := cpu.S();
    PlainWithin(m, m1);
    SetLogicCodes(cpu, Long, value);
    WithinTwice(m, m1, cpu.S());
    o := Done(());
  }

  /** The address of a location, or the number of a register. */
  method Lea(cpu: Cpu, opcode: u16) returns (o: Outcome<()>)
    requires cpu.Valid()
    modifies cpu, cpu.d, cpu.a, cpu.mem.ram
    ensures !o.Undefined? && cpu.S() == AddressLoaded(old(cpu.S()), opcode)
    ensures Safe(old(cpu.S()), cpu.S(), o)
  {
    hide Within, Taken, EaReg, EaMode, OpReg;
    hide Machine.Resolve, Machine.Exception, Machine.SetA;
    ghost var m := cpu.S();
    var _ :- cpu.SrcSet(EaReg(opcode), EaMode(opcode), 4);
    ghost var m1 := cpu.S();
    cpu.AddressRegSetLong(OpReg(opcode), cpu.src.n);
    WithinTwice(m, m1, cpu.S());
    o := Done(());
  }

  method Pea(cpu: Cpu, opcode: u16) returns (o: Outcome<()>)
    requires cpu.Valid()
    modifies cpu, cpu.d, cpu.a, cpu.mem.ram
    ensures !o.Undefined? && cpu.S() == AddressPushed(old(cpu.S()), opcode)
    ensures Safe(old(cpu.S()), cpu.S(), o)
  {
    hide Within, Taken, EaReg, EaMode;
    hide Machine.Resolve, Machine.Exception, Machine.PushLong;
    ghost var m := cpu.S();
    var _ :- cpu.SrcSet(EaReg(opcode), EaMode(opcode), 4);
    ghost var m1 := cpu.S();
    PushReturn(cpu, cpu.src.n);
    WithinTwice(m, m1, cpu.S());
    o := Done(());
  }

  method Tst(cpu: Cpu, opcode: u16, sz: Size) returns (o: Outcome<()>)
    requires cpu.Valid()
    modifies cpu, cpu.d, cpu.a, cpu.mem.ram
    ensures Reaches(Examined(old(cpu.S()), opcode, sz), o, cpu.S())
    ensures Safe(old(cpu.S()), cpu.S(), o)
  {
    hide Within, Taken, OperandOf, LogicOut;
    ghost var m := cpu.S();
    var value :- ReadFrom(cpu, opcode, sz);
    ghost var m1 := cpu.S();
    SetLogicCodes(cpu, sz, value);
    WithinTwice(m, m1, cpu.S());
    o := Done(());
  }

  method Tas(cpu: Cpu, opcode: u16) returns (o: Outcome<()>)
    requires cpu.Valid()
    modifies cpu, cpu.d, cpu.a, cpu.mem.ram
    ensures Reaches(TestedAndSet(old(cpu.S()), opcode), o, cpu.S())
    ensures Safe(old(cpu.S()), cpu.S(), o)
  {
    hide Within, Taken, OperandOf, LogicOut, Bitwise, Machine.Store;
    ghost var m := cpu.S();
    var value :- ReadDestination(cpu, opcode, 1, Byte);
    ghost var m1 := cpu.S();
    SetLogicCodes(cpu, Byte, value);
    ghost var m2 := cpu.S();
    WithinTwice(m, m1, m2);
    Shifts.PowBits(Byte);
    o := cpu.DstWrite(Byte, Bitwise(OR, value, 0x80, 8));
    SafeAfter(m, m2, cpu.S(), o);
  }

  /** CHK takes its exception at the instruction after it, unlike the others. */
  method RaiseAtPc(cpu: Cpu, vector: u32)
    requires cpu.Valid() && vector != VECTOR_ADDRESS_ERROR
    modifies cpu`pc, cpu`ssp, cpu`sys, cpu.mem.ram
    ensures cpu.S() == old(cpu.S()).Framed(vector)
    ensures Taken(old(cpu.S()), cpu.S(), vector)
  {
    hide Taken, Wrap32, Cell, PutWord, Status.ToWord;
    ghost var m := cpu.S();
    FrameAtPcTaken(m, vector);
    hide Machine.PushSsp;
    cpu.SspPush(cpu.pc % 0x1_0000);
    cpu.SspPush(cpu.pc / 0x1_0000);
    cpu.SspPush(cpu.Sr().ToWord());
    cpu.EnterVector(vector);
  }

  method CheckBound(cpu: Cpu, checked: int) returns (o: Outcome<()>)
    requires cpu.Valid()
    modifies cpu, cpu.mem.ram
    ensures Reaches(CheckedAgainst(old(cpu.S()), old(cpu.src), checked), o, cpu.S())
    ensures Safe(old(cpu.S()), cpu.S(), o)
  {
    hide Within, Taken, Signed, Status.ToWord;
    hide Machine.Load, Machine.Framed;
    PlainWithin(cpu.S(), cpu.S());
    var bound :- cpu.SrcRead(Word);
    o := Done(());
    if checked > Signed(Word, bound) || checked < 0 {
      RaiseAtPc(cpu, VECTOR_CHK_INSTRUCTION);
      o := Exception(VECTOR_CHK_INSTRUCTION);
    }
  }

  method Chk(cpu: Cpu, opcode: u16) returns (o: Outcome<()>)
    requires cpu.Valid()
    modifies cpu, cpu.a, cpu.mem.ram
    ensures Reaches(Checked(old(cpu.S()), opcode), o, cpu.S())
    ensures Safe(old(cpu.S()), cpu.S(), o)
  {
    hide Within, Taken, EaReg, EaMode, OpReg, Signed, Truncate, CheckedAgainst;
    hide Machine.Resolve, Machine.Exception;
    ghost var m := cpu.S();
    var _ :- cpu.SrcSet(EaReg(opcode), EaMode(opcode), 2);
    ghost var m1 := cpu.S();
    var checked := Signed(Word, Truncate(Word, cpu.d[OpReg(opcode)]));
    cpu.v, cpu.c, cpu.z, cpu.n := false, false, false, checked < 0;
    ghost var m2 := cpu.S();
    PlainWithin(m1, m2);
    WithinTwice(m, m1, m2);
    o := CheckBound(cpu, checked);
    SafeAfter(m, m2, cpu.S(), o);
  }

  // ---- Bits ----

  /** BTST, BCHG, BCLR and BSET (0 to 3), of a long in a data register or a byte elsewhere. */
  method BitInstruction(cpu: Cpu, opcode: u16, immediate: bool, action: int) returns (o: Outcome<()>)
    requires cpu.Valid()
    modifies cpu, cpu.d, cpu.a, cpu.mem.ram
    ensures Reaches(BitOperated(old(cpu.S()), opcode, immediate, action), o, cpu.S())
    ensures Safe(old(cpu.S()), cpu.S(), o)
  {
    hide Within, Taken, BitChanged, EaMode, OpReg;
    ghost var m := cpu.S();
    PlainWithin(m, m);
    var number: int := cpu.d[OpReg(opcode)];
    if immediate {
      number := cpu.Fetch();
    }
    ghost var m1 := cpu.S();
    if EaMode(opcode) == 0 {
      o := ChangeBit(cpu, opcode, 8, Long, number % 32, action);
    } else {
      o := ChangeBit(cpu, opcode, 1, Byte, number % 8, action);
    }
    SafeAfter(m, m1, cpu.S(), o);
  }

  method ChangeBit(cpu: Cpu, opcode: u16, width: int, sz: Size, number: nat, action: int) returns (o: Outcome<()>)
    requires cpu.Valid()
    modifies cpu, cpu.d, cpu.a, cpu.mem.ram
    ensures Reaches(BitChanged(old(cpu.S()), opcode, width, sz, number, action), o, cpu.S())
    ensures Safe(old(cpu.S()), cpu.S(), o)
  {
    hide Within, Taken, OperandOf, Bitwise, Shifts.RightQuotient, Pow, Machine.Store;
    ghost var m := cpu.S();
    var value :- ReadDestination(cpu, opcode, width, sz);
    ghost var m1 := cpu.S();
    var bit := Odd(Shifts.RightQuotient(value, number));
    cpu.z := !bit;
    ghost var m2 := cpu.S();
    PlainWithin(m1, m2);
    WithinTwice(m, m1, m2);
    if action == 0 {
      return Done(());
    }
    var on := action == 3 || (action == 1 && !bit);
    Shifts.PowBits(sz);
    o := cpu.DstWrite(sz, Bitwise(if on then OR else ANDNOT, value, Pow(2, number), sz.Bits()));
    SafeAfter(m, m2, cpu.S(), o);
  }

  // ---- The status register ----

  lemma LogicCodesSafe(logic: Logic, sr: Status, operand: Status)
    requires logic != ANDNOT
    ensures SameUpperByte(sr.sys, LogicCodes(logic, sr, operand).sys)
  {
    hide SameUpperByte, NoBits, UpperOnes, SystemBits.Combine;
    if logic == AND {
      AndUpperOnes(sr.sys, operand.sys);
      LowByteCleared(sr.sys, operand.sys);
    } else {
      CombineNone(logic, sr.sys);
    }
  }

  lemma LogicStatusSafe(logic: Logic, sr: Status, operand: Status)
    requires sr.Clean()
    ensures LogicStatus(logic, sr, operand).Clean()
  {
    hide SystemBits.Combine, SystemBits.Clean, SystemBits.Filtered;
    CleanKept(logic, sr.sys, if logic == AND then operand.sys else operand.sys.Filtered());
  }

  /** Clearing unimplemented bits. */
  lemma LowByteCleared(b: SystemBits, o: SystemBits)
    ensures SameUpperByte(b, b.(u1 := b.u1 && o.u1, u2 := b.u2 && o.u2, u3 := b.u3 && o.u3))
  {
  }

  method LogicToCcr(cpu: Cpu, logic: Logic, value: u16)
    requires cpu.Valid() && logic != ANDNOT
    modifies cpu`c, cpu`v, cpu`z, cpu`n, cpu`x, cpu`sys
    ensures cpu.S() == old(cpu.S()).(sr := LogicCodes(logic, old(cpu.Sr()), FromWord(value)))
    ensures Within(old(cpu.S()), cpu.S())
  {
    hide LogicCodes, FromWord, SameUpperByte;
    LogicCodesSafe(logic, cpu.Sr(), FromWord(value));
    SetStatus(cpu, LogicCodes(logic, cpu.Sr(), FromWord(value)));
  }

  method LogicToSr(cpu: Cpu, logic: Logic, value: u16) returns (o: Outcome<()>)
    requires cpu.Valid()
    modifies cpu, cpu.mem.ram
    ensures SafeStep(old(cpu.S()), cpu.S(), o, false)
    ensures o.Done? <==> old(cpu.S()).sr.sys.s
    ensures !o.Undefined?
    ensures o.Done? ==> cpu.S() == old(cpu.S()).(sr := LogicStatus(logic, old(cpu.Sr()), FromWord(value)))
    ensures o.Exception? ==> cpu.S() == old(cpu.S()).Exception(VECTOR_PRIVILEGE_VIOLATION)
  {
    hide LogicStatus, FromWord, Taken, SystemBits.Clean;
    hide Machine.Exception;
    if cpu.Sr().Clean() { LogicStatusSafe(logic, cpu.Sr(), FromWord(value)); }
    if cpu.sys.s {
      SetStatus(cpu, LogicStatus(logic, cpu.Sr(), FromWord(value)));
      o := Done(());
    } else {
      o := cpu.Raise(VECTOR_PRIVILEGE_VIOLATION);
    }
  }

  /** After an unprivileged beginning, a safe step is safe from before it. */
  lemma StepAfter(m: Machine, m': Machine, m'': Machine, o: Outcome<()>, usp: bool)
    requires Within(m, m') && SafeStep(m', m'', o, usp)
    ensures SafeStep(m, m'', o, usp)
  {
    hide Wrap32, Even, LongAt, SameUpperByte, SystemBits.Clean, Status.Entered;
    if o.Exception? {
      SafeAfter(m, m', m'', o);
    } else if o.Done? && !m.sr.sys.s {
      WithinTwice(m, m', m'');
    }
  }

  /** ANDI, ORI and EORI. */
  method LogicImmediate(cpu: Cpu, opcode: u16, sz: Size, logic: Logic) returns (o: Outcome<()>)
    requires cpu.Valid() && logic != ANDNOT
    modifies cpu, cpu.d, cpu.a, cpu.mem.ram
    ensures SafeStep(old(cpu.S()), cpu.S(), o, false)
    ensures Reaches(LogicWithImmediate(old(cpu.S()), opcode, sz, logic), o, cpu.S())
  {
    hide Within, Taken, EaReg, EaMode, Immediately, ToDestination, LogicStatus, LogicCodes, FromWord;
    hide Machine.Exception;
    ghost var m := cpu.S();
    var value := FetchImmediate(cpu, sz);
    ghost var m1 := cpu.S();
    SameModeAfterImmediate(m, sz);
    if NamesStatus(opcode, sz) {
      if sz == Byte {
        LogicToCcr(cpu, logic, value);
        WithinTwice(m, m1, cpu.S());
        o := Done(());
        SafeIsSafeStep(m, cpu.S(), o, false);
      } else {
        o := LogicToSr(cpu, logic, value);
        StepAfter(m, m1, cpu.S(), o, false);
      }
      return;
    }
    o := OperateOnDestination(cpu, opcode, sz, Logical(logic), value);
    SafeAfter(m, m1, cpu.S(), o);
    SafeIsSafeStep(m, cpu.S(), o, false);
  }

  lemma SameModeAfterImmediate(m: Machine, sz: Size)
    ensures Immediately(m, sz).0.sr == m.sr
  {
    hide Wrap32, WordAt;
  }

  method MoveToCcr(cpu: Cpu, opcode: u16) returns (o: Outcome<()>)
    requires cpu.Valid()
    modifies cpu, cpu.d, cpu.a, cpu.mem.ram
    ensures Reaches(CodesMoved(old(cpu.S()), opcode), o, cpu.S())
    ensures Safe(old(cpu.S()), cpu.S(), o)
  {
    hide Within, Taken, OperandOf, FromWord;
    ghost var m := cpu.S();
    var value :- ReadFrom(cpu, opcode, Word);
    ghost var m1 := cpu.S();
    SetCodes(cpu, FromWord(value));
    PlainWithin(m1, cpu.S());
    WithinTwice(m, m1, cpu.S());
    o := Done(());
  }

  /** A privileged change of the status register after an unprivileged beginning. */
  lemma StatusReplaced(m: Machine, m1: Machine, m2: Machine)
    requires m.sr.sys.s && Within(m, m1) && m2 == m1.(sr := m2.sr) && m2.sr.Clean()
    ensures SafeStep(m, m2, Done(()), false)
  {
    hide Even, SameUpperByte;
  }

  method MoveToSr(cpu: Cpu, opcode: u16) returns (o: Outcome<()>)
    requires cpu.Valid()
    modifies cpu, cpu.d, cpu.a, cpu.mem.ram
    ensures Reaches(StatusMoved(old(cpu.S()), opcode), o, cpu.S())
    ensures SafeStep(old(cpu.S()), cpu.S(), o, false)
  {
    hide Within, Taken, OperandOf, FromWord, Status.Filtered;
    hide Machine.Exception;
    ghost var m := cpu.S();
    if !cpu.sys.s {
      o := cpu.Raise(VECTOR_PRIVILEGE_VIOLATION);
      return;
    }
    var value := ReadFrom(cpu, opcode, Word);
    if value.IsFailure() {
      o := value.PropagateFailure();
      SafeIsSafeStep(m, cpu.S(), o, false);
      return;
    }
    ghost var m1 := cpu.S();
    SetStatus(cpu, FromWord(value.value).Filtered());
    StatusReplaced(m, m1, cpu.S());
    o := Done(());
  }

  method MoveFromSr(cpu: Cpu, opcode: u16) returns (o: Outcome<()>)
    requires cpu.Valid()
    modifies cpu, cpu.d, cpu.a, cpu.mem.ram
    ensures Reaches(StatusRead(old(cpu.S()), opcode), o, cpu.S())
    ensures Safe(old(cpu.S()), cpu.S(), o)
  {
    hide Within, Taken, OperandOf, Status.ToWord, Machine.Store;
    ghost var m := cpu.S();
    var _ :- ReadDestination(cpu, opcode, 2, Word);
    ghost var m1 := cpu.S();
    o := cpu.DstWrite(Word, cpu.Sr().ToWord());
    SafeAfter(m, m1, cpu.S(), o);
  }

  /** The one instruction that writes the user stack pointer from supervisor mode. */
  method MoveToUsp(cpu: Cpu, opcode: u16) returns (o: Outcome<()>)
    requires cpu.Valid()
    modifies cpu, cpu.d, cpu.a, cpu.mem.ram
    ensures !o.Undefined? && cpu.S() == UserStackSet(old(cpu.S()), opcode)
    ensures SafeStep(old(cpu.S()), cpu.S(), o, true)
  {
    hide Taken, EaReg;
    hide Machine.Exception;
    if !cpu.sys.s {
      o := cpu.Raise(VECTOR_PRIVILEGE_VIOLATION);
      return;
    }
    var value := cpu.AddressRegValue(EaReg(opcode));
    cpu.a[SP] := value;
    assert cpu.a[..] == old(cpu.a[..])[SP := value];
    o := Done(());
  }

  method MoveFromUsp(cpu: Cpu, opcode: u16) returns (o: Outcome<()>)
    requires cpu.Valid()
    modifies cpu, cpu.d, cpu.a, cpu.mem.ram
    ensures !o.Undefined? && cpu.S() == UserStackRead(old(cpu.S()), opcode)
    ensures SafeStep(old(cpu.S()), cpu.S(), o, false)
  {
    hide Within, Taken, EaReg;
    hide Machine.Exception, Machine.SetA;
    ghost var m := cpu.S();
    if !cpu.sys.s {
      o := cpu.Raise(VECTOR_PRIVILEGE_VIOLATION);
      return;
    }
    cpu.AddressRegSetLong(EaReg(opcode), cpu.a[SP]);
    o := Done(());
    SafeIsSafeStep(m, cpu.S(), o, false);
  }

  /** STOP loads the status register and stays at itself. */
  method Stop(cpu: Cpu) returns (o: Outcome<()>)
    requires cpu.Valid()
    modifies cpu, cpu.d, cpu.a, cpu.mem.ram
    ensures !o.Undefined? && cpu.S() == Stopped(old(cpu.S()))
    ensures SafeStep(old(cpu.S()), cpu.S(), o, false)
  {
    hide Within, Taken, FromWord, Status.Filtered, Wrap32, Even;
    hide Machine.Exception, Machine.Fetch;
    ghost var m := cpu.S();
    if !cpu.sys.s {
      o := cpu.Raise(VECTOR_PRIVILEGE_VIOLATION);
      return;
    }
    var value := cpu.Fetch();
    ghost var m1 := cpu.S();
    SetStatus(cpu, FromWord(value).Filtered());
    ghost var m2 := cpu.S();
    StatusReplaced(m, m1, m2);
    NextWord(cpu.pc);
    cpu.pc := Wrap32(cpu.pc - 4);
    o := Done(());
  }

  method Reset(cpu: Cpu) returns (o: Outcome<()>)
    requires cpu.Valid()
    modifies cpu, cpu.d, cpu.a, cpu.mem.ram
    ensures !o.Undefined? && cpu.S() == ResetBy(old(cpu.S()))
    ensures SafeStep(old(cpu.S()), cpu.S(), o, false)
  {
    hide Taken;
    hide Machine.Exception;
    o := Done(());
    if !cpu.sys.s {
      o := cpu.Raise(VECTOR_PRIVILEGE_VIOLATION);
    }
  }
}
