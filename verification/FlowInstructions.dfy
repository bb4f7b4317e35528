/** Branches, calls, returns, traps and stack frames in place. */
module FlowInstructions {
  import opened Words
  import opened StatusRegister
  import opened Memories
  import opened Machines
  import opened Safety
  import opened Opcodes
  import opened Operations
  import opened Cpus
  import Conditions
  import ControlFlow

  // ---- Conditions ----

  // The program has three tables of flag tests, one each for Bcc, DBcc and Scc.

  /** Bcc, where codes 0 and 1 are BRA and BSR, which always branch. */
  method TestBranch(cpu: Cpu, cond: Conditions.Condition) returns (result: bool)
    ensures result == (cond <= 1 || Conditions.Holds(cond, cpu.Sr()))
  {
    var c, v, z, n := cpu.c, cpu.v, cpu.z, cpu.n;
    match cond {
      case 0 => result := true;
      case 1 => result := true;
      case 2 => result := !c && !z;
      case 3 => result := c || z;
      case 4 => result := !c;
      case 5 => result := c;
      case 6 => result := !z;
      case 7 => result := z;
      case 8 => result := !v;
      case 9 => result := v;
      case 10 => result := !n;
      case 11 => result := n;
      case 12 => result := (n && v) || (!n && !v);
      case 13 => result := (!n && v) || (n && !v);
      case 14 => result := (!n && !v && !z) || (n && v && !z);
      case _ => result := z || (n && !v) || (!n && v);
    }
  }

  /** DBcc. */
  method TestLoop(cpu: Cpu, cond: Conditions.Condition) returns (result: bool)
    ensures result == (Conditions.Holds(cond, cpu.Sr()))
  {
    var c, v, z, n := cpu.c, cpu.v, cpu.z, cpu.n;
    match cond {
      case 0 => result := true;
      case 1 => result := false;
      case 2 => result := !c && !z;
      case 3 => result := c || z;
      case 4 => result := !c;
      case 5 => result := c;
      case 6 => result := !z;
      case 7 => result := z;
      case 8 => result := !v;
      case 9 => result := v;
      case 10 => result := !n;
      case 11 => result := n;
      case 12 => result := (n && v) || (!n && !v);
      case 13 => result := (!n && v) || (n && !v);
      case 14 => result := (!n && !v && !z) || (n && v && !z);
      case _ => result := z || (n && !v) || (!n && v);
    }
  }

  /** Scc. */
  method TestSet(cpu: Cpu, cond: Conditions.Condition) returns (result: bool)
    ensures result == (Conditions.Holds(cond, cpu.Sr()))
  {
    var c, v, z, n := cpu.c, cpu.v, cpu.z, cpu.n;
    match cond {
      case 0 => result := true;
      case 1 => result := false;
      case 2 => result := !c && !z;
      case 3 => result := c || z;
      case 4 => result := !c;
      case 5 => result := c;
      case 6 => result := !z;
      case 7 => result := z;
      case 8 => result := !v;
      case 9 => result := v;
      case 10 => result := !n;
      case 11 => result := n;
      case 12 => result := (n && v) || (!n && !v);
      case 13 => result := (!n && v) || (n && !v);
      case 14 => result := (!n && !v && !z) || (n && v && !z);
      case _ => result := z || (n && !v) || (!n && v);
    }
  }

  // ---- Jumps ----

  /** Continues at an address, or takes an address error there. */
  method JumpTo(cpu: Cpu, target: u32) returns (o: Outcome<()>)
    requires cpu.Valid()
    modifies cpu`pc, cpu`ssp, cpu`sys, cpu.mem.ram
    ensures !o.Undefined? && cpu.S() == ControlFlow.Jmp(old(cpu.S()), target)
    ensures o.Done? <==> Even(target)
    ensures Safe(old(cpu.S()), cpu.S(), o)
  {
    hide Taken;
    hide Machine.AddressError;
    if target % 2 != 0 {
      o := cpu.AddressFault(target, true, true);
      return;
    }
    cpu.pc := target;
    o := Done(());
  }

  function Jump(m: Machine, opcode: u16, call: bool): Machine {
    match m.Resolve(EaReg(opcode), EaMode(opcode), 4)
    case At(m1, at) => if call then ControlFlow.Jsr(m1, at.n) else ControlFlow.Jmp(m1, at.n)
    case IllegalMode => m.Exception(VECTOR_ILLEGAL_INSTRUCTION)
  }

  method Jmp(cpu: Cpu, opcode: u16) returns (o: Outcome<()>)
    requires cpu.Valid()
    modifies cpu, cpu.a, cpu.mem.ram
    ensures !o.Undefined? && cpu.S() == Jump(old(cpu.S()), opcode, false)
    ensures Safe(old(cpu.S()), cpu.S(), o)
  {
    hide Within, Taken, EaReg, EaMode, ControlFlow.Jmp;
    hide Machine.Resolve, Machine.Exception;
    ghost var m := cpu.S();
    var _ :- cpu.SrcSet(EaReg(opcode), EaMode(opcode), 4);
    ghost var m1 := cpu.S();
    o := JumpTo(cpu, cpu.src.n);
    SafeAfter(m, m1, cpu.S(), o);
  }

  /** Pushes the return address. */
  method PushReturn(cpu: Cpu, value: u32)
    requires cpu.Valid()
    modifies cpu`ssp, cpu.a, cpu.mem.ram
    ensures cpu.S() == old(cpu.S()).PushLong(value)
    ensures Within(old(cpu.S()), cpu.S())
  {
    hide Within;
    hide Machine.Push;
    ghost var m := cpu.S();
    cpu.StackPush(value % 0x1_0000);
    ghost var m1 := cpu.S();
    cpu.StackPush(value / 0x1_0000);
    WithinTwice(m, m1, cpu.S());
  }

  method Jsr(cpu: Cpu, opcode: u16) returns (o: Outcome<()>)
    requires cpu.Valid()
    modifies cpu, cpu.a, cpu.mem.ram
    ensures !o.Undefined? && cpu.S() == Jump(old(cpu.S()), opcode, true)
    ensures Safe(old(cpu.S()), cpu.S(), o)
  {
    hide Within, Taken, EaReg, EaMode;
    hide Machine.Resolve, Machine.Exception, Machine.PushLong, Machine.AddressError;
    ghost var m := cpu.S();
    var _ :- cpu.SrcSet(EaReg(opcode), EaMode(opcode), 4);
    ghost var m1 := cpu.S();
    if cpu.src.n % 2 != 0 {
      o := cpu.AddressFault(cpu.src.n, true, true);
      SafeAfter(m, m1, cpu.S(), o);
      return;
    }
    PushReturn(cpu, cpu.pc);
    ghost var m2 := cpu.S();
    WithinTwice(m, m1, m2);
    cpu.pc := cpu.src.n;
    PcWithin(m2, cpu.S());
    WithinTwice(m, m2, cpu.S());
    o := Done(());
  }

  lemma PcWithin(m: Machine, m': Machine)
    requires m' == m.(pc := m'.pc) && Even(m'.pc)
    ensures Within(m, m')
  {
    hide Even, SameUpperByte;
  }

  // ---- Returns ----

  method PopLong(cpu: Cpu) returns (value: u32)
    requires cpu.Valid()
    modifies cpu`ssp, cpu.a
    ensures value == old(cpu.S()).TopLong() && cpu.S() == old(cpu.S()).DroppedLong()
    ensures Within(old(cpu.S()), cpu.S())
  {
    hide Within;
    hide Machine.Top, Machine.Dropped;
    ghost var m := cpu.S();
    var high := cpu.StackPop();
    ghost var m1 := cpu.S();
    var low := cpu.StackPop();
    WithinTwice(m, m1, cpu.S());
    value := Join16(high, low);
  }

  /** Continues at a popped address; an odd one is reported with the pc of the return instruction. */
  method Return(cpu: Cpu, target: u32, from: u32) returns (o: Outcome<()>)
    requires cpu.Valid()
    modifies cpu`pc, cpu`ssp, cpu`sys, cpu.mem.ram
    ensures !o.Undefined? && cpu.S() == ControlFlow.ReturnTo(old(cpu.S()), target, from)
    ensures Safe(old(cpu.S()), cpu.S(), o)
  {
    hide Taken;
    hide Machine.AddressError;
    ghost var m := cpu.S();
    cpu.pc := target;
    if cpu.pc % 2 != 0 {
      var badAddress := cpu.pc;
      cpu.pc := from;
      o := cpu.AddressFault(badAddress, true, true);
      TakenFromAnyPc(m, m.(pc := from), cpu.S(), VECTOR_ADDRESS_ERROR);
      return;
    }
    o := Done(());
  }

  method Rts(cpu: Cpu) returns (o: Outcome<()>)
    requires cpu.Valid()
    modifies cpu, cpu.a, cpu.mem.ram
    ensures !o.Undefined? && cpu.S() == ControlFlow.Rts(old(cpu.S()))
    ensures Safe(old(cpu.S()), cpu.S(), o)
  {
    hide Within, Taken, ControlFlow.ReturnTo;
    hide Machine.TopLong, Machine.DroppedLong;
    ghost var m := cpu.S();
    var from := cpu.pc;
    var target := PopLong(cpu);
    ghost var m1 := cpu.S();
    o := Return(cpu, target, from);
    SafeAfter(m, m1, cpu.S(), o);
  }

  /** Replaces the condition codes and keeps the system bits. */
  method SetCodes(cpu: Cpu, sr: Status)
    modifies cpu`c, cpu`v, cpu`z, cpu`n, cpu`x
    ensures cpu.Sr() == old(cpu.Sr()).WithCodesOf(sr)
  {
    cpu.c, cpu.v, cpu.z, cpu.n, cpu.x := sr.c, sr.v, sr.z, sr.n, sr.x;
  }

  method Rtr(cpu: Cpu) returns (o: Outcome<()>)
    requires cpu.Valid()
    modifies cpu, cpu.a, cpu.mem.ram
    ensures !o.Undefined? && cpu.S() == ControlFlow.Rtr(old(cpu.S()))
    ensures Safe(old(cpu.S()), cpu.S(), o)
  {
    hide Within, Taken, FromWord, ControlFlow.ReturnTo;
    hide Machine.Top, Machine.Dropped, Machine.TopLong, Machine.DroppedLong;
    ghost var m := cpu.S();
    var from := cpu.pc;
    var codes := cpu.StackPop();
    ghost var m1 := cpu.S();
    SetCodes(cpu, FromWord(codes));
    ghost var m2 := cpu.S();
    PlainWithin(m1, m2);
    WithinTwice(m, m1, m2);
    var target := PopLong(cpu);
    ghost var m3 := cpu.S();
    WithinTwice(m, m2, m3);
    o := Return(cpu, target, from);
    SafeAfter(m, m3, cpu.S(), o);
  }

  /** Replaces the whole status register. */
  method SetStatus(cpu: Cpu, sr: Status)
    modifies cpu`c, cpu`v, cpu`z, cpu`n, cpu`x, cpu`sys
    ensures cpu.Sr() == sr
  {
    cpu.c, cpu.v, cpu.z, cpu.n, cpu.x, cpu.sys := sr.c, sr.v, sr.z, sr.n, sr.x, sr.sys;
  }

  /** RTE is privileged; it leaves with a filtered status register, in whichever mode that says. */
  method Rte(cpu: Cpu) returns (o: Outcome<()>)
    requires cpu.Valid()
    modifies cpu, cpu.a, cpu.mem.ram
    ensures !o.Undefined? && cpu.S() == ControlFlow.Rte(old(cpu.S()))
    ensures SafeStep(old(cpu.S()), cpu.S(), o, false)
  {
    hide Taken, FromWord, Status.Filtered, ControlFlow.ReturnTo, Even, Wrap32, LongAt;
    hide Machine.Top, Machine.Dropped, Machine.TopLong, Machine.DroppedLong, Machine.Exception;
    ghost var m := cpu.S();
    if !cpu.sys.s {
      o := cpu.Raise(VECTOR_PRIVILEGE_VIOLATION);
      return;
    }
    var from := cpu.pc;
    var status := cpu.StackPop();
    ghost var m1 := cpu.S();
    var target := PopLong(cpu);
    ghost var m2 := cpu.S();
    WithinTwice(m, m1, m2);
    SetStatus(cpu, FromWord(status).Filtered());
    ghost var m3 := cpu.S();
    o := Return(cpu, target, from);
    ReturnFromSupervisor(m, m2, m3, cpu.S(), o);
  }

  lemma ReturnFromSupervisor(m: Machine, m2: Machine, m3: Machine, m4: Machine, o: Outcome<()>)
    requires m.sr.sys.s && Within(m, m2) && m3 == m2.(sr := m3.sr) && m3.sr.Clean() && Safe(m3, m4, o)
    requires m4.a == m3.a
    ensures SafeStep(m, m4, o, false)
  {
    hide Wrap32, Even, LongAt, SameUpperByte;
  }

  // ---- Traps ----

  /** TRAP, unless it is number 15 and a hook takes it. */
  function TrapOf(m: Machine, opcode: u16, hooked: bool): Expected {
    if opcode % 0x10 == 15 && hooked then Unspecified else Becomes(ControlFlow.Trap(m, opcode % 0x10))
  }

  /** The hook may change the data registers and memory in any way. */
  method Trap(cpu: Cpu, opcode: u16) returns (o: Outcome<()>)
    requires cpu.Valid()
    modifies cpu, cpu.d, cpu.mem.ram
    ensures Reaches(TrapOf(old(cpu.S()), opcode, cpu.hooked), o, cpu.S())
    ensures Safe(old(cpu.S()), cpu.S(), o)
  {
    hide Taken, Within;
    hide Machine.Exception;
    var number := opcode % 0x10;
    ghost var m := cpu.S();
    if number == 15 && cpu.hooked {
      modify cpu.d, cpu.mem.ram;
      PlainWithin(m, cpu.S());
      return Done(());
    }
    cpu.oldPc := cpu.pc;
    ghost var m1 := cpu.S();
    o := cpu.Raise((number + 32) * 4);
    OldPcIrrelevant(m, m1, cpu.S(), (number + 32) * 4);
  }

  lemma OldPcIrrelevant(m: Machine, m1: Machine, m2: Machine, vector: int)
    requires m1 == m.(oldPc := m1.oldPc) && Taken(m1, m2, vector)
    ensures Taken(m, m2, vector)
  {
    hide Wrap32, LongAt, SameUpperByte;
  }

  function TrapOnOverflow(m: Machine): Machine {
    if m.sr.v then ControlFlow.TrapThrough(m, VECTOR_TRAPV_INSTRUCTION) else m
  }

  method Trapv(cpu: Cpu) returns (o: Outcome<()>)
    requires cpu.Valid()
    modifies cpu, cpu.mem.ram
    ensures !o.Undefined? && cpu.S() == TrapOnOverflow(old(cpu.S()))
    ensures Safe(old(cpu.S()), cpu.S(), o)
  {
    hide Taken;
    hide Machine.Exception;
    ghost var m := cpu.S();
    if cpu.v {
      cpu.oldPc := cpu.pc;
      ghost var m1 := cpu.S();
      o := cpu.Raise(VECTOR_TRAPV_INSTRUCTION);
      OldPcIrrelevant(m, m1, cpu.S(), VECTOR_TRAPV_INSTRUCTION);
      return;
    }
    o := Done(());
  }

  // ---- Stack frames ----

  method Link(cpu: Cpu, opcode: u16) returns (o: Outcome<()>)
    requires cpu.Valid()
    modifies cpu, cpu.a, cpu.mem.ram
    ensures o.Done? && cpu.S() == ControlFlow.Link(old(cpu.S()), EaReg(opcode))
    ensures Safe(old(cpu.S()), cpu.S(), o)
  {
    hide Within, EaReg, Signed, Wrap32;
    hide Machine.PushLong, Machine.A, Machine.SetA, Machine.Fetch;
    var reg := EaReg(opcode);
    ghost var m := cpu.S();
    PushReturn(cpu, cpu.AddressRegValue(reg));
    ghost var m1 := cpu.S();
    cpu.AddressRegSetLong(reg, cpu.AddressRegValue(SP));
    ghost var m2 := cpu.S();
    var word := cpu.Fetch();
    ghost var m3 := cpu.S();
    cpu.AddressRegSetLong(SP, Wrap32(cpu.AddressRegValue(SP) + Signed(Word, word)));
    WithinTwice(m, m1, m2);
    WithinTwice(m, m2, m3);
    WithinTwice(m, m3, cpu.S());
    o := Done(());
  }

  method Unlk(cpu: Cpu, opcode: u16) returns (o: Outcome<()>)
    requires cpu.Valid()
    modifies cpu, cpu.a, cpu.mem.ram
    ensures !o.Undefined? && cpu.S() == ControlFlow.Unlk(old(cpu.S()), EaReg(opcode))
    ensures Safe(old(cpu.S()), cpu.S(), o)
  {
    hide Within, Taken, EaReg;
    hide Machine.TopLong, Machine.DroppedLong, Machine.A, Machine.SetA, Machine.AddressError;
    var reg := EaReg(opcode);
    var frame := cpu.AddressRegValue(reg);
    if frame % 2 != 0 {
      o := cpu.AddressFault(frame, true, false);
      return;
    }
    ghost var m := cpu.S();
    cpu.AddressRegSetLong(SP, frame);
    ghost var m1 := cpu.S();
    var saved := PopLong(cpu);
    ghost var m2 := cpu.S();
    cpu.AddressRegSetLong(reg, saved);
    WithinTwice(m, m1, m2);
    WithinTwice(m, m2, cpu.S());
    o := Done(());
  }

  // ---- Branches ----

  method Branch(cpu: Cpu, opcode: u16) returns (o: Outcome<()>)
    requires cpu.Valid()
    modifies cpu, cpu.a, cpu.mem.ram
    ensures !o.Undefined? && cpu.S() == ControlFlow.Branch(old(cpu.S()), opcode)
    ensures Safe(old(cpu.S()), cpu.S(), o)
  {
    hide Within, Taken, Wrap32, CondField, Conditions.Holds, Signed;
    hide Machine.AddressError, Machine.PushLong, Machine.Fetch;
    ghost var m := cpu.S();
    var short := Signed(Byte, opcode % 0x100);
    var cond: Conditions.Condition := CondField(opcode);
    var word := short == 0;
    var address: u32 := Wrap32(cpu.pc + short);
    if word {
      var next := cpu.Fetch();
      address := Wrap32(cpu.pc + (Signed(Word, next) - 2));
    }
    ghost var m1 := cpu.S();
    PlainWithin(m, m);
    var branch := TestBranch(cpu, cond);
    if cond == 1 {
      PushReturn(cpu, cpu.pc);
    }
    ghost var m2 := cpu.S();
    PlainWithin(m1, m1);
    WithinTwice(m, m1, m2);
    o := Done(());
    if branch {
      o := TakeBranch(cpu, address, cond == 1, word);
      SafeAfter(m, m2, cpu.S(), o);
    }
  }

  /** An odd target of BSR is reported from there, other odd targets from inside the instruction. */
  method TakeBranch(cpu: Cpu, address: u32, call: bool, word: bool) returns (o: Outcome<()>)
    requires cpu.Valid()
    modifies cpu`pc, cpu`ssp, cpu`sys, cpu.mem.ram
    ensures !o.Undefined?
    ensures cpu.S() ==
      var m := old(cpu.S());
      if Even(address) then m.(pc := address)
      else if call then m.(pc := address).AddressError(address, true, true)
      else (if word then m.(pc := Wrap32(m.pc - 2)) else m).AddressError(address, true, true)
    ensures Safe(old(cpu.S()), cpu.S(), o)
  {
    hide Taken, Wrap32;
    hide Machine.AddressError;
    ghost var m := cpu.S();
    if address % 2 != 0 {
      if call {
        cpu.pc := address;
      } else if word {
        cpu.pc := Wrap32(cpu.pc - 2);
      }
      ghost var m1 := cpu.S();
      o := cpu.AddressFault(address, true, true);
      TakenFromAnyPc(m, m1, cpu.S(), VECTOR_ADDRESS_ERROR);
    } else {
      cpu.pc := address;
      o := Done(());
    }
  }

  method Dbcc(cpu: Cpu, opcode: u16) returns (o: Outcome<()>)
    requires cpu.Valid()
    modifies cpu, cpu.d, cpu.mem.ram
    ensures !o.Undefined? && cpu.S() == ControlFlow.Dbcc(old(cpu.S()), opcode)
    ensures Safe(old(cpu.S()), cpu.S(), o)
  {
    hide Within, Taken, Wrap32, CondField, EaReg, Conditions.Holds, Signed, Merge, ControlFlow.LowWord;
    hide Machine.AddressError, Machine.Fetch;
    ghost var m := cpu.S();
    var reg := EaReg(opcode);
    var word := cpu.Fetch();
    var address := Wrap32(cpu.pc + (Signed(Word, word) - 2));
    ghost var m1 := cpu.S();
    var result := TestLoop(cpu, CondField(opcode));
    o := Done(());
    if !result {
      var counter := cpu.d[reg];
      var value: int := ControlFlow.LowWord(counter);
      value := if value == 0 then 0xFFFF else value - 1;
      MergeBack(counter, value);
      cpu.SetDataReg(reg, Merge(Word, counter, value));
      ghost var m2 := cpu.S();
      PlainWithin(m1, m2);
      WithinTwice(m, m1, m2);
      if ControlFlow.LowWord(cpu.d[reg]) != 0xFFFF {
        if address % 2 != 0 {
          value := value + 1;
          cpu.SetDataReg(reg, Merge(Word, cpu.d[reg], value));
          assert cpu.d[..] == m.d;
          cpu.pc := Wrap32(cpu.pc - 2);
          ghost var m3 := cpu.S();
          o := cpu.AddressFault(address, true, true);
          TakenFromAnyPc(m1, m3, cpu.S(), VECTOR_ADDRESS_ERROR);
          SafeAfter(m, m1, cpu.S(), o);
        } else {
          cpu.pc := address;
          PcWithin(m2, cpu.S());
          WithinTwice(m, m2, cpu.S());
        }
      }
    }
  }

  lemma MergeBack(counter: u32, value: u16)
    ensures ControlFlow.LowWord(Merge(Word, counter, value)) == value
    ensures Merge(Word, Merge(Word, counter, value), ControlFlow.LowWord(counter)) == counter
  {
  }

  /** A byte of ones or zeros. */
  function SetOnCondition(m: Machine, opcode: u16): Expected {
    match m.Resolve(EaReg(opcode), EaMode(opcode), 1)
    case At(m1, at) => After(m1.Store(at, Byte, if Conditions.Holds(CondField(opcode), m.sr) then 0xFF else 0))
    case IllegalMode => Becomes(m.Exception(VECTOR_ILLEGAL_INSTRUCTION))
  }

  method Scc(cpu: Cpu, opcode: u16) returns (o: Outcome<()>)
    requires cpu.Valid()
    modifies cpu, cpu.d, cpu.a, cpu.mem.ram
    ensures Reaches(SetOnCondition(old(cpu.S()), opcode), o, cpu.S())
    ensures Safe(old(cpu.S()), cpu.S(), o)
  {
    hide Within, Taken, CondField, EaReg, EaMode, Conditions.Holds;
    hide Machine.Store, Machine.Exception, Machine.Resolve;
    ghost var m := cpu.S();
    var _ :- cpu.DstSet(EaReg(opcode), EaMode(opcode), 1);
    ghost var m1 := cpu.S();
    ResolveKeepsStatus(m, EaReg(opcode), EaMode(opcode), 1);
    var result := TestSet(cpu, CondField(opcode));
    o := cpu.DstWrite(Byte, if result then 0xFF else 0);
    SafeAfter(m, m1, cpu.S(), o);
  }

  lemma ResolveKeepsStatus(m: Machine, reg: Reg, mode: Reg, width: int)
    ensures m.Resolve(reg, mode, width).At? ==> m.Resolve(reg, mode, width).m.sr == m.sr
  {
    hide Wrap32, Even, Cell, Signed, SignExtend, Truncate, WordAt;
    hide Machine.Index, Machine.IndexedFrom, Machine.A;
  }
}
