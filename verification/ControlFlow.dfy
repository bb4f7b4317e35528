/** Calls, returns, stack frames, traps and branches as changes of the whole machine. */
module ControlFlow {
  import opened Words
  import opened StatusRegister
  import opened Machines
  import opened Opcodes
  import Conditions

  /** JSR and BSR to an even target: the return address is the pc after the instruction. */
  function CallTo(m: Machine, target: u32): Machine {
    m.PushLong(m.pc).(pc := target)
  }

  /** An odd target of JSR is an address error, taken before anything is pushed. */
  function Jsr(m: Machine, target: u32): Machine {
    if Even(target) then CallTo(m, target) else m.AddressError(target, true, true)
  }

  function Jmp(m: Machine, target: u32): Machine {
    if Even(target) then m.(pc := target) else m.AddressError(target, true, true)
  }

  /** A return to an odd address is an address error reported at the return instruction. */
  function ReturnTo(m: Machine, target: u32, from: u32): Machine {
    if Even(target) then m.(pc := target) else m.(pc := from).AddressError(target, true, true)
  }

  function Rts(m: Machine): Machine {
    ReturnTo(m.DroppedLong(), m.TopLong(), m.pc)
  }

  function Rtr(m: Machine): Machine {
    var m1 := m.Dropped().(sr := m.sr.WithCodesOf(FromWord(m.Top())));
    ReturnTo(m1.DroppedLong(), m1.TopLong(), m.pc)
  }

  /** The status register is replaced only after everything has been popped from the supervisor stack. */
  function Rte(m: Machine): Machine {
    if !m.sr.sys.s then m.Exception(VECTOR_PRIVILEGE_VIOLATION)
    else
      var m1 := m.Dropped();
      var m2 := m1.DroppedLong().(sr := FromWord(m.Top()).Filtered());
      ReturnTo(m2, m1.TopLong(), m.pc)
  }

  /** The return address of a trap is the pc after the instruction. */
  function TrapThrough(m: Machine, vector: int): Machine {
    m.(oldPc := m.pc).Exception(vector)
  }

  function Trap(m: Machine, number: nat): Machine {
    TrapThrough(m, (number + 32) * 4)
  }

  /** The frame pointer is pushed and loaded before the displacement is fetched. */
  function Link(m: Machine, reg: Reg): Machine {
    var m1 := m.PushLong(m.A(reg));
    var m2 := m1.SetA(reg, m1.A(SP)).Fetch();
    m2.SetA(SP, Wrap32(m2.A(SP) + m2.Displacement()))
  }

  function Unlk(m: Machine, reg: Reg): Machine {
    if !Even(m.A(reg)) then m.AddressError(m.A(reg), true, false)
    else
      var m1 := m.SetA(SP, m.A(reg));
      m1.DroppedLong().SetA(reg, m1.TopLong())
  }

  /** Bcc, BRA (condition 0) and BSR (condition 1), with an 8-bit or a 16-bit displacement. */
  function Branch(m: Machine, opcode: u16): Machine {
    var short := Signed(Byte, opcode % 0x100);
    var word := short == 0;
    var m1 := if word then m.Fetch() else m;
    var address := Wrap32(if word then m1.pc + (m1.Displacement() - 2) else m1.pc + short);
    var cond: Conditions.Condition := CondField(opcode);
    var m2 := if cond == 1 then m1.PushLong(m1.pc) else m1;
    if cond > 1 && !Conditions.Holds(cond, m.sr) then m2
    else if Even(address) then m2.(pc := address)
    else if cond == 1 then m2.(pc := address).AddressError(address, true, true)
    else (if word then m2.(pc := Wrap32(m2.pc - 2)) else m2).AddressError(address, true, true)
  }

  /** The low word of a counter register, and the register with another low word. */
  function LowWord(v: u32): (r: u16) {
    v % 0x1_0000
  }

  /** DBcc: unless the condition holds, count down, and branch until the counter has passed zero. An odd
      target is reported with the counter as it was. */
  function Dbcc(m: Machine, opcode: u16): Machine {
    var reg := EaReg(opcode);
    var cond: Conditions.Condition := CondField(opcode);
    var m1 := m.Fetch();
    var address := Wrap32(m1.pc + (m1.Displacement() - 2));
    if Conditions.Holds(cond, m.sr) then m1
    else
      var count := LowWord(m.d[reg]);
      var next := if count == 0 then 0xFFFF else count - 1;
      var counted := m1.SetD(reg, Merge(Word, m.d[reg], next));
      if next == 0xFFFF then counted
      else if Even(address) then counted.(pc := address)
      else m1.(pc := Wrap32(m1.pc - 2)).AddressError(address, true, true)
  }
}
