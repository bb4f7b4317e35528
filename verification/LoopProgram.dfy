/** A loop in memory: one ADDX, SUBX, ABCD or SBCD instruction and a DBF back to it, fetched and executed, adds or
    subtracts numbers of any length, one limb more than the counter says. */
module LoopProgram {
  import opened Words
  import opened Memories
  import opened Machines
  import opened Opcodes
  import opened Operations
  import opened Multiprecision
  import opened Decoding
  import opened ChainProgram
  import ControlFlow
  import CountedLoop

  /** The instruction word of DBF, also known as DBRA, and its displacement back over the instruction before it. */
  function DbfOpcode(reg: Reg): u16 {
    0x51C8 + reg
  }

  const BACK: u16 := 0xFFFC

  lemma DbfFields(reg: Reg)
    ensures var w := DbfOpcode(reg);
      EaReg(w) == reg && EaMode(w) == 1 && SizeField(w) == 3 && CondField(w) == 1 && w / 0x1000 == 5
  {
  }

  lemma DbfDecodes(m: Machine, reg: Reg, hooked: bool)
    ensures Performed(m, DbfOpcode(reg), hooked) == Becomes(ControlFlow.Dbcc(m, DbfOpcode(reg)))
  {
    hide DbfOpcode, EaMode, SizeField, CondField, ControlFlow.Dbcc;
    DbfFields(reg);
  }

  /** The three words of the loop lie at the program counter. */
  predicate LoopCode(m: Machine, op: ExtendedOp, y: Reg, x: Reg, reg: Reg) {
    && Even(m.pc)
    && WordFrom(m.ram, m.pc, 0) == ChainOpcode(op, y, x)
    && WordFrom(m.ram, m.pc, 1) == DbfOpcode(reg)
    && WordFrom(m.ram, m.pc, 2) == BACK
  }

  /** The counter after `i` branches or, once past zero, after the loop. */
  predicate Counted(v: u32, v': u32, i: nat) {
    && ControlFlow.LowWord(v') == (if i <= ControlFlow.LowWord(v) then ControlFlow.LowWord(v) - i else 0xFFFF)
    && Quot(v', 0x1_0000) == Quot(v, 0x1_0000)
  }

  /** After `i` passes: the chain is `i` digits on, and the counter says whether the loop goes on. */
  predicate Passed(m: Machine, p: Machine, op: ExtendedOp, y: Reg, x: Reg, reg: Reg, i: nat) {
    && SameOperands(Chain(m, op, y, x, i), p)
    && (forall r: Reg :: r != reg ==> p.d[r] == m.d[r])
    && Counted(m.d[reg], p.d[reg], i)
    && p.pc == (if i <= ControlFlow.LowWord(m.d[reg]) then m.pc else Wrap32(m.pc + 6))
  }

  // ---- One pass ----

  /** DBF just after its word has been fetched: `g` is at the displacement. */
  lemma DbfBranches(g: Machine, pc: u32, reg: Reg)
    requires Even(pc) && g.pc == Wrap32(pc + 4) && WordAt(g.ram, g.pc) == BACK
    ensures var p := ControlFlow.Dbcc(g, DbfOpcode(reg));
      && SameOperands(g, p)
      && p.pc == (if ControlFlow.LowWord(g.d[reg]) == 0 then Wrap32(pc + 6) else pc)
      && ControlFlow.LowWord(p.d[reg])
         == (if ControlFlow.LowWord(g.d[reg]) == 0 then 0xFFFF else ControlFlow.LowWord(g.d[reg]) - 1)
      && Quot(p.d[reg], 0x1_0000) == Quot(g.d[reg], 0x1_0000)
      && (forall r: Reg :: r != reg ==> p.d[r] == g.d[r])
  {
    hide Wrap32, Even, ControlFlow.LowWord, Quot, WordAt, DbfOpcode, EaReg, CondField, ControlFlow.Dbcc;
    DbfFields(reg);
    WrapStep(pc + 4, 2);
    BackTarget(g.Fetch(), pc);
    CountedLoop.DbccCounts(g, DbfOpcode(reg));
  }

  lemma BackTarget(f: Machine, pc: u32)
    requires f.pc == Wrap32(pc + 6) && f.opcode == BACK
    ensures Wrap32(f.pc + (f.Displacement() - 2)) == pc
  {
    WrapStep(pc + 6, -6);
  }

  /** The count goes down by one, or stays past zero. */
  lemma CountedOnce(v: u32, v': u32, v'': u32, i: nat)
    requires Counted(v, v', i) && i <= ControlFlow.LowWord(v) && Counted(v', v'', 1)
    ensures Counted(v, v'', i + 1)
  {
    hide ControlFlow.LowWord, Quot;
  }

  /** The words of the loop after any part of the chain. */
  lemma LoopKept(m: Machine, ram: Ram, op: ExtendedOp, y: Reg, x: Reg, reg: Reg, len: nat)
    requires LoopCode(m, op, y, x, reg) && Apart(m.pc, m.A(x), 3, len) && AgreeOutside(m.ram, ram, m.A(x), len)
    ensures WordAt(ram, m.pc) == ChainOpcode(op, y, x)
    ensures WordAt(ram, Wrap32(m.pc + 2)) == DbfOpcode(reg) && WordAt(ram, Wrap32(m.pc + 4)) == BACK
  {
    hide Even, Wrap32, WordAt, Apart, AgreeOutside, ChainOpcode, DbfOpcode;
    hide Machine.A;
    WordKept(m.pc, m.ram, ram, m.A(x), 3, len, 0);
    WordKept(m.pc, m.ram, ram, m.A(x), 3, len, 1);
    WordKept(m.pc, m.ram, ram, m.A(x), 3, len, 2);
  }

  /** The two instructions of one pass. */
  lemma OnePass(m: Machine, p: Machine, op: ExtendedOp, y: Reg, x: Reg, reg: Reg, i: nat, hooked: bool)
    requires var n := ControlFlow.LowWord(m.d[reg]) + 1;
      && i < n && Aligned(m, op, y, x) && Operands(m, op, y, x, n)
      && LoopCode(m, op, y, x, reg) && Apart(m.pc, m.A(x), 3, Span(op.Width(), n))
    requires Passed(m, p, op, y, x, reg, i)
    ensures Executed(p, hooked).Becomes? && Executed(Executed(p, hooked).m, hooked).Becomes?
    ensures Passed(m, Executed(Executed(p, hooked).m, hooked).m, op, y, x, reg, i + 1)
  {
    hide Wrap32, Even, Cell, Aligned, Operands, LoopCode, Apart, Step, ChainOpcode, DbfOpcode, Performed, WordAt, Span;
    hide AgreeOutside, ControlFlow.LowWord, Quot, ControlFlow.Dbcc;
    hide Machine.A, Machine.DecA;
    var n: nat, c := ControlFlow.LowWord(m.d[reg]) + 1, Chain(m, op, y, x, i);
    ChainWritesBelow(m, op, y, x, i, n);
    LoopKept(m, c.ram, op, y, x, reg, Span(op.Width(), n));
    var f := p.(oldPc := p.pc).Fetch();
    Decodes(f, op, y, x, hooked);
    NextStepAligned(m, op, y, x, i, n);
    StepSameOperands(c, f, op, y, x);
    var p1 := Step(f, op, y, x);
    ChainWritesBelow(m, op, y, x, i + 1, n);
    LoopKept(m, p1.ram, op, y, x, reg, Span(op.Width(), n));
    var g := p1.(oldPc := p1.pc).Fetch();
    WrapStep(m.pc + 2, 2);
    DbfDecodes(g, reg, hooked);
    EvenLoop(m, op, y, x, reg);
    DbfBranches(g, m.pc, reg);
    CountedOnce(m.d[reg], p.d[reg], ControlFlow.Dbcc(g, DbfOpcode(reg)).d[reg], i);
  }

  lemma EvenLoop(m: Machine, op: ExtendedOp, y: Reg, x: Reg, reg: Reg)
    requires LoopCode(m, op, y, x, reg)
    ensures Even(m.pc)
  {
  }

  // ---- The whole loop ----

  /** Each pass takes two steps. */
  lemma {:induction false} LoopRuns(m: Machine, op: ExtendedOp, y: Reg, x: Reg, reg: Reg, i: nat, hooked: bool)
    requires var n := ControlFlow.LowWord(m.d[reg]) + 1;
      && i <= n && Aligned(m, op, y, x) && Operands(m, op, y, x, n)
      && LoopCode(m, op, y, x, reg) && Apart(m.pc, m.A(x), 3, Span(op.Width(), n))
    ensures Steps(m, 2 * i, hooked).Becomes? && Passed(m, Steps(m, 2 * i, hooked).m, op, y, x, reg, i)
  {
    hide Aligned, Operands, LoopCode, Apart, Executed, Passed, Span, ControlFlow.LowWord;
    if i == 0 {
      NonePassed(m, op, y, x, reg);
    } else {
      LoopRuns(m, op, y, x, reg, i - 1, hooked);
      OnePass(m, Steps(m, 2 * (i - 1), hooked).m, op, y, x, reg, i - 1, hooked);
      assert 2 * i == 2 * (i - 1) + 1 + 1;
    }
  }

  lemma NonePassed(m: Machine, op: ExtendedOp, y: Reg, x: Reg, reg: Reg)
    ensures Passed(m, m, op, y, x, reg, 0)
  {
    hide Step, ControlFlow.LowWord, Quot, Wrap32;
  }

  /** With `k` in the low word of the counter the loop runs for `k + 1` passes and ends behind itself, with the sum or
      difference of the two numbers of `k + 1` digits in memory, its carry or borrow in X, and -1 in the low word of
      the counter. No other data register, no other memory and no system bit has changed. */
  lemma LoopComputes(m: Machine, op: ExtendedOp, y: Reg, x: Reg, reg: Reg, hooked: bool)
    requires var n := ControlFlow.LowWord(m.d[reg]) + 1;
      && Aligned(m, op, y, x) && Operands(m, op, y, x, n)
      && LoopCode(m, op, y, x, reg) && Apart(m.pc, m.A(x), 3, Span(op.Width(), n))
    ensures var n := ControlFlow.LowWord(m.d[reg]) + 1;
      Steps(m, 2 * n, hooked).Becomes? && Pow(op.Base(), n) > 0
    ensures var n := ControlFlow.LowWord(m.d[reg]) + 1;
      var m' := Steps(m, 2 * n, hooked).m;
      var sum := Total(op, Number(op, m.ram, m.A(x), n), Number(op, m.ram, m.A(y), n), m.sr.x);
      && Number(op, m'.ram, m.A(x), n) == sum % Pow(op.Base(), n)
      && (m'.sr.x <==> (if op.Subtracts() then sum < 0 else sum >= Pow(op.Base(), n)))
      && m'.sr.z == (m.sr.z && Number(op, m'.ram, m.A(x), n) == 0)
      && AgreeOutside(m.ram, m'.ram, m.A(x), Span(op.Width(), n))
      && m'.pc == Wrap32(m.pc + 6)
      && ControlFlow.LowWord(m'.d[reg]) == 0xFFFF && Quot(m'.d[reg], 0x1_0000) == Quot(m.d[reg], 0x1_0000)
      && (forall r: Reg :: r != reg ==> m'.d[r] == m.d[r])
      && AtDigit(m, m'.(pc := m.pc, oldPc := m.oldPc, opcode := m.opcode, d := m.d), op, y, x, n)
  {
    hide Number, Pow, Total, Steps, Chain, AgreeOutside, Span, Wrap32, Aligned, Operands, LoopCode, Apart, AtDigit;
    hide ControlFlow.LowWord, Quot;
    var n: nat := ControlFlow.LowWord(m.d[reg]) + 1;
    LoopRuns(m, op, y, x, reg, n, hooked);
    ChainComputes(m, op, y, x, n);
    AtDigitElsewhere(m, Chain(m, op, y, x, n), Steps(m, 2 * n, hooked).m, op, y, x, n);
  }
}
