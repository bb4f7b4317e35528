/** A program of ADDX, SUBX, ABCD or SBCD instructions in memory, fetched and executed one by one, computes what the
    chain of instructions does. */
module ChainProgram {
  import opened Words
  import opened Memories
  import opened Regions
  import opened Machines
  import opened Opcodes
  import opened Operations
  import opened Multiprecision
  import opened Decoding

  function SizeCode(sz: Size): int {
    match sz case Byte => 0 case Word => 1 case Long => 2
  }

  /** The instruction word of the memory form -(Ay),-(Ax). */
  function ChainOpcode(op: ExtendedOp, y: Reg, x: Reg): u16 {
    var line := match op case ADDX(_) => 0xD case SUBX(_) => 0x9 case ABCD => 0xC case SBCD => 0x8;
    line * 0x1000 + x * 0x200 + (4 + SizeCode(op.Width())) * 0x40 + 8 + y
  }

  lemma OpcodeFields(op: ExtendedOp, y: Reg, x: Reg)
    ensures var w := ChainOpcode(op, y, x);
      && EaReg(w) == y && EaMode(w) == 1 && OpMode(w) == 4 + SizeCode(op.Width()) && OpReg(w) == x && w / 8 % 2 == 1
      && w / 0x1000 == match op case ADDX(_) => 0xD case SUBX(_) => 0x9 case ABCD => 0xC case SBCD => 0x8
  {
    var line := match op case ADDX(_) => 0xD case SUBX(_) => 0x9 case ABCD => 0xC case SBCD => 0x8;
    FieldsOf(ChainOpcode(op, y, x), line, x, 4 + SizeCode(op.Width()), y);
  }

  lemma FieldsOf(w: int, line: int, x: int, mode: int, y: int)
    requires 0 <= line && 0 <= x < 8 && 0 <= mode < 8 && 0 <= y < 8
    requires w == line * 0x1000 + x * 0x200 + mode * 0x40 + 8 + y
    ensures w % 8 == y && w / 8 % 8 == 1 && w / 8 % 2 == 1
    ensures w / 0x40 % 8 == mode && w / 0x200 % 8 == x && w / 0x1000 == line
  {
    var (q3, q2) := (8 * line + x, 64 * line + 8 * x + mode);
    DivModUnique(w, 8 * q2 + 1, y, 8);
    DivModUnique(8 * q2 + 1, q2, 1, 8);
    ParityIs(8 * q2 + 1, 4 * q2, 1);
    DivModUnique(w, q2, 8 + y, 0x40);
    DivModUnique(q2, q3, mode, 8);
    DivModUnique(w, q3, mode * 0x40 + 8 + y, 0x200);
    DivModUnique(q3, line, x, 8);
    DivModUnique(w, line, x * 0x200 + mode * 0x40 + 8 + y, 0x1000);
  }

  /** The processor decodes it as the step of the chain. */
  lemma Decodes(m: Machine, op: ExtendedOp, y: Reg, x: Reg, hooked: bool)
    ensures Performed(m, ChainOpcode(op, y, x), hooked) == Becomes(Step(m, op, y, x))
  {
    hide ChainOpcode, EaReg, EaMode, OpMode, OpReg, Step;
    OpcodeFields(op, y, x);
  }

  /** Steps one after the other. */
  function Steps(m: Machine, n: nat, hooked: bool): Expected {
    if n == 0 then Becomes(m)
    else match Steps(m, n - 1, hooked) case Becomes(m') => Executed(m', hooked) case Unspecified => Unspecified
  }

  /** `n` copies of an instruction word lie from the program counter on. */
  ghost predicate Code(m: Machine, word: u16, n: nat) {
    Even(m.pc) && forall i :: 0 <= i < n ==> WordFrom(m.ram, m.pc, i) == word
  }

  function WordFrom(ram: Ram, pc: int, i: int): u16 {
    WordAt(ram, Wrap32(pc + 2 * i))
  }

  /** The program is not overwritten by the destination. */
  ghost predicate Apart(pc: int, top: int, n: nat, len: nat) {
    forall i, j :: 0 <= i < 2 * n && 1 <= j <= len ==> Above(pc, i) != Below(top, j)
  }

  /** The same machine at another place of the program. */
  predicate SamePlace(m: Machine, m': Machine) {
    m' == m.(pc := m'.pc, oldPc := m'.oldPc, opcode := m'.opcode)
  }

  /** The same machine at another place of the program and with other data registers, none of which a step uses. */
  predicate SameOperands(m: Machine, m': Machine) {
    m' == m.(pc := m'.pc, oldPc := m'.oldPc, opcode := m'.opcode, d := m'.d)
  }

  lemma DecSameOperands(m: Machine, m': Machine, reg: Reg, width: int)
    requires SameOperands(m, m')
    ensures SameOperands(m.DecA(reg, width), m'.DecA(reg, width)) && m'.A(reg) == m.A(reg)
    ensures m'.DecA(reg, width).pc == m'.pc && m'.DecA(reg, width).d == m'.d && m.DecA(reg, width).d == m.d
  {
    hide Wrap32;
  }

  /** A step without an address error does not depend on the place. */
  lemma StepSameOperands(m: Machine, m': Machine, op: ExtendedOp, y: Reg, x: Reg)
    requires SameOperands(m, m')
    requires var (b, m1) := (op.Width().Bytes(), m.DecA(y, op.Width().Bytes()));
      op.Width() != Byte ==> Even(m1.A(y)) && Even(m1.DecA(x, b).A(x))
    ensures SameOperands(Step(m, op, y, x), Step(m', op, y, x)) && Step(m', op, y, x).pc == m'.pc
    ensures Step(m, op, y, x).d == m.d && Step(m', op, y, x).d == m'.d
  {
    hide Wrap32, Even, ReadSized, WriteSized, ExtendedOp.Combine, Step;
    hide Machine.A, Machine.DecA;
    var b := op.Width().Bytes();
    var (m1, m1') := (m.DecA(y, b), m'.DecA(y, b));
    DecSameOperands(m, m', y, b);
    DecSameOperands(m1, m1', x, b);
    DecSameOperands(m1, m1', y, b);
    DecSameOperands(m1.DecA(x, b), m1'.DecA(x, b), x, b);
    StepAligned(m, m1.DecA(x, b), op, y, x);
    StepAligned(m', m1'.DecA(x, b), op, y, x);
  }

  /** A word of the program is intact while the destination is being written. */
  lemma WordKept(pc: int, ram: Ram, ram': Ram, top: int, n: nat, len: nat, i: nat)
    requires Apart(pc, top, n, len) && AgreeOutside(ram, ram', top, len) && i < n
    ensures WordFrom(ram', pc, i) == WordFrom(ram, pc, i)
  {
    hide Cell, Wrap32, Even, Below;
    var at := pc + 2 * i;
    WrapCell(at);
    SameCell(Wrap32(at), at, 1);
    assert Above(pc, 2 * i) == Cell(at) && Above(pc, 2 * i + 1) == Cell(at + 1);
  }

  /** Instruction `i` of the program is intact while the destination is being written. */
  lemma CodeKept(m: Machine, ram: Ram, word: u16, top: int, n: nat, len: nat, i: nat)
    requires Code(m, word, n) && Apart(m.pc, top, n, len) && AgreeOutside(m.ram, ram, top, len) && i < n
    ensures WordAt(ram, Wrap32(m.pc + 2 * i)) == word
  {
    hide Wrap32, Even, WordAt, Apart, AgreeOutside;
    WordKept(m.pc, m.ram, ram, top, n, len, i);
    assert WordFrom(m.ram, m.pc, i) == word;
  }

  /** The machine after `n` instructions is that of the chain, further on in the program. */
  lemma {:induction false} ProgramRunsChain(
      m: Machine, op: ExtendedOp, y: Reg, x: Reg, n: nat, total: nat, hooked: bool)
    requires n <= total && Aligned(m, op, y, x) && Operands(m, op, y, x, total)
    requires Code(m, ChainOpcode(op, y, x), total) && Apart(m.pc, m.A(x), total, Span(op.Width(), total))
    ensures Steps(m, n, hooked).Becomes?
    ensures SamePlace(Chain(m, op, y, x, n), Steps(m, n, hooked).m)
    ensures Steps(m, n, hooked).m.pc == Wrap32(m.pc + 2 * n)
    decreases n
  {
    hide Wrap32, Even, Cell, Aligned, Operands, Code, Apart, Step, ChainOpcode, Performed, WordAt, Span;
    if n == 0 {
    } else {
      ProgramRunsChain(m, op, y, x, n - 1, total, hooked);
      var (c, p) := (Chain(m, op, y, x, n - 1), Steps(m, n - 1, hooked).m);
      ChainWritesBelow(m, op, y, x, n - 1, total);
      NextStepAligned(m, op, y, x, n - 1, total);
      CodeKept(m, c.ram, ChainOpcode(op, y, x), m.A(x), total, Span(op.Width(), total), n - 1);
      WrapStep(m.pc + 2 * (n - 1), 2);
      var f := p.(oldPc := p.pc).Fetch();
      Decodes(f, op, y, x, hooked);
      StepSameOperands(c, f, op, y, x);
    }
  }

  /** The chain so far has written to the destination only. */
  lemma ChainWritesBelow(m: Machine, op: ExtendedOp, y: Reg, x: Reg, n: nat, total: nat)
    requires n <= total && Aligned(m, op, y, x) && Operands(m, op, y, x, total)
    ensures AgreeOutside(m.ram, Chain(m, op, y, x, n).ram, m.A(x), Span(op.Width(), total))
  {
    hide Wrap32, Even, Cell, Span, Below, Raw, Step, Chain, Column, Number, AgreeOutside, AtDigit;
    LongerOperands(m, op, y, x, n, total);
    ChainSums(m, op, y, x, n);
    AgreeOutsideLonger(m.ram, Chain(m, op, y, x, n).ram, m.A(x), Span(op.Width(), n), Span(op.Width(), total));
  }

  /** The next step of the chain meets even addresses. */
  lemma NextStepAligned(m: Machine, op: ExtendedOp, y: Reg, x: Reg, n: nat, total: nat)
    requires n < total && Aligned(m, op, y, x) && Operands(m, op, y, x, total)
    ensures var (c, b) := (Chain(m, op, y, x, n), op.Width().Bytes());
      op.Width() != Byte ==> Even(c.DecA(y, b).A(y)) && Even(c.DecA(y, b).DecA(x, b).A(x))
  {
    hide Wrap32, Even, Cell, Span, Below, Raw, Step, Chain, Column, Number, AgreeOutside;
    hide Machine.A, Machine.DecA, Machine.SetA;
    var c, sz := Chain(m, op, y, x, n), op.Width();
    LongerOperands(m, op, y, x, n, total);
    ChainSums(m, op, y, x, n);
    StepRegisters(m, c, op, y, x, n + 1);
    StepAddress(m.A(y), sz, n + 1);
    StepAddress(m.A(x), sz, n + 1);
  }

  lemma AgreeOutsideLonger(ram: Ram, ram': Ram, top: int, len': nat, len: nat)
    requires len' <= len && AgreeOutside(ram, ram', top, len')
    ensures AgreeOutside(ram, ram', top, len)
  {
    forall k | 0 <= k < MEM_MAX && ram[k] != ram'[k]
      ensures exists i :: 1 <= i <= len && k == Below(top, i)
    {
      var i :| 1 <= i <= len' && k == Below(top, i);
    }
  }

  lemma {:induction false} LongerOperands(m: Machine, op: ExtendedOp, y: Reg, x: Reg, n: nat, total: nat)
    requires n <= total && Operands(m, op, y, x, total)
    ensures Operands(m, op, y, x, n) && Span(op.Width(), n) <= Span(op.Width(), total)
    decreases total - n
  {
    hide Operands, Span;
    if n < total {
      LongerOperands(m, op, y, x, n + 1, total);
      FewerOperands(m, op, y, x, n + 1);
      SpanStep(op.Width(), n + 1);
    }
  }

  /** Apart from the place and the data registers, a machine with the operands of the chain is where the chain is. */
  lemma AtDigitElsewhere(m: Machine, c: Machine, p: Machine, op: ExtendedOp, y: Reg, x: Reg, n: nat)
    requires AtDigit(m, c, op, y, x, n) && SameOperands(c, p)
    ensures AtDigit(m, p.(pc := m.pc, oldPc := m.oldPc, opcode := m.opcode, d := m.d), op, y, x, n) && c.d == m.d
  {
    hide Wrap32, Span;
  }

  /** Executing the program adds or subtracts the numbers in memory. */
  lemma ProgramComputes(m: Machine, op: ExtendedOp, y: Reg, x: Reg, n: nat, hooked: bool)
    requires Aligned(m, op, y, x) && Operands(m, op, y, x, n)
    requires Code(m, ChainOpcode(op, y, x), n) && Apart(m.pc, m.A(x), n, Span(op.Width(), n))
    ensures Steps(m, n, hooked).Becomes? && Pow(op.Base(), n) > 0
    ensures var m' := Steps(m, n, hooked).m;
      var sum := Total(op, Number(op, m.ram, m.A(x), n), Number(op, m.ram, m.A(y), n), m.sr.x);
      && Number(op, m'.ram, m.A(x), n) == sum % Pow(op.Base(), n)
      && (m'.sr.x <==> (if op.Subtracts() then sum < 0 else sum >= Pow(op.Base(), n)))
      && AgreeOutside(m.ram, m'.ram, m.A(x), Span(op.Width(), n))
      && m'.pc == Wrap32(m.pc + 2 * n)
      && AtDigit(m, m'.(pc := m.pc, oldPc := m.oldPc, opcode := m.opcode), op, y, x, n)
  {
    hide Number, Pow, Total, Steps, Chain, AgreeOutside, Span, Wrap32, Aligned, Operands, Code, Apart, AtDigit;
    ProgramRunsChain(m, op, y, x, n, n, hooked);
    ChainComputes(m, op, y, x, n);
    AtDigitElsewhere(m, Chain(m, op, y, x, n), Steps(m, n, hooked).m, op, y, x, n);
  }
}
