/** Doubling numbers of any length with ROXL: a program of ROXL -(An) instructions in memory, and rotations of data
    registers one after the other. */
module DoublingProgram {
  import opened Words
  import opened StatusRegister
  import opened Memories
  import opened Machines
  import opened Opcodes
  import opened Operations
  import opened Multiprecision
  import opened MultiprecisionLaws
  import opened Decoding
  import opened ChainProgram
  import Shifts

  /** Numbers of words, as ADDX.W sees them. */
  const WORDS: ExtendedOp := ADDX(Word)

  /** The instruction word of ROXL -(An), which rotates a word in memory by one. */
  function RoxlOpcode(x: Reg): u16 {
    0xE5E0 + x
  }

  lemma RoxlFields(x: Reg)
    ensures var w := RoxlOpcode(x);
      && EaReg(w) == x && EaMode(w) == 4 && SizeField(w) == 3 && CondField(w) % 2 == 1
      && w / 0x200 % 4 == 2 && w / 0x1000 == 14
  {
  }

  /** The word below the register is rotated, given that its address is even. */
  lemma RoxlDecodes(m: Machine, x: Reg, hooked: bool)
    requires Even(m.DecA(x, 2).A(x))
    ensures var m1 := m.DecA(x, 2);
      var out := Shifts.Roxl(Word, Read16(m1.ram, m1.A(x)), 1, m1.sr);
      Performed(m, RoxlOpcode(x), hooked)
      == Becomes(m1.(ram := Write16(m1.ram, m1.A(x), out.value), sr := out.sr))
  {
    hide RoxlOpcode, EaReg, EaMode, SizeField, CondField, Even, Read16, Write16, Shifts.Roxl;
    hide Machine.DecA, Machine.A, Machine.AddressError;
    RoxlFields(x);
  }

  // ---- One more word ----

  /** After `n` words: the register has moved down, the number below `top` has been doubled with a carry in and out
      through X, and the program has moved on. Of the codes, only those below the upper byte may differ. */
  ghost predicate Doubled(m: Machine, m': Machine, x: Reg, n: nat) {
    && m' == m.SetA(x, Wrap32(m.A(x) - Span(Word, n)))
              .(ram := m'.ram, sr := m'.sr, pc := m'.pc, oldPc := m'.oldPc, opcode := m'.opcode)
    && m'.sr.sys == m.sr.sys
    && AgreeOutside(m.ram, m'.ram, m.A(x), Span(Word, n))
    && Twice(Number(WORDS, m.ram, m.A(x), n), m.sr.x, Number(WORDS, m'.ram, m.A(x), n), m'.sr.x,
             Pow(0x1_0000, n))
    && m'.pc == Wrap32(m.pc + 2 * n)
  }

  /** Doubling with a carry in, and a carry out of weight `q`. */
  predicate Twice(v: int, carry: bool, v': int, carry': bool, q: int) {
    v' + (if carry' then q else 0) == 2 * v + BitOf(carry)
  }

  lemma TwicePlace(v: int, x0: bool, v': int, x1: bool, q: int, d: int, d': int, x2: bool, base: int)
    requires Twice(v, x0, v', x1, q) && Twice(d, x1, d', x2, base)
    ensures Twice(v + Times(d, q), x0, v' + Times(d', q), x2, Times(base, q))
  {
    hide Times;
    var e1, e2 := BitOf(x1), if x2 then base else 0;
    TimesOne(q);
    Distribute(d, d, q);
    Distribute(2 * d, e1, q);
    Distribute(d', e2, q);
  }

  /** The next instruction finds its word at an even address, one word further down. */
  lemma NextRegister(m: Machine, p: Machine, x: Reg, n: nat)
    requires n >= 1 && Even(m.A(x)) && p.sr.sys == m.sr.sys
    requires p == m.SetA(x, Wrap32(m.A(x) - Span(Word, n - 1)))
                   .(ram := p.ram, sr := p.sr, pc := p.pc, oldPc := p.oldPc, opcode := p.opcode)
    ensures var p1 := p.DecA(x, 2);
      && p1.A(x) == Wrap32(m.A(x) - Span(Word, n)) && Even(p1.A(x))
      && p1 == m.SetA(x, Wrap32(m.A(x) - Span(Word, n)))
                .(ram := p.ram, sr := p.sr, pc := p.pc, oldPc := p.oldPc, opcode := p.opcode)
  {
    hide Wrap32, Even, Cell, Span;
    StepAddress(m.A(x), Word, n);
    var (a1, a2) := (Wrap32(m.A(x) - Span(Word, n - 1)), Wrap32(m.A(x) - Span(Word, n)));
    assert m.a[x := a1][x := a2] == m.a[x := a2];
  }

  /** Writing one more word in place of its double. */
  lemma PlaceDoubled(ram: Ram, ram': Ram, ram'': Ram, top: int, n: nat, x0: bool, x1: bool, value: u16, x2: bool)
    requires n >= 1 && Span(Word, n) <= MEM_MAX
    requires AgreeOutside(ram, ram', top, Span(Word, n - 1))
    requires Twice(Number(WORDS, ram, top, n - 1), x0, Number(WORDS, ram', top, n - 1), x1, Pow(0x1_0000, n - 1))
    requires Twice(Raw(WORDS, ram', top, n), x1, value, x2, 0x1_0000)
    requires ram'' == WriteSized(ram', Word, top - Span(Word, n), value)
    ensures AgreeOutside(ram, ram'', top, Span(Word, n))
    ensures Twice(Number(WORDS, ram, top, n), x0, Number(WORDS, ram'', top, n), x2, Pow(0x1_0000, n))
  {
    hide Cell, Span, Times, Raw, Below, AgreeOutside, AgreeBelow, Twice, WriteSized, Number, Pow;
    NotReached(WORDS, ram, ram', top, n);
    SpanStep(Word, n);
    StepWrites(ram, ram', ram'', WORDS, top, value, n, Span(Word, n));
    NumberAgrees(WORDS, ram', ram'', top, n - 1);
    OneMorePlace(ram, top, n);
    OneMorePlace(ram'', top, n);
    TwicePlace(Number(WORDS, ram, top, n - 1), x0, Number(WORDS, ram', top, n - 1), x1, Pow(0x1_0000, n - 1),
               Raw(WORDS, ram', top, n), value, x2, 0x1_0000);
  }

  lemma OneMorePlace(ram: Ram, top: int, n: nat)
    requires n >= 1
    ensures Number(WORDS, ram, top, n)
            == Number(WORDS, ram, top, n - 1) + Times(Raw(WORDS, ram, top, n), Pow(0x1_0000, n - 1))
    ensures Pow(0x1_0000, n) == Times(0x1_0000, Pow(0x1_0000, n - 1))
  {
    hide Raw, Times;
  }

  /** The rotation of a word by one is its double. */
  lemma RotationIsTwice(v: u16, sr: Status)
    ensures var out := Shifts.Roxl(Word, v, 1, sr);
      Twice(v, sr.x, out.value, out.sr.x, 0x1_0000) && out.value < 0x1_0000 && out.sr.sys == sr.sys
  {
    Shifts.RoxlByOne(Word, v, sr);
  }

  // ---- The program ----

  /** Executing `n` such instructions, by induction on their number. */
  lemma {:induction false} ProgramDoubles(m: Machine, x: Reg, n: nat, total: nat, hooked: bool)
    requires n <= total && Even(m.A(x)) && Span(Word, total) <= MEM_MAX
    requires Code(m, RoxlOpcode(x), total) && Apart(m.pc, m.A(x), total, Span(Word, total))
    ensures Steps(m, n, hooked).Becomes? && Doubled(m, Steps(m, n, hooked).m, x, n)
    decreases n
  {
    hide Wrap32, Even, Cell, Span, Code, Apart, RoxlOpcode, Performed, Doubled, WordAt;
    if n == 0 {
      NoneDoubled(m, x);
    } else {
      ProgramDoubles(m, x, n - 1, total, hooked);
      OneMoreInstruction(m, Steps(m, n - 1, hooked).m, x, n, total, hooked);
    }
  }

  lemma NoneDoubled(m: Machine, x: Reg)
    ensures Doubled(m, m, x, 0)
  {
    hide Below;
    assert Span(Word, 0) == 0;
    assert m.a[x := m.a[x]] == m.a;
  }

  lemma OneMoreInstruction(m: Machine, p: Machine, x: Reg, n: nat, total: nat, hooked: bool)
    requires 1 <= n <= total && Even(m.A(x)) && Span(Word, total) <= MEM_MAX
    requires Code(m, RoxlOpcode(x), total) && Apart(m.pc, m.A(x), total, Span(Word, total))
    requires Doubled(m, p, x, n - 1)
    ensures Executed(p, hooked).Becomes? && Doubled(m, Executed(p, hooked).m, x, n)
  {
    hide Wrap32, Even, Cell, Span, Code, Apart, RoxlOpcode, Performed, WordAt, AgreeOutside, Twice, Number;
    hide Machine.A, Machine.SetA, Machine.DecA, Read16, Write16, Pow, Shifts.Roxl;
    var word, top: int := RoxlOpcode(x), m.A(x);
    SpanGrows(n, total);
    SpanGrows(n - 1, total);
    AgreeOutsideLonger(m.ram, p.ram, top, Span(Word, n - 1), Span(Word, total));
    CodeKept(m, p.ram, word, top, total, Span(Word, total), n - 1);
    WrapStep(m.pc + 2 * (n - 1), 2);
    var f := p.(oldPc := p.pc).Fetch();
    NextRegister(m, f, x, n);
    RoxlDecodes(f, x, hooked);
    var v := Read16(p.ram, f.DecA(x, 2).A(x));
    var out := Shifts.Roxl(Word, v, 1, p.sr);
    RotationIsTwice(v, p.sr);
    AtTop(p.ram, top, n, out.value);
    PlaceDoubled(m.ram, p.ram, Executed(p, hooked).m.ram, top, n, m.sr.x, p.sr.x, out.value, out.sr.x);
  }

  /** The wrapped address of word `n` reaches the same bytes. */
  lemma AtTop(ram: Ram, top: int, n: nat, v: u16)
    ensures var at := Wrap32(top - Span(Word, n));
      Read16(ram, at) == Raw(WORDS, ram, top, n) && Write16(ram, at, v) == WriteSized(ram, Word, top - Span(Word, n), v)
  {
    hide Wrap32, Cell, Span, Read16, Write16;
    var at, below := Wrap32(top - Span(Word, n)), top - Span(Word, n);
    WrapCell(below);
    AccessWraps(ram, Word, at, below, v);
  }

  lemma {:induction false} SpanGrows(n: nat, total: nat)
    requires n <= total
    ensures Span(Word, n) <= Span(Word, total)
  {
  }

  /** Executing the program doubles the big-endian number below the register and adds X; the bit shifted out of the
      top is left in X. The register has moved down to the number, and all other memory is the same. */
  lemma MemoryDoubles(m: Machine, x: Reg, n: nat, hooked: bool)
    requires Even(m.A(x)) && 2 * n <= MEM_MAX
    requires Code(m, RoxlOpcode(x), n) && Apart(m.pc, m.A(x), n, 2 * n)
    ensures Steps(m, n, hooked).Becomes?
    ensures var m' := Steps(m, n, hooked).m;
      && BigEndian(m'.ram, m.A(x), 2 * n) + (if m'.sr.x then Pow(0x100, 2 * n) else 0)
         == 2 * BigEndian(m.ram, m.A(x), 2 * n) + BitOf(m.sr.x)
      && AgreeOutside(m.ram, m'.ram, m.A(x), 2 * n)
      && m'.pc == Wrap32(m.pc + 2 * n)
      && m' == m.SetA(x, Wrap32(m.A(x) - 2 * n))
                .(ram := m'.ram, sr := m'.sr, pc := m'.pc, oldPc := m'.oldPc, opcode := m'.opcode)
  {
    hide Wrap32, Even, Cell, Code, Apart, RoxlOpcode, Steps, AgreeOutside, Number, BigEndian, Pow;
    hide Machine.A, Machine.SetA;
    assert Span(Word, n) == 2 * n;
    ProgramDoubles(m, x, n, n, hooked);
    var m' := Steps(m, n, hooked).m;
    LimbsAreBytes(WORDS, m.ram, m.A(x), n);
    LimbsAreBytes(WORDS, m'.ram, m.A(x), n);
    PowOfModulus(Word, n);
  }

  // ---- Data registers ----

  /** The instruction word of ROXL #1,Dn. */
  function RegisterOpcode(sz: Size, reg: Reg): u16 {
    0xE310 + SizeCode(sz) * 0x40 + reg
  }

  lemma RegisterFields(sz: Size, reg: Reg)
    ensures var w := RegisterOpcode(sz, reg);
      && EaReg(w) == reg && SizeField(w) == SizeCode(sz) && SizeOf(SizeField(w)) == sz && CondField(w) % 2 == 1
      && w / 8 % 4 == 2 && w / 0x20 % 2 == 0 && OpReg(w) == 1 && w / 0x1000 == 14
  {
  }

  /** One data register rotated by one. */
  function Rotated(m: Machine, sz: Size, reg: Reg): Machine {
    var out := Shifts.Roxl(sz, Truncate(sz, m.d[reg]), 1, m.sr);
    m.SetD(reg, Merge(sz, m.d[reg], out.value)).(sr := out.sr)
  }

  lemma RegisterDecodes(m: Machine, sz: Size, reg: Reg, hooked: bool)
    ensures Performed(m, RegisterOpcode(sz, reg), hooked) == Becomes(Rotated(m, sz, reg))
  {
    hide RegisterOpcode, EaReg, SizeField, CondField, OpReg, Merge, Truncate, Shifts.Roxl;
    RegisterFields(sz, reg);
  }

  /** The rotations of a list of registers lie from the program counter on, in the order of the list. */
  ghost predicate Rotations(ram: Ram, pc: int, sz: Size, regs: seq<Reg>) {
    forall i :: 0 <= i < |regs| ==> WordFrom(ram, pc, i) == RegisterOpcode(sz, regs[i])
  }

  /** The low parts of the registers, the least significant one first. */
  function Limbs(sz: Size, d: Registers, regs: seq<Reg>): (limbs: seq<u32>)
    ensures Shifts.ProperLimbs(sz, limbs)
  {
    if regs == [] then [] else [Truncate(sz, d[regs[0]])] + Limbs(sz, d, regs[1..])
  }

  lemma {:induction false} OtherLimbs(sz: Size, d: Registers, reg: Reg, v: u32, regs: seq<Reg>)
    requires reg !in regs
    ensures Limbs(sz, d[reg := v], regs) == Limbs(sz, d, regs)
  {
    if regs != [] {
      OtherLimbs(sz, d, reg, v, regs[1..]);
    }
  }

  predicate Distinct(regs: seq<Reg>) {
    regs == [] || (regs[0] !in regs[1..] && Distinct(regs[1..]))
  }

  /** A step at the front of a run instead of its end. */
  lemma {:induction false} StepsFromFirst(m: Machine, n: nat, hooked: bool)
    requires Executed(m, hooked).Becomes?
    ensures Steps(m, n + 1, hooked) == Steps(Executed(m, hooked).m, n, hooked)
  {
    hide Executed;
    if n > 0 {
      StepsFromFirst(m, n - 1, hooked);
    } else {
      assert Steps(m, 0, hooked) == Becomes(m);
    }
  }

  lemma LaterRotations(ram: Ram, pc: u32, sz: Size, regs: seq<Reg>)
    requires regs != [] && Rotations(ram, pc, sz, regs)
    ensures WordAt(ram, pc) == RegisterOpcode(sz, regs[0])
    ensures Rotations(ram, Wrap32(pc + 2), sz, regs[1..])
  {
    hide RegisterOpcode, WordAt, Wrap32;
    WrapStep(pc, 0);
    assert WordFrom(ram, pc, 0) == RegisterOpcode(sz, regs[0]);
    forall i | 0 <= i < |regs| - 1
      ensures WordFrom(ram, Wrap32(pc + 2), i) == RegisterOpcode(sz, regs[1..][i])
    {
      WrapStep(pc + 2, 2 * i);
      assert WordFrom(ram, pc, i + 1) == RegisterOpcode(sz, regs[i + 1]);
    }
  }

  /** Executing the rotations of distinct registers changes their low parts as the chain of limbs does, and no other
      register, no upper part and no memory. */
  lemma {:induction false} RegistersFollowChain(m: Machine, sz: Size, regs: seq<Reg>, hooked: bool)
    requires Distinct(regs) && Rotations(m.ram, m.pc, sz, regs)
    ensures Steps(m, |regs|, hooked).Becomes?
    ensures var m' := Steps(m, |regs|, hooked).m;
      && (Limbs(sz, m'.d, regs), m'.sr) == Shifts.RoxlChain(sz, Limbs(sz, m.d, regs), m.sr)
      && (forall r: Reg :: Quot(m'.d[r], sz.Modulus()) == Quot(m.d[r], sz.Modulus()))
      && (forall r: Reg :: r !in regs ==> m'.d[r] == m.d[r])
      && m' == m.(d := m'.d, sr := m'.sr, pc := m'.pc, oldPc := m'.oldPc, opcode := m'.opcode)
      && m'.pc == Wrap32(m.pc + 2 * |regs|)
    decreases |regs|
  {
    hide Wrap32, Even, Merge, Truncate, Quot, Rem, Rotations, RegisterOpcode, Performed, Shifts.Roxl, WordAt;
    if regs == [] {
    } else {
      var reg, rest := regs[0], regs[1..];
      LaterRotations(m.ram, m.pc, sz, regs);
      var f := m.(oldPc := m.pc).Fetch();
      RegisterDecodes(f, sz, reg, hooked);
      var m1 := Rotated(f, sz, reg);
      RegistersFollowChain(m1, sz, rest, hooked);
      StepsFromFirst(m, |rest|, hooked);
      WrapStep(m.pc + 2, 2 * |rest|);
      var out := Shifts.Roxl(sz, Truncate(sz, m.d[reg]), 1, m.sr);
      MergeParts(sz, m.d[reg], out.value);
      TruncateIsRem(sz, m1.d[reg]);
      OtherLimbs(sz, m.d, reg, m1.d[reg], rest);
    }
  }

  lemma TruncateIsRem(sz: Size, v: u32)
    ensures Truncate(sz, v) == Rem(v, sz.Modulus())
  {
  }

  /** So ROXL #1 on distinct data registers, the least significant one first, doubles the number they hold and adds X;
      the bit shifted out of the top is left in X. */
  lemma RegistersDouble(m: Machine, sz: Size, regs: seq<Reg>, hooked: bool)
    requires Distinct(regs) && Rotations(m.ram, m.pc, sz, regs)
    ensures Steps(m, |regs|, hooked).Becomes?
    ensures var m' := Steps(m, |regs|, hooked).m;
      && Shifts.LimbsValue(sz, Limbs(sz, m'.d, regs)) + (if m'.sr.x then Pow(sz.Modulus(), |regs|) else 0)
         == 2 * Shifts.LimbsValue(sz, Limbs(sz, m.d, regs)) + BitOf(m.sr.x)
      && (forall r: Reg :: Quot(m'.d[r], sz.Modulus()) == Quot(m.d[r], sz.Modulus()))
      && (forall r: Reg :: r !in regs ==> m'.d[r] == m.d[r])
      && m' == m.(d := m'.d, sr := m'.sr, pc := m'.pc, oldPc := m'.oldPc, opcode := m'.opcode)
      && m'.pc == Wrap32(m.pc + 2 * |regs|)
  {
    hide Steps, Rotations, Distinct, Quot, Wrap32, Pow, Shifts.LimbsValue, Shifts.RoxlChain;
    RegistersFollowChain(m, sz, regs, hooked);
    Shifts.RoxlChainDoubles(sz, Limbs(sz, m.d, regs), m.sr);
    LimbsLength(sz, m.d, regs);
  }

  lemma {:induction false} LimbsLength(sz: Size, d: Registers, regs: seq<Reg>)
    ensures |Limbs(sz, d, regs)| == |regs|
  {
    if regs != [] {
      LimbsLength(sz, d, regs[1..]);
    }
  }
}
