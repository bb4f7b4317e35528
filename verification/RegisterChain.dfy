/** Programs of ADDX, SUBX, ABCD or SBCD in their register form, fetched and executed one by one: addition and
    subtraction of numbers of any length that lists of data registers hold. */
module RegisterChain {
  import opened Words
  import opened StatusRegister
  import opened Machines
  import opened Opcodes
  import opened Operations
  import opened Multiprecision
  import opened Decoding
  import opened ChainProgram
  import MultiplyInstructions

  /** The instruction word of the register form Dy,Dx. */
  function PairOpcode(op: ExtendedOp, y: Reg, x: Reg): u16 {
    var base := match op case ADDX(_) => 0xD100 case SUBX(_) => 0x9100 case ABCD => 0xC100 case SBCD => 0x8100;
    base + SizeCode(op.Width()) * 0x40 + x * 0x200 + y
  }

  lemma PairFields(op: ExtendedOp, y: Reg, x: Reg)
    ensures var w := PairOpcode(op, y, x);
      && EaReg(w) == y && EaMode(w) == 0 && OpMode(w) == 4 + SizeCode(op.Width()) && OpReg(w) == x && w / 8 % 2 == 0
      && w / 0x1000 == match op case ADDX(_) => 0xD case SUBX(_) => 0x9 case ABCD => 0xC case SBCD => 0x8
  {
    var line: Nibble := match op case ADDX(_) => 0xD case SUBX(_) => 0x9 case ABCD => 0xC case SBCD => 0x8;
    assert PairOpcode(op, y, x) == Encode(line, x, 4 + SizeCode(op.Width()), 0, y);
    EncodedFields(line, x, 4 + SizeCode(op.Width()), 0, y);
  }

  /** What is in the low part of `x` after one instruction: the operation on `y` and `x`, `y` being added or taken
      away. */
  function Paired(m: Machine, op: ExtendedOp, y: Reg, x: Reg): Machine {
    var sz := op.Width();
    var out := op.Combine(Truncate(sz, m.d[y]), Truncate(sz, m.d[x]), m.sr);
    m.SetD(x, Merge(sz, m.d[x], out.value)).(sr := out.sr)
  }

  lemma PairDecodes(m: Machine, op: ExtendedOp, y: Reg, x: Reg, hooked: bool)
    ensures Performed(m, PairOpcode(op, y, x), hooked) == Becomes(Paired(m, op, y, x))
  {
    hide PairOpcode, EaReg, EaMode, OpMode, OpReg, ExtendedOp.Combine, Truncate, Merge, ToAddress, FromSource;
    hide FromRegister, MultiplyInstructions.Multiply, MultiplyInstructions.Divide;
    PairFields(op, y, x);
  }

  // ---- Numbers in data registers ----

  /** The low part of a register as a digit. */
  function RegisterRaw(op: ExtendedOp, d: Registers, reg: Reg): u32 {
    Truncate(op.Width(), d[reg])
  }

  /** The number that the first `n` registers of a list hold, the least significant digit first. */
  function Held(op: ExtendedOp, d: Registers, regs: seq<Reg>, n: nat): int
    requires n <= |regs|
  {
    if n == 0 then 0
    else Held(op, d, regs, n - 1) + Times(op.Digit(RegisterRaw(op, d, regs[n - 1])), Pow(op.Base(), n - 1))
  }

  ghost predicate ProperRegisters(op: ExtendedOp, d: Registers, regs: seq<Reg>, n: nat)
    requires n <= |regs|
  {
    forall i :: 0 <= i < n ==> op.Proper(RegisterRaw(op, d, regs[i]))
  }

  ghost predicate DistinctRegisters(regs: seq<Reg>) {
    forall i, j :: 0 <= i < j < |regs| ==> regs[i] != regs[j]
  }

  /** Two lists of one length with no register in common, the second without repetition, of proper digits. */
  ghost predicate Pairs(m: Machine, op: ExtendedOp, ys: seq<Reg>, xs: seq<Reg>) {
    && |ys| == |xs| && DistinctRegisters(xs)
    && (forall i, j :: 0 <= i < |ys| && 0 <= j < |xs| ==> ys[i] != xs[j])
    && ProperRegisters(op, m.d, ys, |ys|) && ProperRegisters(op, m.d, xs, |xs|)
  }

  /** The instructions lie from the program counter on, in the order of the lists. */
  ghost predicate PairCode(m: Machine, op: ExtendedOp, ys: seq<Reg>, xs: seq<Reg>)
    requires |ys| == |xs|
  {
    forall i :: 0 <= i < |xs| ==> WordFrom(m.ram, m.pc, i) == PairOpcode(op, ys[i], xs[i])
  }

  lemma {:induction false} HeldKept(op: ExtendedOp, d: Registers, d': Registers, regs: seq<Reg>, n: nat)
    requires n <= |regs| && forall i :: 0 <= i < n ==> RegisterRaw(op, d', regs[i]) == RegisterRaw(op, d, regs[i])
    ensures Held(op, d', regs, n) == Held(op, d, regs, n)
  {
    hide Times, RegisterRaw;
    if n > 0 {
      HeldKept(op, d, d', regs, n - 1);
    }
  }

  lemma {:induction false} HeldBound(op: ExtendedOp, d: Registers, regs: seq<Reg>, n: nat)
    requires n <= |regs| && ProperRegisters(op, d, regs, n)
    ensures 0 <= Held(op, d, regs, n) < Pow(op.Base(), n)
  {
    hide Times, RegisterRaw;
    if n > 0 {
      var q, digit := Pow(op.Base(), n - 1), op.Digit(RegisterRaw(op, d, regs[n - 1]));
      HeldBound(op, d, regs, n - 1);
      DigitRange(op, RegisterRaw(op, d, regs[n - 1]));
      TimesBound(digit, op.Base() - 1, q);
      Distribute(op.Base() - 1, 1, q);
      TimesOne(q);
    }
  }

  // ---- The program ----

  /** After `n` instructions: the digits below `n` of the second list are those of the column sum; every other low part,
      all upper parts, other registers and memory are as before. */
  ghost predicate PairsSummed(m: Machine, m': Machine, op: ExtendedOp, ys: seq<Reg>, xs: seq<Reg>, n: nat)
    requires n <= |ys| && |ys| == |xs|
  {
    && m' == m.(d := m'.d, sr := m'.sr, pc := m'.pc, oldPc := m'.oldPc, opcode := m'.opcode)
    && m'.pc == Wrap32(m.pc + 2 * n)
    && (forall r: Reg :: r !in xs[..n] ==> m'.d[r] == m.d[r])
    && (forall r: Reg :: Quot(m'.d[r], op.Width().Modulus()) == Quot(m.d[r], op.Width().Modulus()))
    && ProperRegisters(op, m'.d, xs, n)
    && Column(op, Held(op, m.d, xs, n), Held(op, m.d, ys, n), m.sr, Held(op, m'.d, xs, n), m'.sr, Pow(op.Base(), n))
    && (n > 0 ==> m'.sr.c == m'.sr.x)
  }

  lemma {:induction false} PairsSum(
      m: Machine, op: ExtendedOp, ys: seq<Reg>, xs: seq<Reg>, n: nat, hooked: bool)
    requires Pairs(m, op, ys, xs) && PairCode(m, op, ys, xs) && n <= |xs|
    ensures Steps(m, n, hooked).Becomes? && PairsSummed(m, Steps(m, n, hooked).m, op, ys, xs, n)
  {
    hide Executed, Pairs, PairCode, PairsSummed, Wrap32;
    assert |ys| == |xs| by { SameLength(m, op, ys, xs); }
    if n == 0 {
      NonePaired(m, op, ys, xs);
    } else {
      PairsSum(m, op, ys, xs, n - 1, hooked);
      var p := Steps(m, n - 1, hooked).m;
      OneMorePair(m, p, op, ys, xs, n, hooked);
    }
  }

  lemma SameLength(m: Machine, op: ExtendedOp, ys: seq<Reg>, xs: seq<Reg>)
    requires Pairs(m, op, ys, xs)
    ensures |ys| == |xs|
  {
  }

  lemma NonePaired(m: Machine, op: ExtendedOp, ys: seq<Reg>, xs: seq<Reg>)
    requires |ys| == |xs|
    ensures PairsSummed(m, m, op, ys, xs, 0)
  {
    hide Quot, RegisterRaw, Column;
    ColumnZero(op, m.sr);
  }

  /** The next instruction and its effect on the registers. */
  lemma OneMorePair(m: Machine, p: Machine, op: ExtendedOp, ys: seq<Reg>, xs: seq<Reg>, n: nat, hooked: bool)
    requires Pairs(m, op, ys, xs) && PairCode(m, op, ys, xs) && 1 <= n <= |xs| && |ys| == |xs|
    requires PairsSummed(m, p, op, ys, xs, n - 1)
    ensures Executed(p, hooked).Becomes? && PairsSummed(m, Executed(p, hooked).m, op, ys, xs, n)
  {
    hide Wrap32, WordAt, PairOpcode, Performed, Column, Held, ProperRegisters, Pairs, Paired, Quot, PairsSummed;
    var (y, x) := (ys[n - 1], xs[n - 1]);
    assert WordFrom(m.ram, m.pc, n - 1) == PairOpcode(op, y, x);
    PlaceOf(m, p, op, ys, xs, n - 1);
    WrapStep(m.pc + 2 * (n - 1), 2);
    var f := p.(oldPc := p.pc).Fetch();
    PairDecodes(f, op, y, x, hooked);
    PairSums(m, p, f, op, ys, xs, n);
  }

  lemma PlaceOf(m: Machine, p: Machine, op: ExtendedOp, ys: seq<Reg>, xs: seq<Reg>, n: nat)
    requires n <= |ys| && |ys| == |xs| && PairsSummed(m, p, op, ys, xs, n)
    ensures p.pc == Wrap32(m.pc + 2 * n) && p.ram == m.ram
  {
    hide Wrap32, Column, Held, ProperRegisters, Quot;
  }

  lemma PairSums(m: Machine, p: Machine, f: Machine, op: ExtendedOp, ys: seq<Reg>, xs: seq<Reg>, n: nat)
    requires Pairs(m, op, ys, xs) && 1 <= n <= |xs| && |ys| == |xs| && PairsSummed(m, p, op, ys, xs, n - 1)
    requires f == p.(pc := Wrap32(m.pc + 2 * n), oldPc := f.oldPc, opcode := f.opcode)
    ensures PairsSummed(m, Paired(f, op, ys[n - 1], xs[n - 1]), op, ys, xs, n)
  {
    hide Wrap32, Column, Held, Times, Pow, Truncate, Merge, ExtendedOp.Combine, ExtendedOp.Proper, ExtendedOp.Digit;
    hide Quot, Rem;
    var (y, x, sz) := (ys[n - 1], xs[n - 1], op.Width());
    var (src, dst) := (Truncate(sz, m.d[y]), Truncate(sz, m.d[x]));
    assert op.Proper(RegisterRaw(op, m.d, ys[n - 1])) && op.Proper(RegisterRaw(op, m.d, xs[n - 1]));
    assert p.d[y] == m.d[y] && p.d[x] == m.d[x];
    var m' := Paired(f, op, y, x);
    CombineDigit(op, src, dst, p.sr);
    var out := op.Combine(src, dst, p.sr);
    MergeParts(sz, m.d[x], out.value);
    assert RegisterRaw(op, m'.d, x) == out.value by { TruncateRem(sz, m'.d[x]); }
    forall i | 0 <= i < n - 1
      ensures RegisterRaw(op, m'.d, xs[i]) == RegisterRaw(op, p.d, xs[i])
    {
      assert xs[i] != x;
    }
    HeldKept(op, p.d, m'.d, xs, n - 1);
    DigitsKept(op, p.d, m'.d, xs, n, out.value);
    ColumnMore(op, m, p, m', ys, xs, n, out.value, out.sr);
    assert xs[..n] == xs[..n - 1] + [x];
  }

  lemma TruncateRem(sz: Size, v: u32)
    ensures Truncate(sz, v) == Rem(v, sz.Modulus())
  {
  }

  lemma DigitsKept(op: ExtendedOp, d: Registers, d': Registers, xs: seq<Reg>, n: nat, value: u32)
    requires 1 <= n <= |xs| && ProperRegisters(op, d, xs, n - 1) && op.Proper(value)
    requires forall i :: 0 <= i < n - 1 ==> RegisterRaw(op, d', xs[i]) == RegisterRaw(op, d, xs[i])
    requires RegisterRaw(op, d', xs[n - 1]) == value
    ensures ProperRegisters(op, d', xs, n)
  {
    hide RegisterRaw, ExtendedOp.Proper;
  }

  lemma ColumnMore(op: ExtendedOp, m: Machine, p: Machine, m': Machine, ys: seq<Reg>, xs: seq<Reg>, n: nat,
                   value: u32, sr': Status)
    requires 1 <= n <= |xs| && |ys| == |xs| && ProperRegisters(op, p.d, xs, n - 1)
    requires Column(op, Held(op, m.d, xs, n - 1), Held(op, m.d, ys, n - 1), m.sr, Held(op, p.d, xs, n - 1), p.sr,
                    Pow(op.Base(), n - 1))
    requires Held(op, m'.d, xs, n - 1) == Held(op, p.d, xs, n - 1) && RegisterRaw(op, m'.d, xs[n - 1]) == value
    requires op.Proper(value)
    requires Total(op, op.Digit(RegisterRaw(op, m.d, xs[n - 1])), op.Digit(RegisterRaw(op, m.d, ys[n - 1])), p.sr.x)
             == op.Digit(value) + Excess(op, sr'.x, op.Base())
    requires sr'.z == (p.sr.z && op.Digit(value) == 0) && sr'.sys == p.sr.sys
    ensures Column(op, Held(op, m.d, xs, n), Held(op, m.d, ys, n), m.sr, Held(op, m'.d, xs, n), sr', Pow(op.Base(), n))
  {
    hide Times, RegisterRaw, Column, Total, Excess, ExtendedOp.Digit, ExtendedOp.Proper;
    HeldBound(op, p.d, xs, n - 1);
    PowPositive(op.Base(), n - 1);
    DigitRange(op, value);
    StepColumn(op, Held(op, m.d, xs, n - 1), Held(op, m.d, ys, n - 1), m.sr, Held(op, p.d, xs, n - 1), p.sr,
               Pow(op.Base(), n - 1), op.Digit(RegisterRaw(op, m.d, xs[n - 1])),
               op.Digit(RegisterRaw(op, m.d, ys[n - 1])), op.Digit(value), sr', op.Base());
  }

  // ---- What the program computes ----

  /** Executing the program adds the number in the first list to the one in the second, or takes it away, with X: the
      second list holds the result modulo the power of the base, X and C the carry or borrow out of it, and Z whether
      it is still zero. The first list, all upper parts, all other registers and memory are unchanged. */
  lemma RegistersCompute(m: Machine, op: ExtendedOp, ys: seq<Reg>, xs: seq<Reg>, hooked: bool)
    requires Pairs(m, op, ys, xs) && PairCode(m, op, ys, xs)
    ensures var n := |xs|; |ys| == n && Steps(m, n, hooked).Becomes? && Pow(op.Base(), n) > 0
    ensures var (n, m') := (|xs|, Steps(m, |xs|, hooked).m);
      var total := Total(op, Held(op, m.d, xs, n), Held(op, m.d, ys, n), m.sr.x);
      var r := Held(op, m'.d, xs, n);
      && r == total % Pow(op.Base(), n)
      && (m'.sr.x <==> (if op.Subtracts() then total < 0 else total >= Pow(op.Base(), n)))
      && (n > 0 ==> m'.sr.c == m'.sr.x)
      && m'.sr.z == (m.sr.z && r == 0) && m'.sr.sys == m.sr.sys
      && (forall i :: 0 <= i < n ==> m'.d[ys[i]] == m.d[ys[i]])
      && (forall r: Reg :: r !in xs ==> m'.d[r] == m.d[r])
      && (forall r: Reg :: Quot(m'.d[r], op.Width().Modulus()) == Quot(m.d[r], op.Width().Modulus()))
      && m' == m.(d := m'.d, sr := m'.sr, pc := m'.pc, oldPc := m'.oldPc, opcode := m'.opcode)
      && m'.pc == Wrap32(m.pc + 2 * n)
  {
    hide Steps, Held, Pow, Quot, Wrap32, ProperRegisters, PairCode, Times;
    var n := |xs|;
    PairsSum(m, op, ys, xs, n, hooked);
    var m' := Steps(m, n, hooked).m;
    assert xs[..n] == xs;
    HeldBound(op, m'.d, xs, n);
    var r, p := Held(op, m'.d, xs, n), Pow(op.Base(), n);
    var q := if !m'.sr.x then 0 else if op.Subtracts() then -1 else 1;
    TimesOne(p);
    Distribute(0, 1, p);
    DivModUnique(r + Times(q, p), q, r, p);
  }
}
