/** Comparing, from the instruction words in memory: which operand is compared with which, and that a conditional
    branch behind a compare goes by the relation of its name. */
module Comparisons {
  import opened Words
  import opened StatusRegister
  import opened Memories
  import opened Machines
  import opened Opcodes
  import opened Operations
  import opened Addressing
  import opened Conditions
  import opened Decoding
  import opened DataMovement
  import opened IntegerArithmetic
  import opened Branching
  import opened ChainProgram
  import Alu
  import PlainEffects

  /** The relation that a condition names, between the destination and the source of a compare: unsigned and signed
      order, equality, and sign and overflow of the difference. */
  predicate Relation(cond: Condition, sz: Size, dst: u32, src: u32) {
    match cond
    case 0 => true
    case 1 => false
    case 2 => dst > src
    case 3 => dst <= src
    case 4 => dst >= src
    case 5 => dst < src
    case 6 => dst != src
    case 7 => dst == src
    case 8 => Fits(sz, Signed(sz, dst) - Signed(sz, src))
    case 9 => !Fits(sz, Signed(sz, dst) - Signed(sz, src))
    case 10 => Signed(sz, (dst - src) % sz.Modulus()) >= 0
    case 11 => Signed(sz, (dst - src) % sz.Modulus()) < 0
    case 12 => Signed(sz, dst) >= Signed(sz, src)
    case 13 => Signed(sz, dst) < Signed(sz, src)
    case 14 => Signed(sz, dst) > Signed(sz, src)
    case 15 => Signed(sz, dst) <= Signed(sz, src)
  }

  /** Only N, Z, V and C have changed, so that every condition is its relation. */
  ghost predicate Compared(g: Machine, m': Machine, sz: Size, dst: u32, src: u32) {
    && m' == g.(sr := m'.sr) && m'.sr.x == g.sr.x && m'.sr.sys == g.sr.sys
    && forall cond: Condition :: Holds(cond, m'.sr) <==> Relation(cond, sz, dst, src)
  }

  lemma SubtractionDecides(g: Machine, sz: Size, dst: u32, src: u32)
    requires src < sz.Modulus() && dst < sz.Modulus()
    ensures Compared(g, g.(sr := Alu.Cmp(sz, src, dst, g.sr)), sz, dst, src)
  {
    SignsDecide(sz, dst, src, g.sr);
    CompareDecides(sz, src, dst, g.sr);
    hide Alu.Cmp, Fits, Signed;
  }

  lemma SignsDecide(sz: Size, dst: u32, src: u32, sr: Status)
    requires src < sz.Modulus() && dst < sz.Modulus()
    ensures var after := Alu.Cmp(sz, src, dst, sr);
      && after.n == (Signed(sz, (dst - src) % sz.Modulus()) < 0)
      && after.v == !Fits(sz, Signed(sz, dst) - Signed(sz, src))
  {
    hide Fits;
  }

  // ---- CMP ----

  lemma CmpDecodes(f: Machine, w: u16, sz: Size, hooked: bool)
    requires w / 0x1000 == 0xB && OpMode(w) == SizeNumber(sz)
    ensures Performed(f, w, hooked) == CompareFrom(f, w, sz)
  {
    hide OpMode, EaMode, CompareFrom, CompareAddress, CompareMemory, FromRegister;
  }

  /** CMP compares the low part of the register with the operand: the operand is what is subtracted. */
  lemma CmpCompares(m: Machine, x: Reg, ea: Mode, sz: Size, hooked: bool)
    requires Coded(m, 0xB, x, SizeNumber(sz), ea) && Readable(Fetched(m), ea, sz)
    ensures Executed(m, hooked).Becomes?
    ensures var f := Fetched(m);
      Compared(Behind(f, ea, sz), Executed(m, hooked).m, sz, Low(sz, m.d[x]), ValueOf(f, ea, sz))
  {
    hide WordAt, Wrap32, Encode, EaReg, EaMode, OpReg, OpMode, AddressOf, Behind, Performed, CompareFrom, ValueOf;
    hide Readable, Compared, Low;
    var (f, w) := (Fetched(m), WordAt(m.ram, m.pc));
    Begins(m, hooked);
    EncodedFields(0xB, x, SizeNumber(sz), ea.Field(), ea.Register());
    CmpDecodes(f, w, sz, hooked);
    CmpAt(f, w, x, ea, sz);
  }

  lemma CmpAt(f: Machine, w: u16, x: Reg, ea: Mode, sz: Size)
    requires EaMode(w) == ea.Field() && EaReg(w) == ea.Register() && OpReg(w) == x && Readable(f, ea, sz)
    ensures CompareFrom(f, w, sz).Becomes?
    ensures Compared(Behind(f, ea, sz), CompareFrom(f, w, sz).m, sz, Low(sz, f.d[x]), ValueOf(f, ea, sz))
  {
    hide WordAt, Wrap32, EaReg, EaMode, OpReg, AddressOf, ValueOf, Accessible, Place, Behind, Truncate, Low;
    hide Machine.Resolve, Machine.Load, Alu.Cmp, Compared;
    SetUp(f, ea, sz);
    Loads(f, ea, sz, true);
    BehindKeeps(f, ea, sz);
    LowIs(sz, f.d[x]);
    SubtractionDecides(Behind(f, ea, sz), sz, Low(sz, f.d[x]), ValueOf(f, ea, sz));
  }

  /** An odd operand is an address error with nothing compared. */
  lemma CmpFaults(m: Machine, x: Reg, ea: Mode, sz: Size, hooked: bool)
    requires Coded(m, 0xB, x, SizeNumber(sz), ea) && !Accessible(Fetched(m), ea, sz)
    ensures var f := Fetched(m);
      Executed(m, hooked) == Becomes(Behind(f, ea, sz).AddressError(Address(f, ea, sz), true, ea.FromPc()))
  {
    hide WordAt, Wrap32, Encode, EaReg, EaMode, OpReg, OpMode, AddressOf, Behind, Performed, Accessible, Place;
    hide Machine.AddressError, Machine.Resolve, Machine.Load;
    var (f, w) := (Fetched(m), WordAt(m.ram, m.pc));
    Begins(m, hooked);
    EncodedFields(0xB, x, SizeNumber(sz), ea.Field(), ea.Register());
    CmpDecodes(f, w, sz, hooked);
    SetUp(f, ea, sz);
    Faults(f, ea, sz, true);
  }

  // ---- CMPA ----

  lemma CmpaDecodes(f: Machine, w: u16, sz: Size, hooked: bool)
    requires sz != Byte && w / 0x1000 == 0xB && OpMode(w) == if sz == Long then 7 else 3
    ensures Performed(f, w, hooked) == CompareAddress(f, w, sz)
  {
    hide OpMode, EaMode, CompareFrom, CompareAddress, CompareMemory, FromRegister;
  }

  /** CMPA compares the whole address register with the operand, sign-extended. */
  lemma CmpaCompares(m: Machine, x: Reg, ea: Mode, sz: Size, hooked: bool)
    requires sz != Byte && Coded(m, 0xB, x, if sz == Long then 7 else 3, ea) && Readable(Fetched(m), ea, sz)
    ensures Executed(m, hooked).Becomes?
    ensures var (f, g) := (Fetched(m), Behind(Fetched(m), ea, sz));
      Compared(g, Executed(m, hooked).m, Long, g.A(x), Wrap32(Signed(sz, ValueOf(f, ea, sz))))
  {
    hide WordAt, Wrap32, Encode, EaReg, EaMode, OpReg, OpMode, AddressOf, Behind, Performed, CompareAddress, ValueOf;
    hide Readable, Compared, Signed;
    hide Machine.A;
    var (f, w) := (Fetched(m), WordAt(m.ram, m.pc));
    Begins(m, hooked);
    EncodedFields(0xB, x, if sz == Long then 7 else 3, ea.Field(), ea.Register());
    CmpaDecodes(f, w, sz, hooked);
    CmpaAt(f, w, x, ea, sz);
  }

  lemma CmpaAt(f: Machine, w: u16, x: Reg, ea: Mode, sz: Size)
    requires EaMode(w) == ea.Field() && EaReg(w) == ea.Register() && OpReg(w) == x
    requires sz != Byte && Readable(f, ea, sz)
    ensures CompareAddress(f, w, sz).Becomes?
    ensures var g := Behind(f, ea, sz);
      Compared(g, CompareAddress(f, w, sz).m, Long, g.A(x), Wrap32(Signed(sz, ValueOf(f, ea, sz))))
  {
    hide WordAt, EaReg, EaMode, OpReg, AddressOf, ValueOf, Accessible, Place, Behind, Wrap32, Signed, SignExtend;
    hide Machine.Resolve, Machine.Load, Machine.A, Alu.Cmp, Compared;
    SetUp(f, ea, sz);
    Loads(f, ea, sz, true);
    ExtendedIs(sz, ValueOf(f, ea, sz));
    SubtractionDecides(Behind(f, ea, sz), Long, Behind(f, ea, sz).A(x), Wrap32(Signed(sz, ValueOf(f, ea, sz))));
  }

  lemma ExtendedIs(sz: Size, v: u32)
    requires v < sz.Modulus()
    ensures SignExtend(sz, v) == Wrap32(Signed(sz, v))
  {
  }

  // ---- CMPI ----

  lemma CmpiDecodes(f: Machine, w: u16, sz: Size, hooked: bool)
    requires w / 0x1000 == 0 && EaMode(w) != 1 && CondField(w) == 12 && SizeField(w) == SizeNumber(sz)
    ensures Performed(f, w, hooked) == CompareImmediate(f, w, sz)
  {
    hide CondField, SizeField, EaMode, CompareImmediate, FromImmediate;
    hide PlainEffects.BitOperated, PlainEffects.MovedPeripheral, PlainEffects.LogicWithImmediate;
  }

  /** CMPI compares the operand with the immediate, which comes first in the instruction. */
  lemma CmpiCompares(m: Machine, ea: Mode, sz: Size, hooked: bool)
    requires Coded(m, 0, 6, SizeNumber(sz), ea)
    requires ea.Alterable() && Accessible(Behind(Fetched(m), ImmediateData, sz), ea, sz)
    ensures Executed(m, hooked).Becomes?
    ensures var (f, g) := (Fetched(m), Behind(Fetched(m), ImmediateData, sz));
      Compared(Behind(g, ea, sz), Executed(m, hooked).m, sz, ValueOf(g, ea, sz), ValueOf(f, ImmediateData, sz))
  {
    hide WordAt, Wrap32, Encode, EaReg, EaMode, OpReg, OpMode, CondField, SizeField, AddressOf, Behind, Performed;
    hide CompareImmediate, ValueOf, Accessible, Compared;
    var (f, w) := (Fetched(m), WordAt(m.ram, m.pc));
    Begins(m, hooked);
    EncodedFields(0, 6, SizeNumber(sz), ea.Field(), ea.Register());
    CmpiDecodes(f, w, sz, hooked);
    CmpiAt(f, w, ea, sz);
  }

  lemma CmpiAt(f: Machine, w: u16, ea: Mode, sz: Size)
    requires EaMode(w) == ea.Field() && EaReg(w) == ea.Register()
    requires ea.Alterable() && Accessible(Behind(f, ImmediateData, sz), ea, sz)
    ensures CompareImmediate(f, w, sz).Becomes?
    ensures var g := Behind(f, ImmediateData, sz);
      Compared(Behind(g, ea, sz), CompareImmediate(f, w, sz).m, sz, ValueOf(g, ea, sz), ValueOf(f, ImmediateData, sz))
  {
    hide WordAt, Wrap32, EaReg, EaMode, AddressOf, ValueOf, Accessible, Place, Behind, Immediately;
    hide Machine.Resolve, Machine.Load, Alu.Cmp, Compared;
    var g := Behind(f, ImmediateData, sz);
    ImmediatelyIs(f, sz);
    SetUp(g, ea, sz);
    Loads(g, ea, sz, false);
    SubtractionDecides(Behind(g, ea, sz), sz, ValueOf(g, ea, sz), ValueOf(f, ImmediateData, sz));
  }

  // ---- CMPM ----

  lemma CmpmDecodes(f: Machine, w: u16, sz: Size, hooked: bool)
    requires w / 0x1000 == 0xB && OpMode(w) == 4 + SizeNumber(sz) && EaMode(w) == 1
    ensures Performed(f, w, hooked) == Becomes(CompareMemory(f, w, sz))
  {
    hide OpMode, EaMode, CompareFrom, CompareAddress, CompareMemory, FromRegister;
  }

  /** CMPM compares the operand at (Ax)+ with the one at (Ay)+, which is read first. */
  lemma CmpmCompares(m: Machine, x: Reg, y: Reg, sz: Size, hooked: bool)
    requires Coded(m, 0xB, x, 4 + SizeNumber(sz), AddressDirect(y))
    requires var (f, g) := (Fetched(m), Behind(Fetched(m), Postincrement(y), sz));
      Accessible(f, Postincrement(y), sz) && Accessible(g, Postincrement(x), sz)
    ensures Executed(m, hooked).Becomes?
    ensures var (f, g) := (Fetched(m), Behind(Fetched(m), Postincrement(y), sz));
      Compared(Behind(g, Postincrement(x), sz), Executed(m, hooked).m, sz,
               ValueOf(g, Postincrement(x), sz), ValueOf(f, Postincrement(y), sz))
  {
    hide WordAt, Wrap32, Encode, EaReg, EaMode, OpReg, OpMode, AddressOf, Behind, Performed;
    hide CompareMemory, ValueOf, Accessible, Compared;
    var (f, w) := (Fetched(m), WordAt(m.ram, m.pc));
    Begins(m, hooked);
    EncodedFields(0xB, x, 4 + SizeNumber(sz), 1, y);
    CmpmDecodes(f, w, sz, hooked);
    CmpmAt(f, w, x, y, sz);
  }

  lemma CmpmAt(f: Machine, w: u16, x: Reg, y: Reg, sz: Size)
    requires EaReg(w) == y && OpReg(w) == x
    requires Accessible(f, Postincrement(y), sz) && Accessible(Behind(f, Postincrement(y), sz), Postincrement(x), sz)
    ensures var g := Behind(f, Postincrement(y), sz);
      Compared(Behind(g, Postincrement(x), sz), CompareMemory(f, w, sz), sz,
               ValueOf(g, Postincrement(x), sz), ValueOf(f, Postincrement(y), sz))
  {
    hide WordAt, Wrap32, EaReg, OpReg, Alu.Cmp, Compared, Even, ReadSized, Behind;
    hide Machine.A, Machine.IncA, Machine.AddressError;
    var g := Behind(f, Postincrement(y), sz);
    IncrementIs(f, y, sz);
    IncrementIs(g, x, sz);
    BehindKeeps(f, Postincrement(y), sz);
    BehindKeeps(g, Postincrement(x), sz);
    SubtractionDecides(Behind(g, Postincrement(x), sz), sz,
                       ValueOf(g, Postincrement(x), sz), ValueOf(f, Postincrement(y), sz));
  }

  lemma IncrementIs(m: Machine, r: Reg, sz: Size)
    ensures m.IncA(r, sz.Bytes()) == Behind(m, Postincrement(r), sz)
  {
    hide Wrap32, WordAt;
  }

  // ---- A compare and a branch ----

  /** A program of CMP and Bcc branches exactly when the relation that the condition names holds between the register
      and the operand; nothing but the place and the codes, and the registers that the modes move, has changed. */
  lemma CompareAndBranch(m: Machine, x: Reg, ea: Mode, sz: Size, cond: Condition, d: u8, hooked: bool)
    requires cond != 1 && Coded(m, 0xB, x, SizeNumber(sz), ea) && Readable(Fetched(m), ea, sz)
    requires var g := Behind(Fetched(m), ea, sz);
      WordAt(m.ram, g.pc) == BranchWord(cond, d) && Even(BranchTarget(g, d))
    ensures Steps(m, 2, hooked).Becomes?
    ensures var g := Behind(Fetched(m), ea, sz);
      var m' := Steps(m, 2, hooked).m;
      && m'.pc == (if Relation(cond, sz, Low(sz, m.d[x]), ValueOf(Fetched(m), ea, sz)) then BranchTarget(g, d)
                   else BehindBranch(g, d).pc)
      && m'.d == m.d && m'.ram == m.ram && m'.a == g.a && m'.ssp == g.ssp && m'.sr.x == m.sr.x && m'.sr.sys == m.sr.sys
  {
    hide WordAt, Wrap32, Encode, Behind, ValueOf, Readable, Relation, Holds, Even, Low, BranchWord, Executed, Signed;
    var (f, g) := (Fetched(m), Behind(Fetched(m), ea, sz));
    CmpCompares(m, x, ea, sz, hooked);
    BehindKeeps(f, ea, sz);
    var m1 := Executed(m, hooked).m;
    BranchGoes(m1, cond, d, hooked);
    assert Steps(m, 1, hooked) == Becomes(m1) by { assert Steps(m, 0, hooked) == Becomes(m); }
    assert Steps(m, 2, hooked) == Executed(m1, hooked);
  }
}
