/** Changing the flow of control, from the instruction words in memory: where branches, loops, jumps and calls go, and
    when. */
module Branching {
  import opened Words
  import opened StatusRegister
  import opened Machines
  import opened Opcodes
  import opened Operations
  import opened Addressing
  import opened Conditions
  import opened CallNesting
  import opened Decoding
  import opened DataMovement
  import opened Regions
  import ControlFlow
  import FlowInstructions
  import MovemInstructions
  import PlainEffects

  // ---- Branches ----

  /** A branch word with its condition and its byte of displacement. */
  function BranchWord(cond: Condition, d: u8): u16 {
    0x6000 + cond * 0x100 + d
  }

  lemma BranchFields(cond: Condition, d: u8)
    ensures var w := BranchWord(cond, d);
      w / 0x1000 == 6 && CondField(w) == cond && w % 0x100 == d
  {
    var w := BranchWord(cond, d);
    Splits(w, 0x60 + cond, d, 0x100);
    Splits(w, 6, cond * 0x100 + d, 0x1000);
    Splits(0x60 + cond, 6, cond, 0x10);
  }

  lemma BranchDecodes(f: Machine, w: u16, hooked: bool)
    requires w / 0x1000 == 6
    ensures Performed(f, w, hooked) == Becomes(ControlFlow.Branch(f, w))
  {
    hide ControlFlow.Branch;
  }

  /** Where a branch goes: the displacement counts from behind the opcode word. A byte of zero stands for the word that
      follows. */
  function BranchTarget(m: Machine, d: u8): u32 {
    if d == 0 then Wrap32(m.pc + 2 + Signed(Word, WordAt(m.ram, Wrap32(m.pc + 2))))
    else Wrap32(m.pc + 2 + Signed(Byte, d))
  }

  /** The machine behind the branch. */
  function BehindBranch(m: Machine, d: u8): Machine {
    if d == 0 then Fetched(m).(pc := Wrap32(m.pc + 4), opcode := WordAt(m.ram, Wrap32(m.pc + 2))) else Fetched(m)
  }

  /** BRA, and Bcc when its condition holds, continue at the target; otherwise Bcc continues behind itself. Nothing
      else changes. */
  lemma BranchGoes(m: Machine, cond: Condition, d: u8, hooked: bool)
    requires cond != 1 && WordAt(m.ram, m.pc) == BranchWord(cond, d)
    requires Even(BranchTarget(m, d)) || !Holds(cond, m.sr)
    ensures Executed(m, hooked)
      == Becomes(if Holds(cond, m.sr) then BehindBranch(m, d).(pc := BranchTarget(m, d)) else BehindBranch(m, d))
  {
    hide WordAt, Wrap32, BranchWord, Performed, CondField, Holds, Signed, Even, ControlFlow.Branch, BranchTarget;
    hide BehindBranch;
    Begins(m, hooked);
    BranchFields(cond, d);
    BranchDecodes(Fetched(m), BranchWord(cond, d), hooked);
    BranchAt(m, BranchWord(cond, d), cond, d);
  }

  lemma BranchAt(m: Machine, w: u16, cond: Condition, d: u8)
    requires CondField(w) == cond && w % 0x100 == d && cond != 1
    requires Even(BranchTarget(m, d)) || !Holds(cond, m.sr)
    ensures ControlFlow.Branch(Fetched(m), w)
      == if Holds(cond, m.sr) then BehindBranch(m, d).(pc := BranchTarget(m, d)) else BehindBranch(m, d)
  {
    hide WordAt, Wrap32, CondField, Holds, Even;
    hide Machine.AddressError, Machine.PushLong;
    TargetIs(m, d);
    AlwaysHolds(m.sr);
  }

  lemma AlwaysHolds(sr: Status)
    ensures Holds(0, sr) && !Holds(1, sr)
  {
  }

  lemma TargetIs(m: Machine, d: u8)
    ensures Signed(Byte, d) == 0 <==> d == 0
    ensures d == 0 ==> BehindBranch(m, d) == Fetched(m).Fetch()
    ensures var f := Fetched(m);
      BranchTarget(m, d) == if d == 0 then Wrap32(f.Fetch().pc + (f.Fetch().Displacement() - 2))
                            else Wrap32(f.pc + Signed(Byte, d))
  {
    hide WordAt, Wrap32;
    WrapStep(m.pc + 2, 2);
    if d == 0 {
      WrapStep(m.pc + 4, Signed(Word, WordAt(m.ram, Wrap32(m.pc + 2))) - 2);
    } else {
      WrapStep(m.pc + 2, Signed(Byte, d));
    }
  }

  /** A taken branch to an odd target is an address error, reported inside the instruction. */
  lemma BranchFaults(m: Machine, cond: Condition, d: u8, hooked: bool)
    requires cond != 1 && WordAt(m.ram, m.pc) == BranchWord(cond, d)
    requires !Even(BranchTarget(m, d)) && Holds(cond, m.sr)
    ensures Executed(m, hooked)
      == Becomes(BehindBranch(m, d).(pc := Wrap32(m.pc + 2)).AddressError(BranchTarget(m, d), true, true))
  {
    hide WordAt, Wrap32, BranchWord, Performed, CondField, Holds, Signed, Even, ControlFlow.Branch, BranchTarget;
    hide BehindBranch, Machine.AddressError;
    Begins(m, hooked);
    BranchFields(cond, d);
    BranchDecodes(Fetched(m), BranchWord(cond, d), hooked);
    BranchFaultsAt(m, BranchWord(cond, d), cond, d);
  }

  lemma BranchFaultsAt(m: Machine, w: u16, cond: Condition, d: u8)
    requires CondField(w) == cond && w % 0x100 == d && cond != 1
    requires !Even(BranchTarget(m, d)) && Holds(cond, m.sr)
    ensures ControlFlow.Branch(Fetched(m), w)
      == BehindBranch(m, d).(pc := Wrap32(m.pc + 2)).AddressError(BranchTarget(m, d), true, true)
  {
    hide WordAt, Wrap32, CondField, Holds, Even;
    hide Machine.AddressError, Machine.PushLong;
    TargetIs(m, d);
    WrapStep(m.pc + 4, -2);
  }

  /** BSR to an even target pushes the address behind itself. */
  lemma BsrCalls(m: Machine, d: u8, hooked: bool)
    requires WordAt(m.ram, m.pc) == BranchWord(1, d) && Even(BranchTarget(m, d))
    ensures var g := BehindBranch(m, d);
      Executed(m, hooked) == Becomes(g.PushLong(g.pc).(pc := BranchTarget(m, d)))
  {
    hide WordAt, Wrap32, BranchWord, Performed, CondField, Holds, Signed, Even, ControlFlow.Branch, BranchTarget;
    hide BehindBranch, Machine.PushLong;
    Begins(m, hooked);
    BranchFields(1, d);
    BranchDecodes(Fetched(m), BranchWord(1, d), hooked);
    BsrAt(m, BranchWord(1, d), d);
  }

  lemma BsrAt(m: Machine, w: u16, d: u8)
    requires CondField(w) == 1 && w % 0x100 == d && Even(BranchTarget(m, d))
    ensures ControlFlow.Branch(Fetched(m), w)
      == BehindBranch(m, d).PushLong(BehindBranch(m, d).pc).(pc := BranchTarget(m, d))
  {
    hide WordAt, Wrap32, CondField, Holds, Even;
    hide Machine.AddressError, Machine.PushLong;
    TargetIs(m, d);
  }

  /** To an odd target it has pushed that address, and reports the fault from there. */
  lemma BsrFaults(m: Machine, d: u8, hooked: bool)
    requires WordAt(m.ram, m.pc) == BranchWord(1, d) && !Even(BranchTarget(m, d))
    ensures var (g, target) := (BehindBranch(m, d), BranchTarget(m, d));
      Executed(m, hooked) == Becomes(g.PushLong(g.pc).(pc := target).AddressError(target, true, true))
  {
    hide WordAt, Wrap32, BranchWord, Performed, CondField, Holds, Signed, Even, ControlFlow.Branch, BranchTarget;
    hide BehindBranch, Machine.PushLong, Machine.AddressError;
    Begins(m, hooked);
    BranchFields(1, d);
    BranchDecodes(Fetched(m), BranchWord(1, d), hooked);
    BsrFaultsAt(m, BranchWord(1, d), d);
  }

  lemma BsrFaultsAt(m: Machine, w: u16, d: u8)
    requires CondField(w) == 1 && w % 0x100 == d && !Even(BranchTarget(m, d))
    ensures var (g, target) := (BehindBranch(m, d), BranchTarget(m, d));
      ControlFlow.Branch(Fetched(m), w) == g.PushLong(g.pc).(pc := target).AddressError(target, true, true)
  {
    hide WordAt, Wrap32, CondField, Holds, Even;
    hide Machine.AddressError, Machine.PushLong;
    TargetIs(m, d);
  }

  // ---- Loops ----

  lemma LoopDecodes(f: Machine, w: u16, hooked: bool)
    requires w / 0x1000 == 5 && SizeField(w) == 3 && EaMode(w) == 1
    ensures Performed(f, w, hooked) == Becomes(ControlFlow.Dbcc(f, w))
  {
    hide SizeField, EaMode, CondField, Quickly, ControlFlow.Dbcc;
  }

  /** DBcc ends when its condition holds, with the counter as it was. Otherwise it counts the low word down and goes to
      its target, unless the count was zero. The displacement counts from behind the opcode word. */
  lemma LoopGoes(m: Machine, cond: Condition, r: Reg, hooked: bool)
    requires Coded(m, 5, cond / 2, 3 + cond % 2 * 4, AddressDirect(r)) && Even(BranchTarget(m, 0))
    ensures var (g, count) := (BehindBranch(m, 0), Low(Word, m.d[r]));
      Executed(m, hooked)
      == if Holds(cond, m.sr) then Becomes(g)
         else if count == 0 then Becomes(g.SetD(r, WithLow(Word, m.d[r], 0xFFFF)))
         else Becomes(g.SetD(r, WithLow(Word, m.d[r], count - 1)).(pc := BranchTarget(m, 0)))
  {
    hide WordAt, Wrap32, Encode, Performed, CondField, EaReg, EaMode, SizeField, Holds, Even, ControlFlow.Dbcc;
    hide BranchTarget, BehindBranch, Low, WithLow;
    Begins(m, hooked);
    EncodedFields(5, cond / 2, 3 + cond % 2 * 4, 1, r);
    LoopDecodes(Fetched(m), WordAt(m.ram, m.pc), hooked);
    LoopAt(m, WordAt(m.ram, m.pc), cond, r);
  }

  lemma LoopAt(m: Machine, w: u16, cond: Condition, r: Reg)
    requires CondField(w) == cond && EaReg(w) == r && Even(BranchTarget(m, 0))
    ensures var (g, count) := (BehindBranch(m, 0), Low(Word, m.d[r]));
      ControlFlow.Dbcc(Fetched(m), w)
      == if Holds(cond, m.sr) then g
         else if count == 0 then g.SetD(r, WithLow(Word, m.d[r], 0xFFFF))
         else g.SetD(r, WithLow(Word, m.d[r], count - 1)).(pc := BranchTarget(m, 0))
  {
    hide WordAt, Wrap32, CondField, EaReg, Holds, Even, Merge;
    hide Machine.AddressError;
    TargetIs(m, 0);
  }

  // ---- A byte of a condition ----

  lemma SetDecodes(f: Machine, w: u16, hooked: bool)
    requires w / 0x1000 == 5 && SizeField(w) == 3 && EaMode(w) != 1
    ensures Performed(f, w, hooked) == FlowInstructions.SetOnCondition(f, w)
  {
    hide SizeField, EaMode, CondField, Quickly, ControlFlow.Dbcc, FlowInstructions.SetOnCondition;
  }

  /** Scc writes ones when its condition holds and zeros otherwise. */
  lemma SetWrites(m: Machine, cond: Condition, ea: Mode, hooked: bool)
    requires Coded(m, 5, cond / 2, 3 + cond % 2 * 4, ea) && ea.Alterable()
    ensures var f := Fetched(m);
      Executed(m, hooked)
      == Becomes(Written(Behind(f, ea, Byte), ea, Address(f, ea, Byte), Byte, if Holds(cond, m.sr) then 0xFF else 0))
  {
    hide WordAt, Wrap32, Encode, Performed, CondField, EaReg, EaMode, SizeField, Holds, Written, Behind, AddressOf;
    hide FlowInstructions.SetOnCondition;
    Begins(m, hooked);
    EncodedFields(5, cond / 2, 3 + cond % 2 * 4, ea.Field(), ea.Register());
    SetDecodes(Fetched(m), WordAt(m.ram, m.pc), hooked);
    SetAt(Fetched(m), WordAt(m.ram, m.pc), cond, ea);
  }

  lemma SetAt(f: Machine, w: u16, cond: Condition, ea: Mode)
    requires CondField(w) == cond && EaMode(w) == ea.Field() && EaReg(w) == ea.Register() && ea.Alterable()
    ensures FlowInstructions.SetOnCondition(f, w)
      == Becomes(Written(Behind(f, ea, Byte), ea, Address(f, ea, Byte), Byte, if Holds(cond, f.sr) then 0xFF else 0))
  {
    hide WordAt, Wrap32, CondField, EaReg, EaMode, Holds, Written, Behind, AddressOf, Place;
    hide Machine.Resolve, Machine.Store;
    SetUp(f, ea, Byte);
    Stores(f, Behind(f, ea, Byte), ea, Byte, if Holds(cond, f.sr) then 0xFF else 0);
  }

  // ---- Jumps and calls ----

  lemma JumpDecodes(f: Machine, w: u16, call: bool, hooked: bool)
    requires w / 0x1000 == 4 && w / 0x40 % 0x40 == if call then 58 else 59
    ensures Performed(f, w, hooked) == Becomes(FlowInstructions.Jump(f, w, call))
  {
    hide Performed, Ordinary, Control, PlainEffects.StatusMoved, ToDestination, PlainEffects.SignExtended, EaMode;
    hide MovemInstructions.StoreRegisters, MovemInstructions.LoadRegisters, FlowInstructions.Jump;
    IsLine4(f, w, hooked);
  }

  /** JMP goes to the address of its operand, and JSR pushes the address behind its extension words first. An odd
      address is an address error, with nothing pushed. */
  lemma JumpGoes(m: Machine, ea: Mode, call: bool, hooked: bool)
    requires Coded(m, 4, 7, if call then 2 else 3, ea) && ea.InMemory()
    ensures var f := Fetched(m);
      var (g, target) := (Behind(f, ea, Long), Address(f, ea, Long));
      Executed(m, hooked)
      == Becomes(if !Even(target) then g.AddressError(target, true, true)
                 else if call then g.PushLong(g.pc).(pc := target)
                 else g.(pc := target))
  {
    hide WordAt, Wrap32, Encode, Performed, EaReg, EaMode, Even, Behind, AddressOf, FlowInstructions.Jump;
    hide Machine.AddressError, Machine.PushLong;
    Begins(m, hooked);
    EncodedFields(4, 7, if call then 2 else 3, ea.Field(), ea.Register());
    JumpDecodes(Fetched(m), WordAt(m.ram, m.pc), call, hooked);
    JumpAt(Fetched(m), WordAt(m.ram, m.pc), ea, call);
  }

  lemma JumpAt(f: Machine, w: u16, ea: Mode, call: bool)
    requires EaMode(w) == ea.Field() && EaReg(w) == ea.Register() && ea.InMemory()
    ensures var (g, target) := (Behind(f, ea, Long), Address(f, ea, Long));
      FlowInstructions.Jump(f, w, call)
      == if !Even(target) then g.AddressError(target, true, true)
         else if call then g.PushLong(g.pc).(pc := target)
         else g.(pc := target)
  {
    hide WordAt, Wrap32, EaReg, EaMode, Even, Behind, AddressOf;
    hide Machine.AddressError, Machine.PushLong, Machine.Resolve;
    SetUp(f, ea, Long);
  }

  // ---- Traps, frames and returns ----

  lemma ControlDecodes(f: Machine, w: u16, hooked: bool)
    requires w / 0x1000 == 4 && w / 0x40 % 0x40 == 57
    ensures Performed(f, w, hooked) == Control(f, w, hooked)
  {
    hide Performed, Ordinary, Control, PlainEffects.StatusMoved, ToDestination, PlainEffects.SignExtended, EaMode;
    hide MovemInstructions.StoreRegisters, MovemInstructions.LoadRegisters, FlowInstructions.Jump;
    IsLine4(f, w, hooked);
  }

  /** The words of the instructions that the nestings of calls, frames and exceptions are made of. */
  lemma ControlWords(m: Machine, n: nat, hooked: bool)
    requires n < 16
    ensures WordAt(m.ram, m.pc) == 0x4E71 ==> Executed(m, hooked) == Becomes(Fetched(m))
    ensures WordAt(m.ram, m.pc) == 0x4E73 ==> Executed(m, hooked) == Becomes(ControlFlow.Rte(Fetched(m)))
    ensures WordAt(m.ram, m.pc) == 0x4E75 ==> Executed(m, hooked) == Becomes(ControlFlow.Rts(Fetched(m)))
    ensures WordAt(m.ram, m.pc) == 0x4E77 ==> Executed(m, hooked) == Becomes(ControlFlow.Rtr(Fetched(m)))
    ensures WordAt(m.ram, m.pc) == 0x4E40 + n && !(n == 15 && hooked) ==>
      Executed(m, hooked) == Becomes(Fetched(m).(oldPc := Fetched(m).pc).Exception(0x80 + 4 * n))
    ensures WordAt(m.ram, m.pc) == 0x4E50 + n && n < 8 ==>
      Executed(m, hooked) == Becomes(ControlFlow.Link(Fetched(m), n))
    ensures WordAt(m.ram, m.pc) == 0x4E58 + n && n < 8 ==>
      Executed(m, hooked) == Becomes(ControlFlow.Unlk(Fetched(m), n))
  {
    hide WordAt, Wrap32, Performed, Control, ControlFlow.Rte, ControlFlow.Rts, ControlFlow.Rtr;
    hide ControlFlow.Link, ControlFlow.Unlk, Machine.Exception;
    var (f, w) := (Fetched(m), WordAt(m.ram, m.pc));
    Begins(m, hooked);
    if w / 0x40 == 0x139 {
      ControlDecodes(f, w, hooked);
      ControlAt(f, w, hooked);
    }
  }

  lemma ControlAt(f: Machine, w: u16, hooked: bool)
    requires w / 0x40 == 0x139
    ensures w == 0x4E71 ==> Control(f, w, hooked) == Becomes(f)
    ensures w == 0x4E73 ==> Control(f, w, hooked) == Becomes(ControlFlow.Rte(f))
    ensures w == 0x4E75 ==> Control(f, w, hooked) == Becomes(ControlFlow.Rts(f))
    ensures w == 0x4E77 ==> Control(f, w, hooked) == Becomes(ControlFlow.Rtr(f))
    ensures 0x4E40 <= w < 0x4E50 && !(w == 0x4E4F && hooked) ==>
      Control(f, w, hooked) == Becomes(f.(oldPc := f.pc).Exception(0x80 + 4 * (w - 0x4E40)))
    ensures 0x4E50 <= w < 0x4E58 ==> Control(f, w, hooked) == Becomes(ControlFlow.Link(f, w - 0x4E50))
    ensures 0x4E58 <= w < 0x4E60 ==> Control(f, w, hooked) == Becomes(ControlFlow.Unlk(f, w - 0x4E58))
  {
    hide ControlFlow.Rte, ControlFlow.Rts, ControlFlow.Rtr, ControlFlow.Link, ControlFlow.Unlk, Machine.Exception;
    hide FlowInstructions.TrapOnOverflow, PlainEffects.UserStackSet, PlainEffects.UserStackRead, PlainEffects.ResetBy;
    hide PlainEffects.Stopped, EaMode, EaReg;
    ControlFields(w);
  }

  lemma ControlFields(w: u16)
    requires w / 0x40 == 0x139
    ensures w < 0x4E60 ==> EaMode(w) == (w - 0x4E40) / 8 && EaReg(w) == (w - 0x4E40) % 8
    ensures w < 0x4E50 ==> w % 0x10 == w - 0x4E40
    ensures 0x4E70 <= w < 0x4E78 ==> EaMode(w) == 6 && EaReg(w) == w - 0x4E70
  {
    Splits(w, 0x9C8 + (w - 0x4E40) / 8, (w - 0x4E40) % 8, 8);
    Splits(0x9C8 + (w - 0x4E40) / 8, 0x139, (w - 0x4E40) / 8, 8);
    if w < 0x4E50 {
      Splits(w, 0x4E4, w - 0x4E40, 0x10);
    }
  }

  /** The words of the privileged instructions without operands, and of TRAPV. */
  lemma SystemWords(m: Machine, n: Reg, hooked: bool)
    ensures var (f, w) := (Fetched(m), WordAt(m.ram, m.pc));
      && (w == 0x4E76 ==>
            Executed(m, hooked)
            == Becomes(if m.sr.v then f.(oldPc := f.pc).Exception(0x1C) else f))
      && (w == 0x4E60 + n && m.sr.sys.s ==> Executed(m, hooked) == Becomes(f.(a := f.a[SP := f.A(n)])))
      && (w == 0x4E68 + n && m.sr.sys.s ==> Executed(m, hooked) == Becomes(f.SetA(n, f.a[SP])))
      && (w == 0x4E70 && m.sr.sys.s ==> Executed(m, hooked) == Becomes(f))
      && (w == 0x4E72 && m.sr.sys.s ==>
            Executed(m, hooked)
            == Becomes(f.(pc := Wrap32(f.Fetch().pc - 4), opcode := f.Fetch().opcode,
                          sr := FromWord(Extension(f, 0)).Filtered())))
      && ((0x4E60 <= w <= 0x4E70 || w == 0x4E72 || w == 0x4E73) && !m.sr.sys.s ==>
            Executed(m, hooked) == Becomes(f.Exception(0x20)))
  {
    hide WordAt, Wrap32, Performed, Control, FromWord, Status.Filtered, Machine.Exception;
    hide Machine.A, Machine.SetA;
    var (f, w) := (Fetched(m), WordAt(m.ram, m.pc));
    Begins(m, hooked);
    if w / 0x40 == 0x139 {
      ControlDecodes(f, w, hooked);
      SystemAt(f, w, n, hooked);
    }
  }

  lemma SystemAt(f: Machine, w: u16, n: Reg, hooked: bool)
    requires w / 0x40 == 0x139
    ensures w == 0x4E76 ==>
      Control(f, w, hooked)
      == Becomes(if f.sr.v then f.(oldPc := f.pc).Exception(0x1C) else f)
    ensures w == 0x4E60 + n && f.sr.sys.s ==> Control(f, w, hooked) == Becomes(f.(a := f.a[SP := f.A(n)]))
    ensures w == 0x4E68 + n && f.sr.sys.s ==> Control(f, w, hooked) == Becomes(f.SetA(n, f.a[SP]))
    ensures w == 0x4E70 && f.sr.sys.s ==> Control(f, w, hooked) == Becomes(f)
    ensures w == 0x4E72 && f.sr.sys.s ==>
      Control(f, w, hooked)
      == Becomes(f.(pc := Wrap32(f.Fetch().pc - 4), opcode := f.Fetch().opcode,
                    sr := FromWord(Extension(f, 0)).Filtered()))
    ensures (0x4E60 <= w <= 0x4E70 || w == 0x4E72 || w == 0x4E73) && !f.sr.sys.s ==>
      Control(f, w, hooked) == Becomes(f.Exception(0x20))
  {
    hide ControlFlow.Rts, ControlFlow.Rtr, ControlFlow.Trap, ControlFlow.Link, ControlFlow.Unlk, WordAt, Wrap32;
    hide Machine.Exception, FromWord, Status.Filtered, Machine.A, Machine.SetA;
    FetchIs(f);
  }

  /** RTR takes the condition codes from the top of the stack and goes to the address above them. */
  lemma RtrReturns(f: Machine)
    requires Even(f.A(SP)) && Even(LongAt(f.ram, Wrap32(f.A(SP) + 2)))
    ensures var (sp: int, o) := (f.A(SP), FromWord(WordAt(f.ram, f.A(SP))));
      ControlFlow.Rtr(f)
      == f.SetA(SP, Wrap32(sp + 6)).(pc := LongAt(f.ram, Wrap32(sp + 2)),
                                     sr := f.sr.(c := o.c, v := o.v, z := o.z, n := o.n, x := o.x))
  {
    hide Wrap32, Even, SameAbove, WordAt, LongAt, FromWord;
    hide Machine.AddressError, Machine.DroppedLong, Machine.TopLong;
    var sp: int := f.A(SP);
    var m1 := f.Dropped().(sr := f.sr.WithCodesOf(FromWord(f.Top())));
    EvenDown(sp, 2);
    TopLongIs(m1);
    SameAboveSelf(m1.ram, m1.A(SP), 4);
    PopLong(m1, m1, 4);
    WrapStep(sp + 2, 4);
    assert f.a[SP := Wrap32(sp + 2)][SP := Wrap32(sp + 6)] == f.a[SP := Wrap32(sp + 6)];
  }

  /** A return to an odd address is an address error reported behind the return instruction, with everything popped:
      here for RTS, whose even case is `CallReturns`. */
  lemma RtsFaults(f: Machine)
    requires Even(f.A(SP)) && !Even(LongAt(f.ram, f.A(SP)))
    ensures ControlFlow.Rts(f) == f.SetA(SP, Wrap32(f.A(SP) + 4)).AddressError(LongAt(f.ram, f.A(SP)), true, true)
  {
    hide Wrap32, Even, SameAbove, WordAt, LongAt;
    hide Machine.AddressError, Machine.DroppedLong, Machine.TopLong;
    TopLongIs(f);
    SameAboveSelf(f.ram, f.A(SP), 4);
    PopLong(f, f, 4);
    assert f.SetA(SP, Wrap32(f.A(SP) + 4)).pc == f.pc;
  }

  /** The same for RTE: the status register is the one that was popped. */
  lemma RteFaults(f: Machine)
    requires f.sr.sys.s && Even(f.ssp) && !Even(LongAt(f.ram, Wrap32(f.ssp + 2)))
    ensures ControlFlow.Rte(f)
      == f.(ssp := Wrap32(f.ssp + 6), sr := FromWord(WordAt(f.ram, f.ssp)).Filtered())
          .AddressError(LongAt(f.ram, Wrap32(f.ssp + 2)), true, true)
  {
    hide Wrap32, Even, SameAbove, WordAt, LongAt, FromWord, Status.Filtered;
    hide Machine.AddressError, Machine.DroppedLong, Machine.TopLong;
    var (m1, sp: int) := (f.Dropped(), f.ssp);
    EvenDown(sp, 2);
    TopLongIs(m1);
    SameAboveSelf(m1.ram, m1.A(SP), 4);
    PopLong(m1, m1, 4);
    WrapStep(sp + 2, 4);
  }

  /** UNLK through an odd frame pointer is an address error of a data read, with nothing changed. */
  lemma UnlkFaults(f: Machine, reg: Reg)
    requires !Even(f.A(reg))
    ensures ControlFlow.Unlk(f, reg) == f.AddressError(f.A(reg), true, false)
  {
    hide Even;
    hide Machine.A, Machine.SetA, Machine.AddressError, Machine.DroppedLong, Machine.TopLong;
  }

  // ---- What is not implemented ----

  /** Words of the lines A and F, forms that do not exist, and operands that name no mode are exceptions reported at
      the instruction, through their own vectors. */
  lemma Unimplemented(m: Machine, hooked: bool)
    ensures var (f, w) := (Fetched(m), WordAt(m.ram, m.pc));
      && (w / 0x1000 == 0xA ==> Executed(m, hooked) == Becomes(f.Exception(0x28)))
      && (w / 0x1000 == 0xF ==> Executed(m, hooked) == Becomes(f.Exception(0x2C)))
      && (w / 0x1000 == 8 && 5 <= OpMode(w) <= 6 && EaMode(w) == 1 ==>
            Executed(m, hooked) == Becomes(f.Exception(0x10)))
      && (w / 0x1000 == 0xC && OpMode(w) == 6 && EaMode(w) == 0 ==> Executed(m, hooked) == Becomes(f.Exception(0x10)))
      && (w / 0x1000 == 0 && EaMode(w) != 1 && CondField(w) == 14 ==> Executed(m, hooked) == Becomes(f.Exception(0x10)))
      && (w / 0x1000 == 0 && EaMode(w) != 1 && CondField(w) in {0, 2, 4, 6, 10, 12} && SizeField(w) == 3 ==>
            Executed(m, hooked) == Becomes(f.Exception(0x10)))
      && (1 <= w / 0x1000 <= 3 && EaMode(w) == 7 && EaReg(w) >= 5 ==> Executed(m, hooked) == Becomes(f.Exception(0x10)))
  {
    hide WordAt, Wrap32, Performed, EaMode, EaReg, OpMode, CondField, SizeField, Machine.Exception;
    Begins(m, hooked);
    UnimplementedAt(Fetched(m), WordAt(m.ram, m.pc), hooked);
  }

  lemma UnimplementedAt(f: Machine, w: u16, hooked: bool)
    ensures w / 0x1000 == 0xA ==> Performed(f, w, hooked) == Becomes(f.Exception(0x28))
    ensures w / 0x1000 == 0xF ==> Performed(f, w, hooked) == Becomes(f.Exception(0x2C))
    ensures w / 0x1000 == 8 && 5 <= OpMode(w) <= 6 && EaMode(w) == 1 ==>
      Performed(f, w, hooked) == Becomes(f.Exception(0x10))
    ensures w / 0x1000 == 0xC && OpMode(w) == 6 && EaMode(w) == 0 ==>
      Performed(f, w, hooked) == Becomes(f.Exception(0x10))
    ensures w / 0x1000 == 0 && EaMode(w) != 1 && CondField(w) == 14 ==>
      Performed(f, w, hooked) == Becomes(f.Exception(0x10))
    ensures w / 0x1000 == 0 && EaMode(w) != 1 && CondField(w) in {0, 2, 4, 6, 10, 12} && SizeField(w) == 3 ==>
      Performed(f, w, hooked) == Becomes(f.Exception(0x10))
    ensures 1 <= w / 0x1000 <= 3 && EaMode(w) == 7 && EaReg(w) >= 5 ==>
      Performed(f, w, hooked) == Becomes(f.Exception(0x10))
  {
    hide EaMode, EaReg, OpMode, OpReg, CondField, SizeField, Machine.Exception, PlainEffects.WrittenTo;
    hide Line4, Line5, LineB, LineE, Additive, ControlFlow.Branch, PlainEffects.MovedQuick, PlainEffects.OperandAt;
    hide FromRegister, FromSource, FromImmediate, CompareImmediate, PlainEffects.LogicWithImmediate;
    hide PlainEffects.BitOperated, PlainEffects.MovedPeripheral, PlainEffects.Exchanged;
  }
}
