/** Single bits, the status register and checks, from the instruction words in memory. */
module BitsAndStatus {
  import opened Words
  import opened StatusRegister
  import opened Memories
  import opened Machines
  import opened Opcodes
  import opened Operations
  import opened Addressing
  import opened Decoding
  import opened DataMovement
  import opened PlainEffects
  import FlowInstructions
  import MovemInstructions
  import Shifts

  // ---- One bit of a value ----

  /** Bit `n` of a value. */
  predicate HasBit(v: int, n: nat) {
    Odd(Shifts.RightQuotient(v, n))
  }

  /** A value with bit `n` on or off. */
  function WithBit(v: int, n: nat, on: bool): int {
    if on == HasBit(v, n) then v else if on then v + Pow(2, n) else v - Pow(2, n)
  }

  lemma {:induction false} BitwiseNone(v: nat, n: nat)
    requires v < Pow(2, n)
    ensures Bitwise(OR, v, 0, n) == v && Bitwise(ANDNOT, v, 0, n) == v
  {
    if n > 0 {
      BitwiseNone(v / 2, n - 1);
    }
  }

  lemma HalfPow(n: nat)
    requires n > 0
    ensures Pow(2, n) == 2 * Pow(2, n - 1) && Pow(2, n) / 2 == Pow(2, n - 1) && !Odd(Pow(2, n))
  {
    ParityIs(Pow(2, n), Pow(2, n - 1), 0);
  }

  /** OR and AND NOT with a power of two change that bit only. */
  lemma {:induction false} BitwiseOne(v: nat, i: nat, n: nat)
    requires i < n && v < Pow(2, n)
    ensures Bitwise(OR, v, Pow(2, i), n) == WithBit(v, i, true)
    ensures Bitwise(ANDNOT, v, Pow(2, i), n) == WithBit(v, i, false)
  {
    hide Shifts.RightQuotient, Pow;
    HalfPow(n);
    if i == 0 {
      LowestBit(v, n);
    } else {
      hide Bitwise;
      HalfPow(i);
      HalfFirst(v, i);
      BitwiseOne(v / 2, i - 1, n - 1);
      BitwiseStep(OR, v, Pow(2, i), n);
      BitwiseStep(ANDNOT, v, Pow(2, i), n);
    }
  }

  lemma BitwiseStep(logic: Logic, a: nat, b: nat, n: nat)
    requires n > 0 && !Odd(b) && !logic.Bit(false, false) && logic.Bit(true, false)
    ensures Bitwise(logic, a, b, n) == a % 2 + 2 * Bitwise(logic, a / 2, b / 2, n - 1)
  {
  }

  lemma LowestBit(v: nat, n: nat)
    requires n > 0 && v < Pow(2, n)
    ensures Bitwise(OR, v, Pow(2, 0), n) == WithBit(v, 0, true)
    ensures Bitwise(ANDNOT, v, Pow(2, 0), n) == WithBit(v, 0, false)
  {
    hide Shifts.RightQuotient, Pow;
    HalfPow(n);
    PowZero();
    Shifts.RightZero(v);
    BitwiseNone(v / 2, n - 1);
  }

  lemma PowZero()
    ensures Pow(2, 0) == 1
  {
  }

  // ---- BTST, BCHG, BCLR and BSET ----

  type Action = a: int | 0 <= a < 4

  /** Test, change, clear or set, as the instruction words number them. */
  predicate Turns(action: Action, bit: bool) {
    action == 3 || (action == 1 && !bit)
  }

  /** A long in a data register, a byte elsewhere. */
  function BitSize(ea: Mode): Size {
    if ea.DataDirect? then Long else Byte
  }

  function Changed(sz: Size, v: u32, n: nat, on: bool): (r: u32)
    requires n < sz.Bits() && v < sz.Modulus()
    ensures r < sz.Modulus()
  {
    Shifts.PowBits(sz);
    BitwiseOne(v, n, sz.Bits());
    WithBit(v, n, on)
  }

  /** Z tells whether the bit was clear; then the bit is left, changed, cleared or set, and nothing else of the
      operand. The number counts modulo the bits of the operand. */
  function BitDone(f: Machine, ea: Mode, number: nat, action: Action): Machine {
    var sz := BitSize(ea);
    var (v, n) := (ValueOf(f, ea, sz), number % sz.Bits());
    var g := Behind(f, ea, sz).(sr := f.sr.(z := !HasBit(v, n)));
    if action == 0 then g
    else Written(g, ea, Address(f, ea, sz), sz, Changed(sz, v, n, Turns(action, HasBit(v, n))))
  }

  predicate BitOperand(ea: Mode, action: Action) {
    ea.Alterable() || (action == 0 && ea.InMemory())
  }

  lemma BitAt(f: Machine, w: u16, ea: Mode, number: nat, action: Action, width: int)
    requires EaMode(w) == ea.Field() && EaReg(w) == ea.Register() && BitOperand(ea, action)
    requires width == if ea.DataDirect? then 8 else 1
    ensures var sz := BitSize(ea);
      BitChanged(f, w, width, sz, number % sz.Bits(), action) == Becomes(BitDone(f, ea, number, action))
  {
    hide WordAt, Wrap32, EaMode, EaReg, AddressOf, Behind, ValueOf, Place, Written, Bitwise, Shifts.RightQuotient;
    hide Machine.Resolve, Machine.Load, Machine.Store, WithBit, Pow;
    var sz := BitSize(ea);
    var (v, n) := (ValueOf(f, ea, sz), number % sz.Bits());
    SetUpBit(f, ea, width);
    Loads(f, ea, sz, false);
    BehindKeeps(f, ea, sz);
    Shifts.PowBits(sz);
    BitwiseOne(v, n, sz.Bits());
    if action != 0 {
      Stores(f, Behind(f, ea, sz).(sr := f.sr.(z := !HasBit(v, n))), ea, sz,
             Changed(sz, v, n, Turns(action, HasBit(v, n))));
    }
  }

  lemma SetUpBit(f: Machine, ea: Mode, width: int)
    requires ea.DataDirect? || width == 1
    ensures f.Resolve(ea.Register(), ea.Field(), width) == At(Behind(f, ea, BitSize(ea)), Place(f, ea, BitSize(ea)))
  {
    hide Machine.Resolve, AddressOf;
    if ea.DataDirect? {
      DirectSetUp(f, ea, width);
    } else {
      SetUp(f, ea, Byte);
    }
  }

  lemma BitDecodes(f: Machine, w: u16, immediate: bool, hooked: bool)
    requires w / 0x1000 == 0 && EaMode(w) != 1
    requires if immediate then CondField(w) == 8 else CondField(w) % 2 == 1
    ensures Performed(f, w, hooked) == BitOperated(f, w, immediate, SizeField(w))
  {
    hide CondField, SizeField, EaMode, BitOperated, MovedPeripheral, LogicWithImmediate, FromImmediate;
    hide CompareImmediate;
  }

  /** BTST, BCHG, BCLR and BSET with the bit number in a data register. */
  lemma BitByRegister(m: Machine, x: Reg, action: Action, ea: Mode, hooked: bool)
    requires Coded(m, 0, x, 4 + action, ea) && BitOperand(ea, action)
    ensures Executed(m, hooked) == Becomes(BitDone(Fetched(m), ea, m.d[x], action))
  {
    hide WordAt, Wrap32, Encode, EaReg, EaMode, OpReg, CondField, SizeField, Performed, BitDone, BitChanged;
    var (f, w) := (Fetched(m), WordAt(m.ram, m.pc));
    Begins(m, hooked);
    EncodedFields(0, x, 4 + action, ea.Field(), ea.Register());
    ParityIs(CondField(w), x, 1);
    BitDecodes(f, w, false, hooked);
    BitAt(f, w, ea, m.d[x], action, if ea.DataDirect? then 8 else 1);
  }

  /** The same with the number in the word that follows, before the extension words of the operand. */
  lemma BitByNumber(m: Machine, action: Action, ea: Mode, hooked: bool)
    requires Coded(m, 0, 4, action, ea) && BitOperand(ea, action)
    ensures var (f, g) := (Fetched(m), Behind(Fetched(m), ImmediateData, Word));
      Executed(m, hooked) == Becomes(BitDone(g, ea, ValueOf(f, ImmediateData, Word), action))
  {
    hide WordAt, Wrap32, Encode, EaReg, EaMode, OpReg, CondField, SizeField, Performed, BitDone, BitChanged;
    var (f, w) := (Fetched(m), WordAt(m.ram, m.pc));
    Begins(m, hooked);
    EncodedFields(0, 4, action, ea.Field(), ea.Register());
    BitDecodes(f, w, true, hooked);
    NumberFetched(f);
    BitAt(Behind(f, ImmediateData, Word), w, ea, ValueOf(f, ImmediateData, Word), action,
          if ea.DataDirect? then 8 else 1);
  }

  lemma NumberFetched(f: Machine)
    ensures f.Fetch() == Behind(f, ImmediateData, Word) && f.Fetch().opcode == ValueOf(f, ImmediateData, Word)
  {
    hide WordAt, Wrap32;
    FetchIs(f);
  }

  /** TAS sets the codes of a byte and then its top bit. */
  lemma TasSets(m: Machine, ea: Mode, hooked: bool)
    requires Coded(m, 4, 5, 3, ea) && ea.Alterable()
    ensures var f := Fetched(m);
      var v := ValueOf(f, ea, Byte);
      Executed(m, hooked)
      == Becomes(Written(Tested(Behind(f, ea, Byte), Byte, v), ea, Address(f, ea, Byte), Byte,
                         if v < 0x80 then v + 0x80 else v))
  {
    hide WordAt, Wrap32, Encode, EaReg, EaMode, Performed, Ordinary, TestedAndSet, ValueOf, Behind, AddressOf, Written;
    hide Tested;
    var (f, w) := (Fetched(m), WordAt(m.ram, m.pc));
    Begins(m, hooked);
    EncodedFields(4, 5, 3, ea.Field(), ea.Register());
    OrdinaryDecodes(f, w, hooked);
    OneOperandCases(f, w, Byte);
    TasAt(f, w, ea);
  }

  lemma TasAt(f: Machine, w: u16, ea: Mode)
    requires EaMode(w) == ea.Field() && EaReg(w) == ea.Register() && ea.Alterable()
    ensures var v := ValueOf(f, ea, Byte);
      TestedAndSet(f, w)
      == Becomes(Written(Tested(Behind(f, ea, Byte), Byte, v), ea, Address(f, ea, Byte), Byte,
                         if v < 0x80 then v + 0x80 else v))
  {
    hide WordAt, Wrap32, EaMode, EaReg, AddressOf, Behind, ValueOf, Place, Written, Bitwise, Signed;
    hide Machine.Resolve, Machine.Load, Machine.Store;
    var v := ValueOf(f, ea, Byte);
    SetUp(f, ea, Byte);
    Loads(f, ea, Byte, false);
    TopBitSet(v);
    Stores(f, Tested(Behind(f, ea, Byte), Byte, v), ea, Byte, if v < 0x80 then v + 0x80 else v);
  }

  lemma TopBitSet(v: u8)
    ensures Bitwise(OR, v, 0x80, 8) == if v < 0x80 then v + 0x80 else v
  {
    assert Pow(2, 7) == 0x80 && Pow(2, 8) == 0x100 by { PowerOfTwo7(); }
    BitwiseOne(v, 7, 8);
    hide Bitwise;
  }

  lemma PowerOfTwo7()
    ensures Pow(2, 7) == 0x80 && Pow(2, 8) == 0x100
  {
    assert Pow(2, 4) == 16 && Pow(2, 3) == 8;
    PowAdd(2, 4, 3);
    PowAdd(2, 4, 4);
  }

  // ---- The status register ----

  lemma StatusCases(f: Machine, w: u16)
    ensures w / 0x40 % 0x40 == 3 ==> Ordinary(f, w, w / 0x40 % 0x40) == StatusRead(f, w)
    ensures w / 0x40 % 0x40 == 19 ==> Ordinary(f, w, w / 0x40 % 0x40) == CodesMoved(f, w)
    ensures w / 0x40 % 0x40 % 8 == 6 ==> Ordinary(f, w, w / 0x40 % 0x40) == Checked(f, w)
  {
    hide AddressLoaded, StatusRead, Cleared, Checked, CodesMoved, Swapped, AddressPushed, Examined, TestedAndSet;
    hide EaMode;
  }

  /** MOVE to CCR takes the five codes from the low bits of a word, and nothing else. */
  lemma CodesAreMoved(m: Machine, ea: Mode, hooked: bool)
    requires Coded(m, 4, 2, 3, ea) && Readable(Fetched(m), ea, Word)
    ensures var f := Fetched(m);
      var o := FromWord(ValueOf(f, ea, Word));
      Executed(m, hooked)
      == Becomes(Behind(f, ea, Word).(sr := m.sr.(c := o.c, v := o.v, z := o.z, n := o.n, x := o.x)))
  {
    hide WordAt, Wrap32, Encode, EaReg, EaMode, Performed, Ordinary, CodesMoved, ValueOf, Behind, AddressOf, Readable;
    hide FromWord;
    var (f, w) := (Fetched(m), WordAt(m.ram, m.pc));
    Begins(m, hooked);
    EncodedFields(4, 2, 3, ea.Field(), ea.Register());
    OrdinaryDecodes(f, w, hooked);
    StatusCases(f, w);
    CodesAt(f, w, ea);
  }

  lemma CodesAt(f: Machine, w: u16, ea: Mode)
    requires EaMode(w) == ea.Field() && EaReg(w) == ea.Register() && Readable(f, ea, Word)
    ensures var o := FromWord(ValueOf(f, ea, Word));
      CodesMoved(f, w) == Becomes(Behind(f, ea, Word).(sr := f.sr.(c := o.c, v := o.v, z := o.z, n := o.n, x := o.x)))
  {
    hide WordAt, Wrap32, EaMode, EaReg, AddressOf, Behind, ValueOf, Place, Accessible, FromWord;
    hide Machine.Resolve, Machine.Load;
    SetUp(f, ea, Word);
    Loads(f, ea, Word, true);
    BehindKeeps(f, ea, Word);
    SmallWord(ValueOf(f, ea, Word));
  }

  lemma SmallWord(v: u32)
    requires v < 0x1_0000
    ensures v % 0x1_0000 == v
  {
  }

  lemma StatusDecodes(f: Machine, w: u16, hooked: bool)
    requires w / 0x1000 == 4 && w / 0x40 % 0x40 == 27
    ensures Performed(f, w, hooked) == StatusMoved(f, w)
  {
    hide Performed, Ordinary, Control, StatusMoved, ToDestination, SignExtended, EaMode;
    hide MovemInstructions.StoreRegisters, MovemInstructions.LoadRegisters, FlowInstructions.Jump;
    IsLine4(f, w, hooked);
  }

  /** MOVE to SR takes the implemented bits of a word in supervisor mode, and is a privilege violation in user mode. */
  lemma StatusIsMoved(m: Machine, ea: Mode, hooked: bool)
    requires Coded(m, 4, 3, 3, ea) && Readable(Fetched(m), ea, Word)
    ensures var f := Fetched(m);
      Executed(m, hooked)
      == if !m.sr.sys.s then Becomes(f.Exception(0x20))
         else Becomes(Behind(f, ea, Word).(sr := FromWord(ValueOf(f, ea, Word)).Filtered()))
  {
    hide WordAt, Wrap32, Encode, EaReg, EaMode, Performed, StatusMoved, ValueOf, Behind, AddressOf, Readable;
    hide FromWord, Status.Filtered, Machine.Exception;
    var (f, w) := (Fetched(m), WordAt(m.ram, m.pc));
    Begins(m, hooked);
    EncodedFields(4, 3, 3, ea.Field(), ea.Register());
    StatusDecodes(f, w, hooked);
    StatusAt(f, w, ea);
  }

  lemma StatusAt(f: Machine, w: u16, ea: Mode)
    requires EaMode(w) == ea.Field() && EaReg(w) == ea.Register() && Readable(f, ea, Word)
    ensures StatusMoved(f, w)
      == if !f.sr.sys.s then Becomes(f.Exception(0x20))
         else Becomes(Behind(f, ea, Word).(sr := FromWord(ValueOf(f, ea, Word)).Filtered()))
  {
    hide WordAt, Wrap32, EaMode, EaReg, AddressOf, Behind, ValueOf, Place, Accessible, FromWord, Status.Filtered;
    hide Machine.Resolve, Machine.Load, Machine.Exception;
    SetUp(f, ea, Word);
    Loads(f, ea, Word, true);
    SmallWord(ValueOf(f, ea, Word));
  }

  /** MOVE from SR stores the whole register as a word. */
  lemma StatusIsRead(m: Machine, ea: Mode, hooked: bool)
    requires Coded(m, 4, 0, 3, ea) && ea.Alterable() && Accessible(Fetched(m), ea, Word)
    ensures var f := Fetched(m);
      Executed(m, hooked) == Becomes(Written(Behind(f, ea, Word), ea, Address(f, ea, Word), Word, m.sr.ToWord()))
  {
    hide WordAt, Wrap32, Encode, EaReg, EaMode, Performed, Ordinary, StatusRead, Behind, AddressOf, Accessible, Written;
    hide Status.ToWord;
    var (f, w) := (Fetched(m), WordAt(m.ram, m.pc));
    Begins(m, hooked);
    EncodedFields(4, 0, 3, ea.Field(), ea.Register());
    OrdinaryDecodes(f, w, hooked);
    StatusCases(f, w);
    ReadAt(f, w, ea);
  }

  lemma ReadAt(f: Machine, w: u16, ea: Mode)
    requires EaMode(w) == ea.Field() && EaReg(w) == ea.Register() && ea.Alterable() && Accessible(f, ea, Word)
    ensures StatusRead(f, w)
      == Becomes(Written(Behind(f, ea, Word), ea, Address(f, ea, Word), Word, f.sr.ToWord()))
  {
    hide WordAt, Wrap32, EaMode, EaReg, AddressOf, Behind, ValueOf, Place, Accessible, Written, Status.ToWord;
    hide Machine.Resolve, Machine.Load, Machine.Store;
    SetUp(f, ea, Word);
    Loads(f, ea, Word, false);
    BehindKeeps(f, ea, Word);
    Stores(f, Behind(f, ea, Word), ea, Word, f.sr.ToWord());
  }

  /** ORI, ANDI and EORI to CCR (a byte) and to SR (a word, privileged): the words of the six instructions. */
  function StatusWord(logic: Logic, whole: bool): u16 {
    (match logic case OR => 0 case AND => 0x200 case _ => 0xA00) + if whole then 0x7C else 0x3C
  }

  lemma StatusWordFields(logic: Logic, whole: bool)
    ensures var w := StatusWord(logic, whole);
      && w / 0x1000 == 0 && EaMode(w) == 7 && EaReg(w) == 4
      && CondField(w) == (match logic case OR => 0 case AND => 2 case _ => 10)
      && SizeField(w) == if whole then 1 else 0
  {
  }

  lemma LogicDecodes(f: Machine, w: u16, logic: Logic, whole: bool, hooked: bool)
    requires logic != ANDNOT && w / 0x1000 == 0 && EaMode(w) == 7
    requires CondField(w) == match logic case OR => 0 case AND => 2 case _ => 10
    requires SizeField(w) == if whole then 1 else 0
    ensures Performed(f, w, hooked) == LogicWithImmediate(f, w, if whole then Word else Byte, logic)
  {
    hide CondField, SizeField, EaMode, BitOperated, MovedPeripheral, LogicWithImmediate, FromImmediate;
    hide CompareImmediate;
  }

  /** Each condition code becomes the operator on itself and on its bit of the immediate; to SR so does the interrupt
      mask, the supervisor and the trace bit. In user mode the form for SR is a privilege violation. */
  lemma LogicOnStatus(m: Machine, logic: Logic, whole: bool, hooked: bool)
    requires logic != ANDNOT && WordAt(m.ram, m.pc) == StatusWord(logic, whole)
    ensures Executed(m, hooked).Becomes?
    ensures var (f, m', sr) := (Fetched(m), Executed(m, hooked).m, m.sr);
      var g := Behind(f, ImmediateData, Word);
      var o := FromWord(if whole then ValueOf(f, ImmediateData, Word) else ValueOf(f, ImmediateData, Byte));
      if whole && !sr.sys.s then m' == g.Exception(0x20)
      else
        && m' == g.(sr := m'.sr) && CodesLogic(logic, sr, o, m'.sr)
        && if whole then SystemLogic(logic, sr.sys, o.sys, m'.sr.sys) else SystemSame(sr.sys, m'.sr.sys)
  {
    hide WordAt, Wrap32, EaReg, EaMode, CondField, SizeField, Performed, LogicWithImmediate, ValueOf, Behind;
    hide FromWord, StatusWord, Machine.Exception, CodesLogic, SystemLogic, SystemSame;
    var (f, w) := (Fetched(m), WordAt(m.ram, m.pc));
    Begins(m, hooked);
    StatusWordFields(logic, whole);
    LogicDecodes(f, w, logic, whole, hooked);
    LogicAt(f, w, logic, whole);
  }

  predicate CodesLogic(logic: Logic, sr: Status, o: Status, sr': Status) {
    && sr'.c == logic.Bit(sr.c, o.c) && sr'.v == logic.Bit(sr.v, o.v) && sr'.z == logic.Bit(sr.z, o.z)
    && sr'.n == logic.Bit(sr.n, o.n) && sr'.x == logic.Bit(sr.x, o.x)
  }

  predicate SystemLogic(logic: Logic, b: SystemBits, o: SystemBits, b': SystemBits) {
    && b'.i0 == logic.Bit(b.i0, o.i0) && b'.i1 == logic.Bit(b.i1, o.i1) && b'.i2 == logic.Bit(b.i2, o.i2)
    && b'.s == logic.Bit(b.s, o.s) && b'.t1 == logic.Bit(b.t1, o.t1)
  }

  predicate SystemSame(b: SystemBits, b': SystemBits) {
    b'.i0 == b.i0 && b'.i1 == b.i1 && b'.i2 == b.i2 && b'.s == b.s && b'.t1 == b.t1
  }

  lemma LogicAt(f: Machine, w: u16, logic: Logic, whole: bool)
    requires logic != ANDNOT && EaMode(w) == 7 && EaReg(w) == 4
    ensures LogicWithImmediate(f, w, if whole then Word else Byte, logic).Becomes?
    ensures var (m', sr) := (LogicWithImmediate(f, w, if whole then Word else Byte, logic).m, f.sr);
      var g := Behind(f, ImmediateData, Word);
      var o := FromWord(if whole then ValueOf(f, ImmediateData, Word) else ValueOf(f, ImmediateData, Byte));
      if whole && !sr.sys.s then m' == g.Exception(0x20)
      else
        && m' == g.(sr := m'.sr) && CodesLogic(logic, sr, o, m'.sr)
        && if whole then SystemLogic(logic, sr.sys, o.sys, m'.sr.sys) else SystemSame(sr.sys, m'.sr.sys)
  {
    hide WordAt, Wrap32, EaReg, EaMode, FromWord, Machine.Exception, FromImmediate;
    ImmediateStatus(f);
    var v := if whole then ValueOf(f, ImmediateData, Word) else ValueOf(f, ImmediateData, Byte);
    SmallWord(v);
    hide ValueOf, Behind, Immediately;
    hide LogicCodes, LogicStatus, CodesLogic, SystemLogic, SystemSame;
    MaskedCodes(logic, f.sr, FromWord(v));
    MaskedStatus(logic, f.sr, FromWord(v));
  }

  lemma ImmediateStatus(f: Machine)
    ensures Immediately(f, Word) == (Behind(f, ImmediateData, Word), ValueOf(f, ImmediateData, Word))
    ensures Immediately(f, Byte) == (Behind(f, ImmediateData, Word), ValueOf(f, ImmediateData, Byte))
    ensures Behind(f, ImmediateData, Word).sr == f.sr
  {
    hide WordAt, Wrap32;
    FetchIs(f);
  }

  lemma CombinedCodes(logic: Logic, sr: Status, o: Status, o': Status)
    requires o' == o.(sys := o'.sys)
    ensures CodesLogic(logic, sr, o, sr.Combine(logic, o'))
    ensures sr.Combine(logic, o').sys == sr.sys.Combine(logic, o'.sys)
  {
    hide Logic.Bit, SystemBits.Combine;
  }

  lemma MaskedCodes(logic: Logic, sr: Status, o: Status)
    requires logic != ANDNOT
    ensures var r := LogicCodes(logic, sr, o);
      CodesLogic(logic, sr, o, r) && SystemSame(sr.sys, r.sys)
  {
    hide CodesLogic, SystemBits.Combine, UpperOnes, NoBits, SystemSame, Status.Combine;
    CombinedCodes(logic, sr, o, if logic == AND then o.LowByteOnly() else o.CodesOnly());
    CodesLeaveSystem(logic, sr.sys, o.sys);
  }

  lemma MaskedStatus(logic: Logic, sr: Status, o: Status)
    ensures var r := LogicStatus(logic, sr, o);
      CodesLogic(logic, sr, o, r) && SystemLogic(logic, sr.sys, o.sys, r.sys)
  {
    hide CodesLogic, SystemBits.Combine, SystemBits.Filtered, SystemLogic, Status.Combine;
    CombinedCodes(logic, sr, o, if logic == AND then o else o.Filtered());
    StatusMasksSystem(logic, sr.sys, o.sys);
  }

  lemma CodesLeaveSystem(logic: Logic, b: SystemBits, o: SystemBits)
    requires logic != ANDNOT
    ensures SystemSame(b, b.Combine(logic, if logic == AND then UpperOnes(o) else NoBits()))
  {
  }

  lemma StatusMasksSystem(logic: Logic, b: SystemBits, o: SystemBits)
    ensures SystemLogic(logic, b, o, b.Combine(logic, if logic == AND then o else o.Filtered()))
  {
    hide Logic.Bit;
  }

  // ---- Checks ----

  /** CHK raises its exception, at the instruction behind it, exactly when the low word of the register is negative or
      above the operand; N tells whether it is negative. */
  lemma ChkChecks(m: Machine, x: Reg, ea: Mode, hooked: bool)
    requires Coded(m, 4, x, 6, ea) && Readable(Fetched(m), ea, Word)
    ensures var f := Fetched(m);
      var (value, bound) := (Signed(Word, Low(Word, m.d[x])), Signed(Word, ValueOf(f, ea, Word)));
      var g := Behind(f, ea, Word).(sr := m.sr.(n := value < 0, z := false, v := false, c := false));
      Executed(m, hooked)
      == Becomes(if value < 0 || value > bound then g.Framed(0x18) else g)
  {
    hide WordAt, Wrap32, Encode, EaReg, EaMode, OpReg, Performed, Ordinary, Checked, ValueOf, Behind, AddressOf;
    hide Readable, Signed, Low, Machine.Framed;
    var (f, w) := (Fetched(m), WordAt(m.ram, m.pc));
    Begins(m, hooked);
    EncodedFields(4, x, 6, ea.Field(), ea.Register());
    OrdinaryDecodes(f, w, hooked);
    StatusCases(f, w);
    ChkAt(f, w, x, ea);
  }

  lemma ChkAt(f: Machine, w: u16, x: Reg, ea: Mode)
    requires EaMode(w) == ea.Field() && EaReg(w) == ea.Register() && OpReg(w) == x && Readable(f, ea, Word)
    ensures var (value, bound) := (Signed(Word, Low(Word, f.d[x])), Signed(Word, ValueOf(f, ea, Word)));
      var g := Behind(f, ea, Word).(sr := f.sr.(n := value < 0, z := false, v := false, c := false));
      Checked(f, w) == Becomes(if value < 0 || value > bound then g.Framed(0x18) else g)
  {
    hide WordAt, Wrap32, EaMode, EaReg, OpReg, AddressOf, Behind, ValueOf, Place, Accessible, Signed, Low, Truncate;
    hide Machine.Resolve, Machine.Load, Machine.Framed;
    SetUp(f, ea, Word);
    Loads(f, ea, Word, true);
    LoadIgnoresCodes(f, ea);
    BehindKeeps(f, ea, Word);
    LowIs(Word, f.d[x]);
  }

  lemma LoadIgnoresCodes(f: Machine, ea: Mode)
    requires Readable(f, ea, Word)
    ensures forall sr: Status :: sr.sys == f.sr.sys ==>
      Behind(f, ea, Word).(sr := sr).Load(Place(f, ea, Word), Word, true) == Value(ValueOf(f, ea, Word))
  {
    hide WordAt, Wrap32, AddressOf, Read16, Behind;
    hide Machine.AddressError, Machine.Exception;
    BehindKeeps(f, ea, Word);
    Loads(f, ea, Word, true);
  }

  // ---- MOVEP ----

  /** The address of MOVEP: a displacement from an address register. */
  function PeripheralAt(m: Machine, y: Reg): u32 {
    Wrap32(m.A(y) + Signed(Word, Extension(Fetched(m), 0)))
  }

  lemma MovepDecodes(f: Machine, w: u16, hooked: bool)
    requires w / 0x1000 == 0 && EaMode(w) == 1
    ensures Performed(f, w, hooked) == Becomes(MovedPeripheral(f, w))
  {
    hide CondField, SizeField, EaMode, BitOperated, MovedPeripheral, LogicWithImmediate, FromImmediate;
    hide CompareImmediate;
  }

  /** MOVEP reads or writes every other byte from its address on, the most significant one first; the bytes between
      them are not touched. First to a register. */
  lemma MovepReads(m: Machine, x: Reg, y: Reg, long: bool, hooked: bool)
    requires Coded(m, 0, x, if long then 5 else 4, AddressDirect(y))
    ensures var (g, at: int) := (Behind(Fetched(m), Displaced(y), Word), PeripheralAt(m, y));
      var (b0, b1) := (Read8(m.ram, at), Read8(m.ram, at + 2));
      Executed(m, hooked)
      == Becomes(if !long then g.SetD(x, WithLow(Word, m.d[x], b0 * 0x100 + b1))
                 else g.SetD(x, b0 * 0x100_0000 + b1 * 0x1_0000 + Read8(m.ram, at + 4) * 0x100 + Read8(m.ram, at + 6)))
  {
    hide WordAt, Wrap32, Encode, EaReg, EaMode, OpReg, OpMode, Performed, MovedPeripheral, Behind, PeripheralAt, Cell;
    var (f, w) := (Fetched(m), WordAt(m.ram, m.pc));
    Begins(m, hooked);
    EncodedFields(0, x, if long then 5 else 4, 1, y);
    MovepDecodes(f, w, hooked);
    MovepAt(m, f, w, x, y, long);
  }

  lemma MovepAt(m: Machine, f: Machine, w: u16, x: Reg, y: Reg, long: bool)
    requires f == Fetched(m) && EaReg(w) == y && OpReg(w) == x && OpMode(w) == if long then 5 else 4
    ensures var (g, at: int) := (Behind(f, Displaced(y), Word), PeripheralAt(m, y));
      var (b0, b1) := (Read8(m.ram, at), Read8(m.ram, at + 2));
      MovedPeripheral(f, w)
      == if !long then g.SetD(x, WithLow(Word, m.d[x], b0 * 0x100 + b1))
         else g.SetD(x, b0 * 0x100_0000 + b1 * 0x1_0000 + Read8(m.ram, at + 4) * 0x100 + Read8(m.ram, at + 6))
  {
    hide WordAt, Wrap32, EaReg, OpReg, OpMode, Cell, Merge, Read8, PeripheralRead;
    FetchIs(f);
    PeripheralIs(Behind(f, Displaced(y), Word), x, PeripheralAt(m, y), long);
  }

  lemma PeripheralIs(g: Machine, x: Reg, at: int, long: bool)
    ensures var (b0, b1) := (Read8(g.ram, at), Read8(g.ram, at + 2));
      PeripheralRead(g, x, at, long)
      == if !long then g.SetD(x, WithLow(Word, g.d[x], b0 * 0x100 + b1))
         else g.SetD(x, b0 * 0x100_0000 + b1 * 0x1_0000 + Read8(g.ram, at + 4) * 0x100 + Read8(g.ram, at + 6))
  {
    hide EveryOther, Merge, Read8, Join8, Join16;
    PeripheralByte(g.ram, at, 0);
    PeripheralByte(g.ram, at, 1);
    PeripheralByte(g.ram, at, 2);
    PeripheralByte(g.ram, at, 3);
    BytesJoin(Read8(g.ram, at), Read8(g.ram, at + 2), Read8(g.ram, at + 4), Read8(g.ram, at + 6));
  }

  lemma BytesJoin(b0: u8, b1: u8, b2: u8, b3: u8)
    ensures Join8(b0, b1) == b0 * 0x100 + b1
    ensures Join16(Join8(b0, b1), Join8(b2, b3)) == b0 * 0x100_0000 + b1 * 0x1_0000 + b2 * 0x100 + b3
  {
  }

  /** Byte `i` of a word or a long, the most significant first. */
  function ByteOf(v: u32, long: bool, i: nat): u8
    requires i < if long then 4 else 2
  {
    match if long then i else i + 2
    case 0 => v / 0x100_0000
    case 1 => v / 0x1_0000 % 0x100
    case 2 => v / 0x100 % 0x100
    case _ => v % 0x100
  }

  /** And from a register. */
  lemma MovepWrites(m: Machine, x: Reg, y: Reg, long: bool, hooked: bool)
    requires Coded(m, 0, x, if long then 7 else 6, AddressDirect(y))
    ensures Executed(m, hooked).Becomes?
    ensures var (m', at: int, n) := (Executed(m, hooked).m, PeripheralAt(m, y), if long then 4 else 2);
      && m' == Behind(Fetched(m), Displaced(y), Word).(ram := m'.ram)
      && (forall i: nat :: i < n ==> m'.ram[Cell(at + 2 * i)] == ByteOf(m.d[x], long, i))
      && (forall k :: 0 <= k < MEM_MAX && (forall i: nat :: i < n ==> Cell(at + 2 * i) != k) ==> m'.ram[k] == m.ram[k])
  {
    hide WordAt, Wrap32, Encode, EaReg, EaMode, OpReg, OpMode, Performed, MovedPeripheral, Behind, PeripheralAt, Cell;
    hide ByteOf;
    var (f, w) := (Fetched(m), WordAt(m.ram, m.pc));
    Begins(m, hooked);
    EncodedFields(0, x, if long then 7 else 6, 1, y);
    MovepDecodes(f, w, hooked);
    MovepOut(m, f, w, x, y, long);
    PeripheralBytes(m.ram, m.d[x], PeripheralAt(m, y), long);
  }

  lemma MovepOut(m: Machine, f: Machine, w: u16, x: Reg, y: Reg, long: bool)
    requires f == Fetched(m) && EaReg(w) == y && OpReg(w) == x && OpMode(w) == if long then 7 else 6
    ensures MovedPeripheral(f, w)
      == Behind(f, Displaced(y), Word).(ram := PeripheralWritten(m.ram, m.d[x], PeripheralAt(m, y), long))
  {
    hide WordAt, Wrap32, EaReg, OpReg, OpMode, PeripheralWritten;
    FetchIs(f);
  }

  lemma PeripheralBytes(ram: Ram, v: u32, at: int, long: bool)
    ensures var (ram', n) := (PeripheralWritten(ram, v, at, long), if long then 4 else 2);
      && (forall i: nat :: i < n ==> ram'[Cell(at + 2 * i)] == ByteOf(v, long, i))
      && (forall k :: 0 <= k < MEM_MAX && (forall i: nat :: i < n ==> Cell(at + 2 * i) != k) ==> ram'[k] == ram[k])
  {
    hide Wrap32, Cell;
    WrapCell(at + 0);
    WrapCell(at + 2);
    WrapCell(at + 4);
    WrapCell(at + 6);
    DistinctCells(at, 0, 2);
    DistinctCells(at, 0, 4);
    DistinctCells(at, 0, 6);
    DistinctCells(at, 2, 4);
    DistinctCells(at, 2, 6);
    DistinctCells(at, 4, 6);
  }

  lemma PeripheralByte(ram: Ram, at: int, i: int)
    ensures EveryOther(ram, at, i) == Read8(ram, at + 2 * i)
  {
    hide Wrap32, Cell;
    WrapCell(at + 2 * i);
  }
}
