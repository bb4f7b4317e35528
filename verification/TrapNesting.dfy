/** Well-nested exceptions: each RTE restores the program counter, the whole status register and the supervisor
    stack pointer of its exception, from either mode, and neither touches the user stack pointer. */
module TrapNesting {
  import opened Words
  import opened StatusRegister
  import opened Memories
  import opened Machines
  import opened Opcodes
  import opened ControlFlow
  import opened Regions
  import opened CallNesting

  // ---- The exception frame ----

  lemma PushSspKeeps(m: Machine, value: u16, live: nat)
    requires Even(m.ssp) && live + 2 <= MEM_MAX
    ensures var m' := m.PushSsp(value);
      && m' == m.(ssp := Wrap32(m.ssp - 2), ram := m'.ram) && Even(m'.ssp)
      && WordAt(m'.ram, m'.ssp) == value
      && SameAbove(m.ram, m'.ram, m.ssp, live)
  {
    hide Wrap32, Cell, Even, Above;
    var sp: int := m.ssp;
    EvenDown(sp, 2);
    ReadBack16(m.ram, Wrap32(sp - 2), value);
    forall i | 0 <= i < live
      ensures m.ram[Above(sp, i)] == PutWord(m.ram, Wrap32(sp - 2), value)[Above(sp, i)]
    {
      PushedByte(m.ram, sp, value, i);
    }
  }

  lemma PushLongSspKeeps(m: Machine, value: u32, live: nat)
    requires Even(m.ssp) && live + 4 <= MEM_MAX
    ensures var m' := m.PushLongSsp(value);
      && m' == m.(ssp := Wrap32(m.ssp - 4), ram := m'.ram) && Even(m'.ssp)
      && LongAt(m'.ram, m'.ssp) == value
      && SameAbove(m.ram, m'.ram, m.ssp, live)
  {
    hide Wrap32, Cell, Even, Above, SameAbove, WordAt, LongAt;
    hide Machine.PushSsp;
    var low, high := value % 0x1_0000, value / 0x1_0000;
    var m1 := m.PushSsp(low);
    var m2 := m1.PushSsp(high);
    var sp: int := m.ssp;
    PushSspKeeps(m, low, live);
    PushSspKeeps(m1, high, live + 2);
    WrapStep(sp - 2, -2);
    SameAboveShift(m1.ram, m2.ram, sp, 2, live);
    SameAboveTransitive(m.ram, m1.ram, m2.ram, sp, live);
    TopKept(m1.ram, m2.ram, m1.ssp, live + 2);
    WrapStep(sp - 4, 2);
    LongOfWords(m2.ram, m2.ssp);
  }

  /** The frame holds the status register and above it the pc. */
  lemma FrameHolds(m: Machine, vector: int, live: nat)
    requires Even(m.ssp) && live + 6 <= MEM_MAX
    ensures var m1 := m.Framed(vector);
      && m1.ssp == Wrap32(m.ssp - 6) && Even(m1.ssp) && m1.sr == m.sr.Entered()
      && m1.a == m.a && m1.d == m.d && m1.pc == LongAt(m1.ram, vector)
      && WordAt(m1.ram, m1.ssp) == m.sr.ToWord() && LongAt(m1.ram, Wrap32(m1.ssp + 2)) == m.pc
      && SameAbove(m.ram, m1.ram, m.ssp, live)
  {
    hide Wrap32, Even, SameAbove, WordAt, LongAt;
    hide Machine.PushSsp, Machine.PushLongSsp, Status.ToWord, FromWord;
    var sp: int := m.ssp;
    var m1 := m.PushLongSsp(m.pc);
    var m2 := m1.PushSsp(m.sr.ToWord());
    PushLongSspKeeps(m, m.pc, live);
    PushSspKeeps(m1, m.sr.ToWord(), live + 4);
    WrapStep(sp - 4, -2);
    WrapStep(sp - 6, 2);
    SameAboveShift(m1.ram, m2.ram, sp, 4, live);
    SameAboveTransitive(m.ram, m1.ram, m2.ram, sp, live);
    LongKept(m1.ram, m2.ram, m1.ssp, live + 4);
  }

  /** What lies above an address is still there after changes further down. */
  lemma KeptFurtherDown(ram: Ram, ram': Ram, ram'': Ram, sp: int, k: nat, live: nat)
    requires SameAbove(ram, ram', sp, live) && SameAbove(ram', ram'', Wrap32(sp - k), live + k)
    ensures SameAbove(ram, ram'', sp, live)
  {
    hide Wrap32, SameAbove;
    SameAboveShift(ram', ram'', sp, k, live);
    SameAboveTransitive(ram, ram', ram'', sp, live);
  }

  /** The fourteen bytes of an address error, from the lowest address: access word, address of the fault, opcode,
      status register and pc. */
  lemma AddressErrorHolds(m: Machine, address: u32, read: bool, program: bool, live: nat)
    requires Even(m.ssp) && live + 14 <= MEM_MAX
    ensures var m1 := m.AddressError(address, read, program);
      && m1.ssp == Wrap32(m.ssp - 14) && Even(m1.ssp) && m1.sr == m.sr.Entered()
      && m1.a == m.a && m1.d == m.d && m1.pc == LongAt(m1.ram, 0xC)
      && WordAt(m1.ram, m1.ssp) == m.AccessWord(read, program)
      && LongAt(m1.ram, Wrap32(m1.ssp + 2)) == address
      && WordAt(m1.ram, Wrap32(m1.ssp + 6)) == m.opcode
      && WordAt(m1.ram, Wrap32(m1.ssp + 8)) == m.sr.ToWord()
      && LongAt(m1.ram, Wrap32(m1.ssp + 10)) == m.pc
      && SameAbove(m.ram, m1.ram, m.ssp, live)
  {
    hide Wrap32, Even, SameAbove, WordAt, LongAt;
    hide Machine.PushSsp, Machine.PushLongSsp, Machine.AccessWord, Status.ToWord;
    var sp: int := m.ssp;
    var m1 := m.PushLongSsp(m.pc);
    var m2 := m1.PushSsp(m.sr.ToWord());
    var m3 := m2.PushSsp(m.opcode);
    var m4 := m3.PushLongSsp(address);
    var m5 := m4.PushSsp(m.AccessWord(read, program));
    PushLongSspKeeps(m, m.pc, live);
    PushSspKeeps(m1, m.sr.ToWord(), live + 4);
    PushSspKeeps(m2, m.opcode, live + 6);
    PushLongSspKeeps(m3, address, live + 8);
    PushSspKeeps(m4, m.AccessWord(read, program), live + 12);
    FrameAddresses(sp, m1.ssp, m2.ssp, m3.ssp, m4.ssp, m5.ssp);
    WrapStep(sp - 4, -2);
    WrapStep(sp - 6, -2);
    WrapStep(sp - 8, -4);
    KeptFurtherDown(m3.ram, m4.ram, m5.ram, m3.ssp, 4, live + 8);
    KeptFurtherDown(m2.ram, m3.ram, m5.ram, m2.ssp, 2, live + 6);
    KeptFurtherDown(m1.ram, m2.ram, m5.ram, m1.ssp, 2, live + 4);
    KeptFurtherDown(m.ram, m1.ram, m5.ram, sp, 4, live);
    LongKept(m4.ram, m5.ram, m4.ssp, live + 12);
    TopKept(m3.ram, m5.ram, m3.ssp, live + 8);
    TopKept(m2.ram, m5.ram, m2.ssp, live + 6);
    LongKept(m1.ram, m5.ram, m1.ssp, live + 4);
  }

  lemma FrameAddresses(sp: int, s1: u32, s2: u32, s3: u32, s4: u32, s5: u32)
    requires s1 == Wrap32(sp - 4) && s2 == Wrap32(s1 - 2) && s3 == Wrap32(s2 - 2) && s4 == Wrap32(s3 - 4)
    requires s5 == Wrap32(s4 - 2)
    ensures s5 == Wrap32(sp - 14) && Wrap32(s5 + 2) == s4 && Wrap32(s5 + 6) == s3 && Wrap32(s5 + 8) == s2
    ensures Wrap32(s5 + 10) == s1
  {
    hide Wrap32;
    WrapStep(sp - 4, -2);
    WrapStep(sp - 6, -2);
    WrapStep(sp - 8, -4);
    WrapStep(sp - 12, -2);
    WrapStep(sp - 14, 2);
    WrapStep(sp - 14, 6);
    WrapStep(sp - 14, 8);
    WrapStep(sp - 14, 10);
  }

  /** The access word: read or write in bit 4, and in the low three bits the space of the access, supervisor from five
      on and user below, the program space one above the data space. */
  lemma AccessWordBits(m: Machine, read: bool, program: bool)
    ensures var w := m.AccessWord(read, program);
      && (w / 0x10 % 2 == 1 <==> read) && w / 0x20 == m.opcode / 0x20
      && w % 0x10 == (if m.sr.sys.s then 5 else 1) + BitOf(program)
  {
    var (q, r, k) := (m.opcode / 0x20, BitOf(read), (if m.sr.sys.s then 5 else 1) + BitOf(program));
    assert m.AccessWord(read, program) == 0x20 * q + 0x10 * r + k;
    WordBits(0x20 * q + 0x10 * r + k, q, r, k);
  }

  lemma WordBits(w: int, q: int, r: int, k: int)
    requires w == 0x20 * q + 0x10 * r + k && 0 <= r < 2 && 0 <= k < 0x10
    ensures w / 0x20 == q && w / 0x10 % 2 == r && w % 0x10 == k
  {
    Splits(w, q, 0x10 * r + k, 0x20);
    Splits(w, 2 * q + r, k, 0x10);
    Splits(2 * q + r, q, r, 2);
  }

  /** The exceptions: reported at the instruction itself (an illegal, unimplemented or privileged one, a division by
      zero), after a trap instruction (TRAP, TRAPV), after CHK, and an odd address. */
  datatype Cause =
    | Faulted(vector: int)
    | Trapped(vector: int)
    | OutOfBounds
    | Misaligned(address: u32, read: bool, program: bool)

  function Enter(m: Machine, cause: Cause): Machine {
    match cause
    case Faulted(vector) => m.Exception(vector)
    case Trapped(vector) => TrapThrough(m, vector)
    case OutOfBounds => m.Framed(VECTOR_CHK_INSTRUCTION)
    case Misaligned(address, read, program) => m.AddressError(address, read, program)
  }

  function VectorOf(cause: Cause): int {
    match cause
    case OutOfBounds => VECTOR_CHK_INSTRUCTION
    case Misaligned(_, _, _) => VECTOR_ADDRESS_ERROR
    case _ => cause.vector
  }

  /** Where the exception is reported: the address of the instruction, or how far its words have been read. */
  function ReportedAt(m: Machine, cause: Cause): u32 {
    if cause.Faulted? then m.oldPc else m.pc
  }

  /** What lies below the six bytes that RTE takes; a handler of an address error drops it first. */
  function Below(cause: Cause): nat {
    if cause.Misaligned? then 8 else 0
  }

  function Dropped(m: Machine, cause: Cause): Machine {
    m.(ssp := Wrap32(m.ssp + Below(cause)))
  }

  /** Every exception leaves the status register and the reported address on the supervisor stack. */
  lemma ExceptionEnters(m: Machine, cause: Cause, live: nat)
    requires Even(m.ssp) && live + 6 + Below(cause) <= MEM_MAX
    ensures var m1 := Enter(m, cause);
      && m1.ssp == Wrap32(m.ssp - 6 - Below(cause)) && Even(m1.ssp) && m1.sr == m.sr.Entered()
      && m1.a == m.a && m1.d == m.d && m1.pc == LongAt(m1.ram, VectorOf(cause))
      && WordAt(m1.ram, Wrap32(m1.ssp + Below(cause))) == m.sr.ToWord()
      && LongAt(m1.ram, Wrap32(m1.ssp + Below(cause) + 2)) == ReportedAt(m, cause)
      && SameAbove(m.ram, m1.ram, m.ssp, live)
  {
    hide Wrap32, Even, SameAbove, WordAt, LongAt;
    hide Machine.Framed, Machine.AddressError, Machine.AccessWord, Status.ToWord;
    if cause.Misaligned? {
      AddressErrorHolds(m, cause.address, cause.read, cause.program, live);
    } else {
      var m0 := if cause.Trapped? then m.(oldPc := m.pc) else m;
      FrameHolds(m0.(pc := ReportedAt(m, cause)), VectorOf(cause), live);
    }
  }

  /** RTE from the top of such a frame restores the register, the pc and the stack pointer. */
  lemma RtePops(m2: Machine, sp: u32, sr: Status, pc: u32)
    requires m2.sr.sys.s && m2.ssp == sp && Even(sp) && sr.Clean() && Even(pc)
    requires WordAt(m2.ram, sp) == sr.ToWord() && LongAt(m2.ram, Wrap32(sp + 2)) == pc
    ensures Rte(m2) == m2.(ssp := Wrap32(sp + 6), sr := sr, pc := pc)
  {
    hide Wrap32, Even, SameAbove, WordAt, LongAt;
    hide Machine.AddressError, Machine.Exception, Machine.DroppedLong, Machine.TopLong;
    hide Status.ToWord, Status.Filtered, FromWord;
    var dropped := m2.Dropped();
    WordRoundTrip(sr);
    EvenDown(sp, 2);
    TopLongIs(dropped);
    SameAboveSelf(dropped.ram, dropped.ssp, 4);
    PopLong(dropped, dropped, 4);
    WrapStep(sp + 2, 4);
  }

  /** What the frame holds when the handler has left it alone: `k` bytes lie below the six. */
  lemma FrameKept(m: Machine, m1: Machine, m2: Machine, k: nat, live: nat)
    requires m1.ssp == Wrap32(m.ssp - 6 - k) && live + 6 + k <= MEM_MAX
    requires SameAbove(m1.ram, m2.ram, m1.ssp, live + 6 + k) && SameAbove(m.ram, m1.ram, m.ssp, live)
    ensures WordAt(m2.ram, Wrap32(m1.ssp + k)) == WordAt(m1.ram, Wrap32(m1.ssp + k))
    ensures LongAt(m2.ram, Wrap32(m1.ssp + k + 2)) == LongAt(m1.ram, Wrap32(m1.ssp + k + 2))
    ensures SameAbove(m.ram, m2.ram, m.ssp, live)
  {
    hide Wrap32, Even, SameAbove, WordAt, LongAt;
    var sp: int := m.ssp;
    SameAboveUp(m1.ram, m2.ram, m1.ssp, k, live + 6 + k);
    TopKept(m1.ram, m2.ram, Wrap32(m1.ssp + k), live + 6);
    SameAboveUp(m1.ram, m2.ram, m1.ssp, k + 2, live + 6 + k);
    LongKept(m1.ram, m2.ram, Wrap32(m1.ssp + k + 2), live + 4);
    SameAboveShift(m1.ram, m2.ram, sp, 6 + k, live);
    SameAboveTransitive(m.ram, m1.ram, m2.ram, sp, live);
  }

  /** RTE undoes an exception, given that the frame has been left alone: it resumes at the reported address. */
  lemma RteReturns(m: Machine, cause: Cause, m2: Machine, live: nat)
    requires Even(m.ssp) && live + 6 + Below(cause) <= MEM_MAX && Even(ReportedAt(m, cause)) && m.sr.Clean()
    requires Respects(Enter(m, cause), m2, live + 6 + Below(cause))
    ensures Rte(Dropped(m2, cause)) == m2.(ssp := m.ssp, sr := m.sr, pc := ReportedAt(m, cause))
    ensures SameAbove(m.ram, m2.ram, m.ssp, live)
  {
    hide Wrap32, Even, SameAbove, WordAt, LongAt, Enter, Rte, ReportedAt;
    hide Status.ToWord;
    var m1, k, sp: int := Enter(m, cause), Below(cause), m.ssp;
    ExceptionEnters(m, cause, live);
    FrameKept(m, m1, m2, k, live);
    WrapStep(sp - 6 - k, k);
    WrapStep(sp - 6 - k, k + 2);
    WrapStep(sp - 6, 2);
    WrapStep(sp - 6, 6);
    EvenDown(sp, 6);
    RtePops(Dropped(m2, cause), Wrap32(m1.ssp + k), m.sr, ReportedAt(m, cause));
  }

  // ---- Nested exceptions ----

  /** Work between exceptions, two activities in a row, or an exception around its handler. */
  datatype Handling =
    | Work(after: Machine)
    | Then(first: Handling, second: Handling)
    | Handled(cause: Cause, handler: Handling)

  function Run(t: Handling, m: Machine): Machine {
    match t
    case Work(after) => after
    case Then(first, second) => Run(second, Run(first, m))
    case Handled(cause, handler) => Rte(Dropped(Run(handler, Enter(m, cause)), cause))
  }

  function Depth(t: Handling): nat {
    match t
    case Work(_) => 0
    case Then(first, second) => if Depth(first) < Depth(second) then Depth(second) else Depth(first)
    case Handled(cause, handler) => 6 + Below(cause) + Depth(handler)
  }

  /** Mode, supervisor stack pointer and live bytes are as before. Registers, codes, and the user stack
      pointer may have changed. */
  ghost predicate Respects(m: Machine, m': Machine, live: nat) {
    m'.sr.sys.s == m.sr.sys.s && m'.ssp == m.ssp && SameAbove(m.ram, m'.ram, m.ssp, live)
  }

  /** Work leaves the frames alone, and exceptions are reported at even addresses with a filtered status
      register. */
  ghost predicate Disciplined(t: Handling, m: Machine, live: nat) {
    match t
    case Work(after) => Respects(m, after, live)
    case Then(first, second) => Disciplined(first, m, live) && Disciplined(second, Run(first, m), live)
    case Handled(cause, handler) =>
      Even(ReportedAt(m, cause)) && m.sr.Clean() && Disciplined(handler, Enter(m, cause), live + 6 + Below(cause))
  }

  /** Each exception is entered in supervisor mode, at the address in its vector, and comes back to the reported
      address with the status register as it was; the user stack pointer is what the handler left. */
  ghost predicate Restores(t: Handling, m: Machine) {
    match t
    case Work(_) => true
    case Then(first, second) => Restores(first, m) && Restores(second, Run(first, m))
    case Handled(cause, handler) =>
      var entered := Enter(m, cause);
      && entered.sr.sys.s && entered.a == m.a && entered.pc == LongAt(entered.ram, VectorOf(cause))
      && Run(t, m).pc == ReportedAt(m, cause) && Run(t, m).sr == m.sr && Run(t, m).ssp == m.ssp
      && Run(t, m).a == Run(handler, entered).a
      && Restores(handler, entered)
  }

  lemma {:induction false} ExceptionsRestore(t: Handling, m: Machine, live: nat)
    requires Even(m.ssp) && Disciplined(t, m, live) && live + Depth(t) <= MEM_MAX
    ensures Respects(m, Run(t, m), live)
    ensures Restores(t, m)
  {
    hide Wrap32, Even, SameAbove, WordAt, LongAt, Enter, ReportedAt, Rte, Respects, Dropped, Status.ToWord;
    match t
    case Work(after) =>
    case Then(first, second) =>
      ExceptionsRestore(first, m, live);
      RespectsEven(m, Run(first, m), live);
      ExceptionsRestore(second, Run(first, m), live);
      RespectsTransitive(m, Run(first, m), Run(t, m), live);
    case Handled(cause, handler) =>
      ExceptionEnters(m, cause, live);
      ExceptionsRestore(handler, Enter(m, cause), live + 6 + Below(cause));
      RteReturns(m, cause, Run(handler, Enter(m, cause)), live);
      RespectsIs(m, Run(t, m), live);
  }

  lemma RespectsEven(m: Machine, m': Machine, live: nat)
    requires Respects(m, m', live) && Even(m.ssp)
    ensures Even(m'.ssp)
  {
  }

  lemma RespectsIs(m: Machine, m': Machine, live: nat)
    requires m'.sr == m.sr && m'.ssp == m.ssp && SameAbove(m.ram, m'.ram, m.ssp, live)
    ensures Respects(m, m', live)
  {
  }

  lemma RespectsTransitive(m: Machine, m': Machine, m'': Machine, live: nat)
    requires Respects(m, m', live) && Respects(m', m'', live)
    ensures Respects(m, m'', live)
  {
    hide Above;
  }
}
