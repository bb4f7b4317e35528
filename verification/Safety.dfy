/** What every step keeps: the separation of user and supervisor mode, the filtered status register,
    and an even program counter. */
module Safety {
  import opened Words
  import opened StatusRegister
  import opened Memories
  import opened Machines

  /** How a piece of an instruction ends. The program leaves an instruction by a non-local jump when an
      exception is taken; here the caller returns early. `Undefined` is the end of what C defines. */
  datatype Outcome<+T> = Done(value: T) | Exception(vector: int) | Undefined {
    predicate IsFailure() {
      !Done?
    }

    function PropagateFailure<U>(): Outcome<U>
      requires IsFailure()
    {
      match this
      case Exception(v) => Outcome<U>.Exception(v)
      case Undefined => Outcome<U>.Undefined
    }

    function Extract(): T
      requires Done?
    {
      value
    }
  }

  /** Of the bits above the condition codes, only the three unimplemented ones of the low byte may differ, and
      they do not if they were clear. */
  predicate SameUpperByte(b: SystemBits, b': SystemBits): (same: bool)
    ensures b == b' ==> same
    ensures same ==> b'.s == b.s && b'.t1 == b.t1 && (b.Clean() ==> b'.Clean())
  {
    b' == b.(u1 := b'.u1, u2 := b'.u2, u3 := b'.u3) && (b.Clean() ==> b'.Clean())
  }

  lemma SameUpperTwice(b: SystemBits, b': SystemBits, b'': SystemBits)
    requires SameUpperByte(b, b') && SameUpperByte(b', b'')
    ensures SameUpperByte(b, b'')
  {
  }

  lemma SameUpperEntered(sr: Status, sr': Status)
    requires SameUpperByte(sr.sys, sr'.sys)
    ensures SameUpperByte(sr.Entered().sys, sr'.Entered().sys)
  {
  }

  /** Nothing privileged has changed: the upper byte of the status register is the same, the stack pointer of the
      other mode is the same, and the program counter is still even if it was. */
  predicate Within(m: Machine, m': Machine) {
    && SameUpperByte(m.sr.sys, m'.sr.sys)
    && (if m.sr.sys.s then m'.a[SP] == m.a[SP] else m'.ssp == m.ssp)
    && (Even(m.pc) ==> Even(m'.pc))
  }

  /** The size of the frame that an exception pushes. */
  function FrameSize(vector: int): int {
    if vector == VECTOR_ADDRESS_ERROR then 14 else 6
  }

  /** An exception has been taken: supervisor mode without trace, at the address in the vector, which is
      read after the frame is pushed. From user mode the frame lies just below the supervisor stack. */
  predicate Taken(m: Machine, m': Machine, vector: int) {
    && m'.pc == LongAt(m'.ram, vector)
    && m'.sr.sys.s && !m'.sr.sys.t1
    && (m.sr.Clean() ==> m'.sr.Clean())
    && (m.sr.sys.s ==> m'.a[SP] == m.a[SP])
    && (!m.sr.sys.s ==> SameUpperByte(m.sr.Entered().sys, m'.sr.sys) && m'.ssp == Wrap32(m.ssp - FrameSize(vector)))
  }

  /** An unprivileged piece of an instruction. */
  predicate Safe<T>(m: Machine, m': Machine, o: Outcome<T>) {
    match o
    case Done(_) => Within(m, m')
    case Exception(vector) => Taken(m, m', vector)
    case Undefined => true
  }

  /** A safe piece after a change that stays within the mode is safe from before that change. */
  lemma SafeAfter<T>(m: Machine, m': Machine, m'': Machine, o: Outcome<T>)
    requires Within(m, m') && Safe(m', m'', o)
    ensures Safe(m, m'', o)
  {
    hide Wrap32, Even, LongAt, SameUpperByte, SystemBits.Clean, Status.Entered;
    if o.Done? {
      SameUpperTwice(m.sr.sys, m'.sr.sys, m''.sr.sys);
    } else if o.Exception? && !m.sr.sys.s {
      SameUpperEntered(m.sr, m'.sr);
      SameUpperTwice(m.sr.Entered().sys, m'.sr.Entered().sys, m''.sr.sys);
    }
  }

  lemma WithinTwice(m: Machine, m': Machine, m'': Machine)
    requires Within(m, m') && Within(m', m'')
    ensures Within(m, m'')
  {
    hide Even, SameUpperByte;
    SameUpperTwice(m.sr.sys, m'.sr.sys, m''.sr.sys);
  }

  /** Data registers, condition codes and memory are not privileged. */
  lemma PlainWithin(m: Machine, m': Machine)
    requires m' == m.(d := m'.d, sr := m'.sr, ram := m'.ram) && m'.sr.sys == m.sr.sys
    ensures Within(m, m')
  {
    hide Even, SameUpperByte;
  }

  /** A whole instruction. Only from supervisor mode may it change the system bits. `usp` says whether it may
      write the user stack pointer from supervisor mode, as MOVE to USP does. */
  predicate SafeStep(m: Machine, m': Machine, o: Outcome<()>, usp: bool) {
    match o
    case Done(_) =>
      if m.sr.sys.s then
        && (m.sr.Clean() ==> m'.sr.Clean())
        && (Even(m.pc) ==> Even(m'.pc))
        && (usp || m'.a[SP] == m.a[SP])
      else Within(m, m')
    case Exception(vector) => Taken(m, m', vector)
    case Undefined => true
  }

  lemma SafeIsSafeStep(m: Machine, m': Machine, o: Outcome<()>, usp: bool)
    requires Safe(m, m', o)
    ensures SafeStep(m, m', o, usp)
  {
  }

  lemma NextWord(pc: int)
    ensures Even(pc) ==> Even(Wrap32(pc + 2)) && Even(Wrap32(pc - 2)) && Even(Wrap32(pc - 4))
  {
    hide Wrap32, Even;
    EvenTwo();
    if Even(pc) {
      EvenSum(pc, 2);
      EvenSum(pc, 4);
      WrapParity(pc + 2);
      WrapParity(pc - 2);
      WrapParity(pc - 4);
    }
  }

  lemma EvenTwo()
    ensures Even(2) && Even(4)
  {
  }

  lemma SetAWithin(m: Machine, reg: Reg, v: u32)
    ensures Within(m, m.SetA(reg, v))
  {
    hide Even, SameUpperByte;
  }

  lemma FetchWithin(m: Machine)
    ensures Within(m, m.Fetch())
  {
    hide Wrap32, Even, Cell, SameUpperByte;
    NextWord(m.pc);
  }

  /** Setting up an operand stays within the current mode. */
  lemma ResolveWithin(m: Machine, reg: Reg, mode: Reg, width: int)
    ensures m.Resolve(reg, mode, width).At? ==> Within(m, m.Resolve(reg, mode, width).m)
  {
    hide Wrap32, Even, Cell, Signed, SignExtend, Truncate, Within;
    hide Machine.Fetch, Machine.Index, Machine.IndexedFrom, Machine.A, Machine.SetA;
    PlainWithin(m, m);
    FetchWithin(m);
    FetchWithin(m.Fetch());
    WithinTwice(m, m.Fetch(), m.Fetch().Fetch());
    SetAWithin(m, reg, Wrap32(m.A(reg) + Machine.Stride(reg, width)));
    SetAWithin(m, reg, Wrap32(m.A(reg) - Machine.Stride(reg, width)));
  }

  /** `k` bytes have been pushed on the supervisor stack, and nothing else has changed. */
  predicate Pushed(m: Machine, m': Machine, k: int) {
    m'.ssp == Wrap32(m.ssp - k) && m' == m.(ssp := m'.ssp, ram := m'.ram)
  }

  lemma OnePushed(m: Machine, m': Machine, k: int, value: u16)
    requires Pushed(m, m', k)
    ensures Pushed(m, m'.PushSsp(value), k + 2)
  {
    hide Cell, Wrap32, PutWord;
    WrapStep(m.ssp - k, -2);
  }

  lemma LongPushed(m: Machine, m': Machine, k: int, value: u32)
    requires Pushed(m, m', k)
    ensures Pushed(m, m'.PushLongSsp(value), k + 4)
  {
    hide Pushed;
    hide Machine.PushSsp;
    OnePushed(m, m', k, value % 0x1_0000);
    OnePushed(m, m'.PushSsp(value % 0x1_0000), k + 2, value / 0x1_0000);
  }

  lemma FrameTaken(m: Machine, m': Machine, vector: int)
    requires Pushed(m, m', FrameSize(vector))
    ensures Taken(m, m'.Vectored(vector), vector) && m'.Vectored(vector).sr == m.sr.Entered()
  {
    hide Cell, Wrap32, LongAt, SameUpperByte;
  }

  /** The six-byte frame with the current pc. */
  lemma FrameAtPcTaken(m: Machine, vector: int)
    requires vector != VECTOR_ADDRESS_ERROR
    ensures Taken(m, m.Framed(vector), vector) && m.Framed(vector).sr == m.sr.Entered()
  {
    hide Cell, Wrap32, LongAt, Pushed, Taken;
    hide Machine.PushLongSsp, Machine.PushSsp, Machine.Vectored, Status.ToWord;
    NonePushed(m);
    LongPushed(m, m, 0, m.pc);
    OnePushed(m, m.PushLongSsp(m.pc), 4, m.sr.ToWord());
    FrameTaken(m, m.PushLongSsp(m.pc).PushSsp(m.sr.ToWord()), vector);
  }

  lemma ExceptionTaken(m: Machine, vector: int)
    requires vector != VECTOR_ADDRESS_ERROR
    ensures Taken(m, m.Exception(vector), vector) && m.Exception(vector).sr == m.sr.Entered()
  {
    hide Cell, Wrap32, LongAt, Taken;
    hide Machine.Framed;
    var m0 := m.(pc := m.oldPc);
    FrameAtPcTaken(m0, vector);
    TakenFromAnyPc(m, m0, m.Exception(vector), vector);
  }

  lemma NonePushed(m: Machine)
    ensures Pushed(m, m, 0)
  {
  }

  lemma TakenFromAnyPc(m: Machine, m0: Machine, m': Machine, vector: int)
    requires m0 == m.(pc := m0.pc) && Taken(m0, m', vector)
    ensures Taken(m, m', vector)
  {
    hide Wrap32, LongAt, SameUpperByte;
  }

  lemma AddressErrorTaken(m: Machine, address: u32, read: bool, program: bool)
    ensures Taken(m, m.AddressError(address, read, program), VECTOR_ADDRESS_ERROR)
    ensures m.AddressError(address, read, program).sr == m.sr.Entered()
  {
    hide Cell, Wrap32, LongAt, Pushed, Taken;
    hide Machine.PushLongSsp, Machine.PushSsp, Machine.Vectored, Machine.AccessWord, Status.ToWord;
    NonePushed(m);
    LongPushed(m, m, 0, m.pc);
    var m1 := m.PushLongSsp(m.pc);
    OnePushed(m, m1, 4, m.sr.ToWord());
    var m2 := m1.PushSsp(m.sr.ToWord());
    OnePushed(m, m2, 6, m.opcode);
    var m3 := m2.PushSsp(m.opcode);
    LongPushed(m, m3, 8, address);
    var m4 := m3.PushLongSsp(address);
    OnePushed(m, m4, 12, m.AccessWord(read, program));
    FrameTaken(m, m4.PushSsp(m.AccessWord(read, program)), VECTOR_ADDRESS_ERROR);
  }

  lemma LoadSafe(m: Machine, at: Location, sz: Size, source: bool)
    ensures m.Load(at, sz, source).Fault? ==> Taken(m, m.Load(at, sz, source).m, m.Load(at, sz, source).vector)
  {
    hide Cell, Wrap32, Even, Taken;
    hide Machine.Exception, Machine.AddressError;
    ExceptionTaken(m, VECTOR_ILLEGAL_INSTRUCTION);
    AddressErrorTaken(m, at.n, true, at.programSpace);
  }

  lemma StoreSafe(m: Machine, at: Location, sz: Size, v: u32)
    requires v < sz.Modulus()
    ensures m.Store(at, sz, v).Value? ==> Within(m, m.Store(at, sz, v).v)
    ensures m.Store(at, sz, v).Fault? ==> Taken(m, m.Store(at, sz, v).m, m.Store(at, sz, v).vector)
  {
    hide Cell, Wrap32, Even, Taken, Merge, WriteSized, SameUpperByte;
    hide Machine.Exception, Machine.AddressError;
    ExceptionTaken(m, VECTOR_ILLEGAL_INSTRUCTION);
    AddressErrorTaken(m, at.n, false, at.programSpace);
  }

  lemma StackWithin(m: Machine, value: u16)
    ensures Within(m, m.Push(value)) && Within(m, m.Dropped())
  {
    hide Cell, Wrap32, Even, PutWord, SameUpperByte;
  }
}
