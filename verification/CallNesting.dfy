/** Well-nested calls and stack frames: however deep the nesting, every RTS returns to its call, every UNLK
    restores its frame pointer, and the stack pointer ends where it started. */
module CallNesting {
  import opened Words
  import opened Memories
  import opened Machines
  import opened Opcodes
  import opened ControlFlow
  import opened Regions

  // ---- The live part of a stack ----

  /** A word and a long at the top of the live part are kept with it. */
  lemma TopKept(ram: Ram, ram': Ram, base: int, live: nat)
    requires SameAbove(ram, ram', base, live) && live >= 2
    ensures WordAt(ram, base) == WordAt(ram', base)
  {
    hide Cell;
    assert ram[Above(base, 0)] == ram'[Above(base, 0)] && ram[Above(base, 1)] == ram'[Above(base, 1)];
  }

  // ---- Pushing and popping ----

  lemma PushedByte(ram: Ram, sp: int, value: u16, i: int)
    requires 0 <= i && i + 2 < MEM_MAX
    ensures PutWord(ram, Wrap32(sp - 2), value)[Above(sp, i)] == ram[Above(sp, i)]
  {
    hide Wrap32, Cell, Even;
    WrapCell(sp - 2);
    SameCell(Wrap32(sp - 2), sp - 2, 1);
    DistinctCells(sp, -2, i);
    DistinctCells(sp, -1, i);
  }

  /** A word pushed on an even stack pointer lies at the new top, and the live bytes above are kept. */
  lemma PushKeeps(m: Machine, value: u16, live: nat)
    requires Even(m.A(SP)) && live + 2 <= MEM_MAX
    ensures var m' := m.Push(value);
      && m' == m.SetA(SP, Wrap32(m.A(SP) - 2)).(ram := m'.ram)
      && m'.A(SP) == Wrap32(m.A(SP) - 2) && Even(m'.A(SP)) && m'.Top() == value
      && SameAbove(m.ram, m'.ram, m.A(SP), live)
  {
    hide Wrap32, Cell, Even, Above;
    var sp: int := m.A(SP);
    EvenDown(sp, 2);
    ReadBack16(m.ram, Wrap32(sp - 2), value);
    forall i | 0 <= i < live
      ensures m.ram[Above(sp, i)] == PutWord(m.ram, Wrap32(sp - 2), value)[Above(sp, i)]
    {
      PushedByte(m.ram, sp, value, i);
    }
  }

  lemma EvenDown(a: int, k: int)
    requires Even(a) && k % 2 == 0
    ensures Even(Wrap32(a - k)) && Even(Wrap32(a + k))
  {
    hide Wrap32;
    EvenSum(a, k);
    WrapParity(a - k);
    WrapParity(a + k);
  }

  /** The same for a long: it can be popped again, and only bytes below the stack pointer have changed. */
  lemma PushLongKeeps(m: Machine, value: u32, live: nat)
    requires Even(m.A(SP)) && live + 4 <= MEM_MAX
    ensures var m' := m.PushLong(value);
      && m' == m.SetA(SP, Wrap32(m.A(SP) - 4)).(ram := m'.ram)
      && m'.A(SP) == Wrap32(m.A(SP) - 4) && Even(m'.A(SP)) && m'.TopLong() == value
      && SameAbove(m.ram, m'.ram, m.A(SP), live)
  {
    hide Wrap32, Cell, Even, Above, SameAbove, WordAt;
    hide Machine.Push;
    var low, high := value % 0x1_0000, value / 0x1_0000;
    var m1 := m.Push(low);
    var m2 := m1.Push(high);
    PushKeeps(m, low, live);
    PushKeeps(m1, high, live + 2);
    var top: int := m.A(SP);
    WrapStep(top - 2, -2);
    SetSpTwice(m, m1, m2);
    SameAboveShift(m1.ram, m2.ram, m.A(SP), 2, live);
    SameAboveTransitive(m.ram, m1.ram, m2.ram, m.A(SP), live);
    TopKept(m1.ram, m2.ram, m1.A(SP), live + 2);
    WrapStep(top - 4, 2);
  }

  lemma SetSpTwice(m: Machine, m1: Machine, m2: Machine)
    requires m1 == m.SetA(SP, m1.A(SP)).(ram := m1.ram) && m2 == m1.SetA(SP, m2.A(SP)).(ram := m2.ram)
    ensures m2 == m.SetA(SP, m2.A(SP)).(ram := m2.ram)
  {
    assert m.a[SP := m1.a[SP]][SP := m2.a[SP]] == m.a[SP := m2.a[SP]];
  }

  /** Popping what the live part holds. */
  lemma PopLong(m: Machine, m': Machine, live: nat)
    requires m'.A(SP) == m.A(SP) && Even(m.A(SP)) && live >= 4 && SameAbove(m.ram, m'.ram, m.A(SP), live)
    ensures m'.TopLong() == m.TopLong()
    ensures m'.DroppedLong() == m'.SetA(SP, Wrap32(m.A(SP) + 4))
    ensures m'.DroppedLong().A(SP) == Wrap32(m.A(SP) + 4)
  {
    hide Wrap32, Cell, Even, Above, SameAbove, WordAt;
    var sp: int := m.A(SP);
    WrapStep(sp + 2, 2);
    WrapStep(sp + 2, -2);
    TopKept(m.ram, m'.ram, sp, live);
    SameAboveUp(m.ram, m'.ram, sp, 2, live);
    TopKept(m.ram, m'.ram, Wrap32(sp + 2), live - 2);
    assert m'.a[SP := Wrap32(sp + 2)][SP := Wrap32(sp + 4)] == m'.a[SP := Wrap32(sp + 4)];
  }

  // ---- Activities ----

  /** What a program does between two points of equal stack depth: any work that leaves the live stack
      alone, two activities in a row, a call around an activity, or a LINKed frame around one. */
  datatype Activity =
    | Work(after: Machine)
    | Then(first: Activity, second: Activity)
    | Call(target: u32, body: Activity)
    | Framed(reg: Reg, body: Activity)

  /** The machine after an activity: JSR or BSR and RTS around the body of a call, LINK and UNLK around a frame. */
  function Run(t: Activity, m: Machine): Machine {
    match t
    case Work(after) => after
    case Then(first, second) => Run(second, Run(first, m))
    case Call(target, body) => Rts(Run(body, Jsr(m, target)))
    case Framed(reg, body) => Unlk(Run(body, Link(m, reg)), reg)
  }

  /** BSR to an even target is a call too, from the instruction after its displacement. */
  lemma BsrIsCall(m: Machine, opcode: u16)
    requires CondField(opcode) == 1
    ensures var short := Signed(Byte, opcode % 0x100);
      var m1 := if short == 0 then m.Fetch() else m;
      var target := Wrap32(if short == 0 then m1.pc + (m1.Displacement() - 2) else m1.pc + short);
      Even(target) ==> Branch(m, opcode) == Jsr(m1, target)
  {
    hide Wrap32, Even, WordAt, Signed;
    hide Machine.PushLong, Machine.Displacement, Machine.AddressError;
  }

  /** The room a LINK takes: the pushed frame pointer and the displacement it fetches. */
  function LinkRoom(m: Machine, reg: Reg): int {
    4 - m.PushLong(m.A(reg)).SetA(reg, m.PushLong(m.A(reg)).A(SP)).Fetch().Displacement()
  }

  /** The deepest stack an activity needs below where it starts. */
  function Depth(t: Activity, m: Machine): int {
    match t
    case Work(_) => 0
    case Then(first, second) =>
      var d1, d2 := Depth(first, m), Depth(second, Run(first, m));
      if d1 < d2 then d2 else d1
    case Call(target, body) => 4 + Depth(body, Jsr(m, target))
    case Framed(reg, body) => LinkRoom(m, reg) + Depth(body, Link(m, reg))
  }

  /** Frame pointers other than the stack pointer, even displacements that do not shrink the stack, even return
      addresses, and work that keeps mode, stack pointer, the frame pointers in use and the live bytes. */
  ghost predicate Disciplined(t: Activity, m: Machine, live: nat, kept: set<Reg>) {
    match t
    case Work(after) => Respects(m, after, live, kept)
    case Then(first, second) => Disciplined(first, m, live, kept) && Disciplined(second, Run(first, m), live, kept)
    case Call(target, body) => Even(target) && Even(m.pc) && Disciplined(body, Jsr(m, target), live + 4, kept)
    case Framed(reg, body) =>
      && reg != SP && LinkRoom(m, reg) >= 4 && LinkRoom(m, reg) % 2 == 0
      && Disciplined(body, Link(m, reg), live + LinkRoom(m, reg), kept + {reg})
  }

  /** Mode, stack pointer, the frame pointers in use and the live bytes are as before. */
  ghost predicate Respects(m: Machine, m': Machine, live: nat, kept: set<Reg>) {
    && m'.sr.sys.s == m.sr.sys.s
    && m'.A(SP) == m.A(SP)
    && (forall r :: r in kept ==> m'.A(r) == m.A(r))
    && SameAbove(m.ram, m'.ram, m.A(SP), live)
  }

  /** Every disciplined activity that fits in memory restores the stack, and every call inside it returns to the
      instruction after it, and every frame restores its frame pointer. */
  ghost predicate Returns(t: Activity, m: Machine) {
    match t
    case Work(_) => true
    case Then(first, second) => Returns(first, m) && Returns(second, Run(first, m))
    case Call(target, body) => Run(t, m).pc == m.pc && Returns(body, Jsr(m, target))
    case Framed(reg, body) => Run(t, m).A(reg) == m.A(reg) && Returns(body, Link(m, reg))
  }

  lemma {:induction false} NestingReturns(t: Activity, m: Machine, live: nat, kept: set<Reg>)
    requires Even(m.A(SP)) && Disciplined(t, m, live, kept) && SP !in kept
    requires live + Depth(t, m) <= MEM_MAX
    ensures Depth(t, m) >= 0
    ensures Respects(m, Run(t, m), live, kept)
    ensures Returns(t, m)
  {
    hide Wrap32, Even, SameAbove, Above, Jsr, Rts, Link, Unlk, LinkRoom, Respects;
    match t
    case Work(after) =>
    case Then(first, second) =>
      NestingDepth(first, m, live, kept);
      NestingDepth(second, Run(first, m), live, kept);
      NestingReturns(first, m, live, kept);
      RespectsEven(m, Run(first, m), live, kept);
      NestingReturns(second, Run(first, m), live, kept);
      RespectsTransitive(m, Run(first, m), Run(t, m), live, kept);
    case Call(target, body) =>
      var m1 := Jsr(m, target);
      NestingDepth(body, m1, live + 4, kept);
      CallEnters(m, target, live);
      NestingReturns(body, m1, live + 4, kept);
      CallReturns(m, target, Run(body, m1), live, kept);
    case Framed(reg, body) =>
      var m1 := Link(m, reg);
      NestingDepth(body, m1, live + LinkRoom(m, reg), kept + {reg});
      LinkEnters(m, reg, live);
      NestingReturns(body, m1, live + LinkRoom(m, reg), kept + {reg});
      UnlkReturns(m, reg, Run(body, m1), live, kept);
  }

  lemma {:induction false} NestingDepth(t: Activity, m: Machine, live: nat, kept: set<Reg>)
    requires Disciplined(t, m, live, kept)
    ensures Depth(t, m) >= 0
  {
    hide Jsr, Rts, Link, Unlk, LinkRoom, Respects;
    match t
    case Work(_) =>
    case Then(first, second) => NestingDepth(first, m, live, kept);
    case Call(target, body) => NestingDepth(body, Jsr(m, target), live + 4, kept);
    case Framed(reg, body) => NestingDepth(body, Link(m, reg), live + LinkRoom(m, reg), kept + {reg});
  }

  lemma RespectsEven(m: Machine, m': Machine, live: nat, kept: set<Reg>)
    requires Respects(m, m', live, kept) && Even(m.A(SP))
    ensures Even(m'.A(SP))
  {
  }

  lemma RespectsTransitive(m: Machine, m': Machine, m'': Machine, live: nat, kept: set<Reg>)
    requires Respects(m, m', live, kept) && Respects(m', m'', live, kept)
    ensures Respects(m, m'', live, kept)
  {
    hide Above;
  }

  lemma CallEnters(m: Machine, target: u32, live: nat)
    requires Even(target) && Even(m.A(SP)) && live + 4 <= MEM_MAX
    ensures var m1 := Jsr(m, target);
      && m1 == m.SetA(SP, Wrap32(m.A(SP) - 4)).(ram := m1.ram, pc := target)
      && m1.A(SP) == Wrap32(m.A(SP) - 4) && Even(m1.A(SP)) && m1.TopLong() == m.pc
      && SameAbove(m.ram, m1.ram, m.A(SP), live)
  {
    hide Wrap32, Even, SameAbove;
    hide Machine.PushLong;
    PushLongKeeps(m, m.pc, live);
  }

  lemma CallReturns(m: Machine, target: u32, m2: Machine, live: nat, kept: set<Reg>)
    requires Even(target) && Even(m.A(SP)) && Even(m.pc) && live + 4 <= MEM_MAX && SP !in kept
    requires Respects(Jsr(m, target), m2, live + 4, kept)
    ensures Respects(m, Rts(m2), live, kept) && Rts(m2).pc == m.pc
  {
    hide Wrap32, Even, SameAbove, Jsr;
    hide Machine.DroppedLong, Machine.TopLong, Machine.AddressError;
    var m1, sp: int := Jsr(m, target), m.A(SP);
    CallEnters(m, target, live);
    PopLong(m1, m2, live + 4);
    WrapStep(sp - 4, 4);
    SameAboveShift(m1.ram, m2.ram, sp, 4, live);
    SameAboveTransitive(m.ram, m1.ram, m2.ram, sp, live);
  }

  lemma LinkEnters(m: Machine, reg: Reg, live: nat)
    requires Even(m.A(SP)) && reg != SP && live + LinkRoom(m, reg) <= MEM_MAX
    requires LinkRoom(m, reg) >= 4 && LinkRoom(m, reg) % 2 == 0
    ensures var m1, sp := Link(m, reg), m.A(SP);
      && m1.sr == m.sr && m1.A(reg) == Wrap32(sp - 4) && Even(m1.A(reg))
      && (forall r: Reg :: r != SP && r != reg ==> m1.A(r) == m.A(r))
      && m1.A(SP) == Wrap32(sp - LinkRoom(m, reg)) && Even(m1.A(SP))
      && LongAt(m1.ram, Wrap32(sp - 4)) == m.A(reg)
      && SameAbove(m.ram, m1.ram, sp, live)
  {
    hide Wrap32, Even, SameAbove, LongAt;
    hide Machine.PushLong, Machine.Displacement, Machine.TopLong;
    var sp: int := m.A(SP);
    var pushed := m.PushLong(m.A(reg));
    PushLongKeeps(m, m.A(reg), live);
    TopLongIs(pushed);
    WrapStep(sp - 4, 4 - LinkRoom(m, reg));
    EvenDown(sp, LinkRoom(m, reg));
  }

  /** An aligned long is the word at its address and the next one. */
  lemma LongOfWords(ram: Ram, base: u32)
    requires Even(base)
    ensures LongAt(ram, base) == Join16(WordAt(ram, base), WordAt(ram, Wrap32(base + 2)))
  {
    hide Wrap32, Cell, Even;
    EvenDown(base, 2);
    WordWraps(ram, base + 2);
  }

  lemma WordWraps(ram: Ram, address: int)
    ensures Read16(ram, Wrap32(address)) == Read16(ram, address)
  {
    hide Wrap32, Cell;
    WrapCell(address);
    SameCell(Wrap32(address), address, 1);
  }

  lemma TopLongIs(m: Machine)
    requires Even(m.A(SP))
    ensures m.TopLong() == LongAt(m.ram, m.A(SP))
  {
    hide Wrap32, Cell, Even, LongAt, WordAt;
    LongOfWords(m.ram, m.A(SP));
  }

  /** A long that lies `k` bytes into a stretch that has been left alone comes back when the stack pointer is set
      to it. */
  lemma SavedLong(ram: Ram, m2: Machine, low: u32, k: nat, live: nat)
    requires k + 4 <= live && SameAbove(ram, m2.ram, low, live) && Even(Wrap32(low + k))
    ensures var m3 := m2.SetA(SP, Wrap32(low + k));
      m3.TopLong() == LongAt(ram, Wrap32(low + k)) && m3.DroppedLong() == m3.SetA(SP, Wrap32(low + k + 4))
  {
    hide Wrap32, Even, SameAbove, LongAt;
    hide Machine.DroppedLong, Machine.TopLong;
    var m3 := m2.SetA(SP, Wrap32(low + k));
    SameAboveUp(ram, m2.ram, low, k, live);
    LongKept(ram, m2.ram, Wrap32(low + k), live - k);
    TopLongIs(m3);
    SameAboveSelf(m3.ram, m3.A(SP), 4);
    PopLong(m3, m3, 4);
    WrapStep(low + k, 4);
  }

  lemma UnlkReturns(m: Machine, reg: Reg, m2: Machine, live: nat, kept: set<Reg>)
    requires Even(m.A(SP)) && reg != SP && live + LinkRoom(m, reg) <= MEM_MAX && SP !in kept
    requires LinkRoom(m, reg) >= 4 && LinkRoom(m, reg) % 2 == 0
    requires Respects(Link(m, reg), m2, live + LinkRoom(m, reg), kept + {reg})
    ensures Respects(m, Unlk(m2, reg), live, kept) && Unlk(m2, reg).A(reg) == m.A(reg)
  {
    hide Wrap32, Even, SameAbove, Link, LongAt, LinkRoom;
    hide Machine.DroppedLong, Machine.TopLong, Machine.AddressError;
    var m1, sp: int, room := Link(m, reg), m.A(SP), LinkRoom(m, reg);
    LinkEnters(m, reg, live);
    assert reg in kept + {reg};
    // The saved frame pointer lies `room - 4` bytes above the stack pointer of the body.
    WrapStep(sp - room, room - 4);
    WrapStep(sp - room, room);
    SavedLong(m1.ram, m2, Wrap32(sp - room), room - 4, live + room);
    SameAboveShift(m1.ram, m2.ram, sp, room, live);
    SameAboveTransitive(m.ram, m1.ram, m2.ram, sp, live);
  }

  lemma LongKept(ram: Ram, ram': Ram, base: int, live: nat)
    requires SameAbove(ram, ram', base, live) && live >= 4
    ensures LongAt(ram, base) == LongAt(ram', base)
  {
    hide Cell;
    assert ram[Above(base, 0)] == ram'[Above(base, 0)];
    assert ram[Above(base, 1)] == ram'[Above(base, 1)];
    assert ram[Above(base, 2)] == ram'[Above(base, 2)];
    assert ram[Above(base, 3)] == ram'[Above(base, 3)];
    hide SameAbove;
  }
}
