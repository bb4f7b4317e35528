/** Whole runs of the processor: what every reachable state has in common. */
module Runs {
  import opened Words
  import opened StatusRegister
  import opened Memories
  import opened Machines
  import opened Safety
  import opened Cpus
  import opened Operations
  import opened Decoding
  import Execution

  /** The opcode that a step from `m` fetches. */
  function NextOpcode(m: Machine): u16 {
    WordAt(m.ram, m.pc)
  }

  /** The machines of an execution, and how each step between them ended: every step reaches what the processor
      specifies, and keeps what every step keeps. */
  ghost predicate IsRun(ms: seq<Machine>, os: seq<Outcome<()>>, hooked: bool) {
    && |ms| == |os| + 1
    && forall i :: 0 <= i < |os| ==> IsStep(ms[i], os[i], ms[i + 1], hooked)
  }

  ghost predicate IsStep(m: Machine, o: Outcome<()>, m': Machine, hooked: bool) {
    && !o.Undefined?
    && Reaches(Executed(m, hooked), o, m')
    && SafeStep(m, m', o, MovesToUsp(NextOpcode(m)))
  }

  // ---- The status register ----

  lemma StepKeepsClean(m: Machine, m': Machine, o: Outcome<()>, usp: bool)
    requires SafeStep(m, m', o, usp) && !o.Undefined? && m.sr.Clean()
    ensures m'.sr.Clean()
  {
    hide Even, LongAt, Wrap32, SameUpperByte;
  }

  /** No run from initialisation sets a status bit outside 0xA71F; so the filter never changes a register that an
      exception has pushed. */
  lemma {:induction false} StatusStaysClean(ms: seq<Machine>, os: seq<Outcome<()>>, hooked: bool, n: nat)
    requires IsRun(ms, os, hooked) && n < |ms| && ms[0].sr.Clean()
    ensures ms[n].sr.Clean() && FromWord(ms[n].sr.ToWord()).Filtered() == ms[n].sr
  {
    hide SafeStep, Executed, MovesToUsp, WordAt, SystemBits.Clean, Status.ToWord, FromWord, SystemBits.Filtered;
    if n > 0 {
      StatusStaysClean(ms, os, hooked, n - 1);
      assert IsStep(ms[n - 1], os[n - 1], ms[n], hooked);
      StepKeepsClean(ms[n - 1], ms[n], os[n - 1], MovesToUsp(NextOpcode(ms[n - 1])));
    }
    WordRoundTrip(ms[n].sr);
  }

  // ---- The program counter ----

  /** Every exception so far went through an even vector. */
  ghost predicate EvenVectors(ms: seq<Machine>, os: seq<Outcome<()>>, n: nat)
    requires n <= |os| < |ms|
  {
    forall i :: 0 <= i < n && os[i].Exception? ==> Even(LongAt(ms[i + 1].ram, os[i].vector))
  }

  lemma StepKeepsEven(m: Machine, m': Machine, o: Outcome<()>, usp: bool)
    requires SafeStep(m, m', o, usp) && !o.Undefined? && Even(m.pc)
    ensures o.Done? ==> Even(m'.pc)
    ensures o.Exception? ==> m'.pc == LongAt(m'.ram, o.vector)
  {
    hide Even, LongAt, Wrap32, SameUpperByte;
  }

  /** The program counter can only become odd through the vector of an exception. */
  lemma {:induction false} ProgramCounterStaysEven(ms: seq<Machine>, os: seq<Outcome<()>>, hooked: bool, n: nat)
    requires IsRun(ms, os, hooked) && n < |ms| && Even(ms[0].pc) && EvenVectors(ms, os, n)
    ensures Even(ms[n].pc)
  {
    hide SafeStep, Executed, MovesToUsp, WordAt, LongAt, Even;
    if n > 0 {
      ProgramCounterStaysEven(ms, os, hooked, n - 1);
      assert IsStep(ms[n - 1], os[n - 1], ms[n], hooked);
      StepKeepsEven(ms[n - 1], ms[n], os[n - 1], MovesToUsp(NextOpcode(ms[n - 1])));
    }
  }

  // ---- User and supervisor mode ----

  /** Steps `i` to `j` end without an exception. */
  ghost predicate Undisturbed(os: seq<Outcome<()>>, i: nat, j: nat) {
    i <= j <= |os| && forall k :: i <= k < j ==> os[k].Done?
  }

  lemma StepInUserMode(m: Machine, m': Machine, o: Outcome<()>, usp: bool)
    requires SafeStep(m, m', o, usp) && !m.sr.sys.s
    ensures o.Done? ==> m'.ssp == m.ssp && SameUpperByte(m.sr.sys, m'.sr.sys)
    ensures o.Exception? ==> m'.sr.sys.s && m'.ssp == Wrap32(m.ssp - FrameSize(o.vector))
  {
    hide Even, LongAt, Wrap32, SameUpperByte;
  }

  /** Without an exception a program never leaves user mode, and never changes the supervisor stack pointer or the
      upper byte of the status register. */
  lemma {:induction false} UserModeIsConfined(ms: seq<Machine>, os: seq<Outcome<()>>, hooked: bool, i: nat, j: nat)
    requires IsRun(ms, os, hooked) && Undisturbed(os, i, j) && !ms[i].sr.sys.s
    ensures !ms[j].sr.sys.s && ms[j].ssp == ms[i].ssp && SameUpperByte(ms[i].sr.sys, ms[j].sr.sys)
    decreases j - i
  {
    hide SafeStep, Executed, MovesToUsp, WordAt, SameUpperByte;
    if i < j {
      UserModeIsConfined(ms, os, hooked, i, j - 1);
      assert IsStep(ms[j - 1], os[j - 1], ms[j], hooked);
      StepInUserMode(ms[j - 1], ms[j], os[j - 1], MovesToUsp(NextOpcode(ms[j - 1])));
      SameUpperTwice(ms[i].sr.sys, ms[j - 1].sr.sys, ms[j].sr.sys);
    }
  }

  /** The way from user to supervisor mode leads through an exception, whose frame lies just below the supervisor
      stack that was left behind. */
  lemma OnlyExceptionsEnterSupervisorMode(
      ms: seq<Machine>, os: seq<Outcome<()>>, hooked: bool, i: nat, j: nat)
      returns (k: nat)
    requires IsRun(ms, os, hooked) && i <= j <= |os| && !ms[i].sr.sys.s && ms[j].sr.sys.s
    ensures i <= k < j && os[k].Exception? && Undisturbed(os, i, k)
    ensures ms[k].ssp == ms[i].ssp && ms[k + 1].ssp == Wrap32(ms[i].ssp - FrameSize(os[k].vector))
    ensures ms[k + 1].sr.sys.s && ms[k + 1].pc == LongAt(ms[k + 1].ram, os[k].vector)
  {
    hide SafeStep, Executed, MovesToUsp, WordAt, LongAt, SameUpperByte, Wrap32;
    k := i;
    UserModeIsConfined(ms, os, hooked, i, k);
    while os[k].Done?
      invariant i <= k < j && Undisturbed(os, i, k) && !ms[k].sr.sys.s
      decreases j - k
    {
      UserModeIsConfined(ms, os, hooked, i, k + 1);
      k := k + 1;
    }
    UserModeIsConfined(ms, os, hooked, i, k);
    assert IsStep(ms[k], os[k], ms[k + 1], hooked);
    StepInUserMode(ms[k], ms[k + 1], os[k], MovesToUsp(NextOpcode(ms[k])));
    ExceptionVector(ms[k], ms[k + 1], os[k], MovesToUsp(NextOpcode(ms[k])));
  }

  lemma ExceptionVector(m: Machine, m': Machine, o: Outcome<()>, usp: bool)
    requires SafeStep(m, m', o, usp) && o.Exception?
    ensures m'.pc == LongAt(m'.ram, o.vector)
  {
    hide LongAt, Wrap32, SameUpperByte;
  }

  lemma StepInSupervisorMode(m: Machine, m': Machine, o: Outcome<()>, usp: bool)
    requires SafeStep(m, m', o, usp) && !o.Undefined? && m.sr.sys.s && !usp
    ensures m'.a[SP] == m.a[SP]
  {
    hide Even, LongAt, Wrap32, SameUpperByte;
  }

  /** The steps from `i` to `j` start in supervisor mode and are not MOVE to USP. */
  ghost predicate SupervisorStretch(ms: seq<Machine>, i: nat, j: nat) {
    i <= j < |ms| && forall k :: i <= k < j ==> ms[k].sr.sys.s && !MovesToUsp(NextOpcode(ms[k]))
  }

  /** While the processor stays in supervisor mode, only MOVE to USP changes the user stack pointer. */
  lemma {:induction false} UserStackPointerIsKept(ms: seq<Machine>, os: seq<Outcome<()>>, hooked: bool, i: nat, j: nat)
    requires IsRun(ms, os, hooked) && SupervisorStretch(ms, i, j)
    ensures ms[j].a[SP] == ms[i].a[SP]
    decreases j - i
  {
    hide SafeStep, Executed, MovesToUsp, WordAt;
    if i < j {
      UserStackPointerIsKept(ms, os, hooked, i, j - 1);
      assert IsStep(ms[j - 1], os[j - 1], ms[j], hooked);
      StepInSupervisorMode(ms[j - 1], ms[j], os[j - 1], false);
    }
  }

  // ---- Executions ----

  ghost predicate AllClean(ms: seq<Machine>) {
    forall n :: 0 <= n < |ms| ==> ms[n].sr.Clean()
  }

  /** The program counter is even wherever all vectors taken before were. */
  ghost predicate EvenUnlessVectored(ms: seq<Machine>, os: seq<Outcome<()>>)
    requires |ms| == |os| + 1
  {
    forall n: nat :: n < |ms| && EvenVectors(ms, os, n) ==> Even(ms[n].pc)
  }

  ghost predicate UserConfined(ms: seq<Machine>, os: seq<Outcome<()>>)
    requires |ms| == |os| + 1
  {
    forall i: nat, j: nat :: Undisturbed(os, i, j) && !ms[i].sr.sys.s ==>
      !ms[j].sr.sys.s && ms[j].ssp == ms[i].ssp && SameUpperByte(ms[i].sr.sys, ms[j].sr.sys)
  }

  ghost predicate UserStackKept(ms: seq<Machine>) {
    forall i: nat, j: nat :: SupervisorStretch(ms, i, j) ==> ms[j].a[SP] == ms[i].a[SP]
  }

  /** Executes a number of instructions, or fewer where C leaves one undefined. */
  method ExecuteMany(cpu: Cpu, steps: nat) returns (ghost ms: seq<Machine>, ghost os: seq<Outcome<()>>)
    requires cpu.Valid()
    modifies cpu, cpu.d, cpu.a, cpu.mem.ram
    ensures IsRun(ms, os, cpu.hooked) && ms[0] == old(cpu.S()) && |os| <= steps
    ensures |os| == steps ==> ms[steps] == cpu.S()
    ensures |os| < steps ==> Executed(ms[|os|], cpu.hooked).Unspecified?
  {
    hide IsRun, IsStep, Executed, SafeStep, MovesToUsp, WordAt, Reaches;
    ms, os := [cpu.S()], [];
    RunStarts(cpu.S(), cpu.hooked);
    var n, going := 0, true;
    while n < steps && going
      invariant 0 <= n <= steps && n == |os| && |ms| == n + 1
      invariant IsRun(ms, os, cpu.hooked) && ms[0] == old(cpu.S())
      invariant if going then ms[n] == cpu.S() else n < steps && Executed(ms[n], cpu.hooked).Unspecified?
      decreases steps - n, going
    {
      ghost var m := cpu.S();
      var o := Execution.Execute(cpu);
      if o.Undefined? {
        NothingReached(Executed(m, cpu.hooked), o, cpu.S());
        going := false;
      } else {
        OneStep(m, o, cpu.S(), cpu.hooked);
        RunExtends(ms, os, o, cpu.S(), cpu.hooked);
        ms, os := ms + [cpu.S()], os + [o];
        n := n + 1;
      }
    }
  }

  lemma NothingReached(e: Expected, o: Outcome<()>, m': Machine)
    requires Reaches(e, o, m') && o.Undefined?
    ensures e.Unspecified?
  {
  }

  lemma RunStarts(m: Machine, hooked: bool)
    ensures IsRun([m], [], hooked)
  {
  }

  lemma RunExtends(ms: seq<Machine>, os: seq<Outcome<()>>, o: Outcome<()>, m': Machine, hooked: bool)
    requires IsRun(ms, os, hooked) && IsStep(ms[|os|], o, m', hooked)
    ensures IsRun(ms + [m'], os + [o], hooked)
  {
    hide IsStep;
  }

  /** Whatever the machine and its memory hold, the modes stay apart while it runs; a clean status register stays
      clean, and an even program counter even. */
  method Run(cpu: Cpu, steps: nat) returns (ghost ms: seq<Machine>, ghost os: seq<Outcome<()>>)
    requires cpu.Valid()
    modifies cpu, cpu.d, cpu.a, cpu.mem.ram
    ensures IsRun(ms, os, cpu.hooked) && ms[0] == old(cpu.S()) && |os| <= steps
    ensures |os| == steps ==> ms[steps] == cpu.S()
    ensures |os| < steps ==> Executed(ms[|os|], cpu.hooked).Unspecified?
    ensures UserConfined(ms, os) && UserStackKept(ms)
    ensures old(cpu.S()).sr.Clean() ==> AllClean(ms)
    ensures Even(old(cpu.S()).pc) ==> EvenUnlessVectored(ms, os)
  {
    hide IsStep, UserConfined, UserStackKept, AllClean, EvenUnlessVectored, Even, SystemBits.Clean, Executed;
    ms, os := ExecuteMany(cpu, steps);
    RunKeeps(ms, os, cpu.hooked);
  }

  lemma OneStep(m: Machine, o: Outcome<()>, m': Machine, hooked: bool)
    requires !o.Undefined? && Reaches(Executed(m, hooked), o, m')
    requires SafeStep(m, m', o, MovesToUsp(WordAt(m.ram, m.pc)))
    ensures IsStep(m, o, m', hooked)
  {
    hide SafeStep, Executed, MovesToUsp, WordAt;
  }

  lemma RunKeeps(ms: seq<Machine>, os: seq<Outcome<()>>, hooked: bool)
    requires IsRun(ms, os, hooked)
    ensures UserConfined(ms, os) && UserStackKept(ms)
    ensures ms[0].sr.Clean() ==> AllClean(ms)
    ensures Even(ms[0].pc) ==> EvenUnlessVectored(ms, os)
  {
    hide IsRun, IsStep, EvenVectors, SameUpperByte, Even, SystemBits.Clean;
    hide Status.ToWord, FromWord;
    assert |ms| == |os| + 1 by { RunLength(ms, os, hooked); }
    forall i: nat, j: nat | Undisturbed(os, i, j) && !ms[i].sr.sys.s
      ensures !ms[j].sr.sys.s && ms[j].ssp == ms[i].ssp && SameUpperByte(ms[i].sr.sys, ms[j].sr.sys)
    {
      UserModeIsConfined(ms, os, hooked, i, j);
    }
    forall i: nat, j: nat | SupervisorStretch(ms, i, j)
      ensures ms[j].a[SP] == ms[i].a[SP]
    {
      UserStackPointerIsKept(ms, os, hooked, i, j);
    }
    forall n | 0 <= n < |ms| && ms[0].sr.Clean()
      ensures ms[n].sr.Clean()
    {
      StatusStaysClean(ms, os, hooked, n);
    }
    forall n: nat | n < |ms| && Even(ms[0].pc) && EvenVectors(ms, os, n)
      ensures Even(ms[n].pc)
    {
      ProgramCounterStaysEven(ms, os, hooked, n);
    }
  }

  lemma RunLength(ms: seq<Machine>, os: seq<Outcome<()>>, hooked: bool)
    requires IsRun(ms, os, hooked)
    ensures |ms| == |os| + 1
  {
    hide IsStep;
  }

  /** Initialises a processor on a memory, sets the entry point and runs: no state it ever reaches has a status bit
      outside 0xA71F, and from an even entry point the program counter is odd only after an odd vector. */
  method Boot(mem: Memory, entry: u32, hooked: bool, steps: nat)
      returns (cpu: Cpu, ghost ms: seq<Machine>, ghost os: seq<Outcome<()>>)
    requires mem.Valid()
    modifies mem.ram
    ensures fresh(cpu) && cpu.Valid() && cpu.mem == mem
    ensures IsRun(ms, os, hooked) && ms[0] == Initial(old(mem.Bytes())).(pc := entry) && |os| <= steps
    ensures |os| == steps ==> ms[steps] == cpu.S()
    ensures |os| < steps ==> Executed(ms[|os|], hooked).Unspecified?
    ensures AllClean(ms) && UserConfined(ms, os) && UserStackKept(ms)
    ensures Even(entry) ==> EvenUnlessVectored(ms, os)
  {
    hide IsRun, UserConfined, UserStackKept, AllClean, EvenUnlessVectored, Even, Executed;
    cpu := new Cpu(mem, hooked);
    cpu.pc := entry;
    ms, os := Run(cpu, steps);
  }
}
