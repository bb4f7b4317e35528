/** Loops closed by DBcc: how often the branch is taken, and what is left in the counter. */
module CountedLoop {
  import opened Words
  import opened StatusRegister
  import opened Machines
  import opened Opcodes
  import opened ControlFlow
  import Conditions

  /** Where a DBcc that has just been fetched continues, and where it branches to. */
  function NextOf(m: Machine): u32 {
    m.Fetch().pc
  }

  function TargetOf(m: Machine): u32 {
    Wrap32(m.Fetch().pc + (m.Fetch().Displacement() - 2))
  }

  /** One DBcc whose condition does not hold, with an even target. */
  lemma DbccCounts(m: Machine, opcode: u16)
    requires !Conditions.Holds(CondField(opcode), m.sr) && Even(TargetOf(m))
    ensures var m', reg := Dbcc(m, opcode), EaReg(opcode);
      && m'.pc == (if LowWord(m.d[reg]) == 0 then NextOf(m) else TargetOf(m))
      && LowWord(m'.d[reg]) == (if LowWord(m.d[reg]) == 0 then 0xFFFF else LowWord(m.d[reg]) - 1)
      && Quot(m'.d[reg], 0x1_0000) == Quot(m.d[reg], 0x1_0000)
      && (forall r: Reg :: r != reg ==> m'.d[r] == m.d[r])
      && m'.a == m.a && m'.ssp == m.ssp && m'.sr == m.sr && m'.ram == m.ram
  {
    hide Wrap32, Even, LowWord, Merge, Quot, Rem, WordAt;
    hide Machine.Displacement, Machine.AddressError;
    var count: int := LowWord(m.d[EaReg(opcode)]);
    var next := if count == 0 then 0xFFFF else count - 1;
    MergeParts(Word, m.d[EaReg(opcode)], next);
    LowWordIsRem(Merge(Word, m.d[EaReg(opcode)], next));
  }

  lemma LowWordIsRem(v: u32)
    ensures LowWord(v) == Rem(v, 0x1_0000)
  {
  }

  /** An odd target is an address error at the displacement word, with the counter as it was. */
  lemma OddTargetKeepsCounter(m: Machine, opcode: u16)
    requires !Conditions.Holds(CondField(opcode), m.sr) && !Even(TargetOf(m)) && LowWord(m.d[EaReg(opcode)]) != 0
    ensures Dbcc(m, opcode) == m.Fetch().(pc := Wrap32(NextOf(m) - 2)).AddressError(TargetOf(m), true, true)
    ensures Dbcc(m, opcode).d == m.d
  {
    hide Wrap32, Even, LowWord, Merge, WordAt, LongAt, PutWord, Status.ToWord;
    hide Machine.Displacement, Machine.AccessWord;
  }

  /** The machines before each DBcc of a loop: the condition never holds, the target is an even address other than
      the next instruction, and whatever runs between a taken branch and the next DBcc keeps the counter. */
  ghost predicate LoopRun(s: seq<Machine>, opcode: u16) {
    && |s| > 0
    && (forall i :: 0 <= i < |s| ==>
          !Conditions.Holds(CondField(opcode), s[i].sr) && Even(TargetOf(s[i])) && TargetOf(s[i]) != NextOf(s[i]))
    && forall i :: 0 <= i < |s| - 1 ==> Continues(s[i], s[i + 1], opcode)
  }

  /** The branch was taken, and the loop body kept the counter. */
  predicate Continues(m: Machine, m': Machine, opcode: u16) {
    && Dbcc(m, opcode).pc == TargetOf(m)
    && m'.d[EaReg(opcode)] == Dbcc(m, opcode).d[EaReg(opcode)]
  }

  /** A counter starting at `k` takes the branch `k` times and no more, and then leaves -1 in its low word; its high
      word never changes. */
  lemma {:induction false} LoopCounts(s: seq<Machine>, opcode: u16, n: nat)
    requires LoopRun(s, opcode) && n < |s|
    ensures var reg, k := EaReg(opcode), LowWord(s[0].d[EaReg(opcode)]);
      && n <= k && LowWord(s[n].d[reg]) == k - n
      && Quot(s[n].d[reg], 0x1_0000) == Quot(s[0].d[reg], 0x1_0000)
      && (n < k ==> Dbcc(s[n], opcode).pc == TargetOf(s[n]))
      && (n == k ==> Dbcc(s[n], opcode).pc == NextOf(s[n]) && LowWord(Dbcc(s[n], opcode).d[reg]) == 0xFFFF
                     && Quot(Dbcc(s[n], opcode).d[reg], 0x1_0000) == Quot(s[0].d[reg], 0x1_0000))
  {
    hide Dbcc, LowWord, Quot, TargetOf, NextOf, Even, CondField, EaReg, Conditions.Holds;
    DbccCounts(s[n], opcode);
    if n > 0 {
      LoopCounts(s, opcode, n - 1);
      DbccCounts(s[n - 1], opcode);
      assert Continues(s[n - 1], s[n], opcode);
    }
  }
}
