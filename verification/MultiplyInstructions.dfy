/** MULU, MULS, DIVU and DIVS in place. */
module MultiplyInstructions {
  import opened Words
  import opened StatusRegister
  import opened Machines
  import opened Safety
  import opened Opcodes
  import opened Operations
  import opened Cpus
  import opened Division
  import Alu

  function Multiply(m: Machine, opcode: u16, signed: bool): Expected {
    var reg := OpReg(opcode);
    match m.Resolve(EaReg(opcode), EaMode(opcode), 2)
    case At(m1, at) => (
      match m1.Load(at, Word, true)
      case Value(v) =>
        var low: u16 := Truncate(Word, m1.d[reg]);
        var r := if signed then Muls(v, low) else Mulu(v, low);
        Becomes(m1.SetD(reg, r).(sr := LongCodes(r, m1.sr)))
      case Fault(m2, _) => Becomes(m2)
      case OutOfRange => Unspecified)
    case IllegalMode => Becomes(m.Exception(VECTOR_ILLEGAL_INSTRUCTION))
  }

  /** Division by zero is an exception; C leaves the most negative dividend over -1 undefined. */
  function Divided(m: Machine, reg: Reg, divisor: u16, signed: bool): Expected {
    if divisor == 0 then Becomes(m.Exception(VECTOR_DIVIDE_BY_ZERO))
    else if signed && m.d[reg] == 0x8000_0000 && divisor == 0xFFFF then Unspecified
    else
      match if signed then Divs(m.d[reg], divisor, m.sr) else Divu(m.d[reg], divisor, m.sr)
      case Packed(v, sr) => Becomes(m.SetD(reg, v).(sr := sr))
      case Overflow(sr) => Becomes(m.(sr := sr))
  }

  function Divide(m: Machine, opcode: u16, signed: bool): Expected {
    match m.Resolve(EaReg(opcode), EaMode(opcode), 2)
    case At(m1, at) => (
      match m1.Load(at, Word, true)
      case Value(v) => Divided(m1, OpReg(opcode), v, signed)
      case Fault(m2, _) => Becomes(m2)
      case OutOfRange => Unspecified)
    case IllegalMode => Becomes(m.Exception(VECTOR_ILLEGAL_INSTRUCTION))
  }

  /** Reads the word operand, which is the same in all four instructions. */
  method WordOperand(cpu: Cpu, opcode: u16) returns (o: Outcome<u32>)
    requires cpu.Valid()
    modifies cpu, cpu.a, cpu.mem.ram
    ensures Safe(old(cpu.S()), cpu.S(), o)
    ensures o.Done? ==> o.value < 0x1_0000
    ensures match old(cpu.S()).Resolve(EaReg(opcode), EaMode(opcode), 2)
      case At(m1, at) => (
        match m1.Load(at, Word, true)
        case Value(v) => o == Done(v) && cpu.S() == m1
        case Fault(m2, vector) => o == Outcome<u32>.Exception(vector) && cpu.S() == m2
        case OutOfRange => o.Undefined?)
      case IllegalMode => o.Exception? && cpu.S() == old(cpu.S()).Exception(VECTOR_ILLEGAL_INSTRUCTION)
  {
    hide Within, Taken, EaReg, EaMode;
    hide Machine.Resolve, Machine.Exception, Machine.Load;
    ghost var m := cpu.S();
    var _ :- cpu.SrcSet(EaReg(opcode), EaMode(opcode), 2);
    ghost var m1 := cpu.S();
    o := cpu.SrcRead(Word);
    SafeAfter(m, m1, cpu.S(), o);
  }

  method MultiplyInstruction(cpu: Cpu, opcode: u16, signed: bool) returns (o: Outcome<()>)
    requires cpu.Valid()
    modifies cpu, cpu.d, cpu.a, cpu.mem.ram
    ensures Reaches(Multiply(old(cpu.S()), opcode, signed), o, cpu.S())
    ensures Safe(old(cpu.S()), cpu.S(), o)
  {
    hide Within, Taken, EaReg, EaMode, OpReg, Truncate, Signed, BitAt, Mulu, Muls;
    hide Machine.Resolve, Machine.Exception, Machine.Load;
    ghost var m := cpu.S();
    var v :- WordOperand(cpu, opcode);
    ghost var m1 := cpu.S();
    var reg := OpReg(opcode);
    var low: u16 := Truncate(Word, cpu.d[reg]);
    var product := if signed then Muls(v, low) else Mulu(v, low);
    TopBit(Long, product);
    SignOfTop(product);
    cpu.SetDataReg(reg, product);
    cpu.n := BitAt(product, 0x8000_0000);
    cpu.z := product == 0;
    cpu.v := false;
    cpu.c := false;
    PlainWithin(m1, cpu.S());
    WithinTwice(m, m1, cpu.S());
    o := Done(());
  }

  lemma SignOfTop(v: u32)
    ensures Alu.Negative(Long, v) <==> v >= 0x8000_0000
  {
  }

  method DivideInstruction(cpu: Cpu, opcode: u16, signed: bool) returns (o: Outcome<()>)
    requires cpu.Valid()
    modifies cpu, cpu.d, cpu.a, cpu.mem.ram
    ensures Reaches(Divide(old(cpu.S()), opcode, signed), o, cpu.S())
    ensures Safe(old(cpu.S()), cpu.S(), o)
  {
    hide Within, Taken, EaReg, EaMode, OpReg, Divided;
    hide Machine.Resolve, Machine.Exception, Machine.Load;
    ghost var m := cpu.S();
    var v :- WordOperand(cpu, opcode);
    ghost var m1 := cpu.S();
    o := DivideBy(cpu, OpReg(opcode), v, signed);
    SafeAfter(m, m1, cpu.S(), o);
  }

  /** Quotient and remainder of the two divisions, and whether the quotient has sixteen bits. */
  method ComputeQuotient(dividend: u32, divisor: u16, signed: bool, ghost sr: Status)
      returns (fits: bool, q: u16, r: u16)
    requires divisor != 0
    ensures (if signed then Divs(dividend, divisor, sr) else Divu(dividend, divisor, sr))
         == if fits then Packed(Pack(q, r), QuotientCodes(q, sr)) else Overflow(OverflowCodes(sr))
  {
    hide Signed, Fits, TruncatedQuotient, TruncatedRemainder, Quot, Rem, Pack, SignedWord;
    q, r := 0, 0;
    if signed {
      var a, b := Signed(Long, dividend), Signed(Word, divisor);
      SignedDivisor(divisor);
      Truncated(a, b);
      fits := Fits(Word, TruncatedQuotient(a, b));
      if fits {
        RemainderFits(TruncatedRemainder(a, b), divisor);
        q, r := SignedWord(TruncatedQuotient(a, b)), SignedWord(TruncatedRemainder(a, b));
      }
    } else {
      QuotPositive(dividend, divisor);
      fits := Quot(dividend, divisor) <= 0xFFFF;
      if fits {
        q, r := Quot(dividend, divisor), Rem(dividend, divisor);
      }
    }
  }

  method DivideBy(cpu: Cpu, reg: Reg, divisor: u16, signed: bool) returns (o: Outcome<()>)
    requires cpu.Valid()
    modifies cpu, cpu.d, cpu.a, cpu.mem.ram
    ensures Reaches(Divided(old(cpu.S()), reg, divisor, signed), o, cpu.S())
    ensures Safe(old(cpu.S()), cpu.S(), o)
  {
    hide Within, Taken, Divs, Divu, Pack;
    hide Machine.Exception;
    if divisor == 0 {
      o := cpu.Raise(VECTOR_DIVIDE_BY_ZERO);
      return;
    }
    if signed && cpu.d[reg] == 0x8000_0000 && divisor == 0xFFFF {
      return Undefined;
    }
    ghost var m := cpu.S();
    var fits, q, r := ComputeQuotient(cpu.d[reg], divisor, signed, cpu.Sr());
    cpu.c := false;
    if fits {
      cpu.SetDataReg(reg, Pack(q, r));
      cpu.n, cpu.z, cpu.v := q >= 0x8000, q == 0, false;
    } else {
      cpu.n, cpu.z, cpu.v := true, false, true;
    }
    PlainWithin(m, cpu.S());
    o := Done(());
  }

  lemma SignedDivisor(divisor: u16)
    ensures Signed(Word, divisor) == 0 <==> divisor == 0
  {
  }

  lemma RemainderFits(r: int, divisor: u16)
    requires Magnitude(r) < Magnitude(Signed(Word, divisor))
    ensures Fits(Word, r)
  {
  }
}
