/** MULU, MULS, DIVU and DIVS, from the instruction words in memory: products, quotients and remainders, for every
    addressing mode. */
module Products {
  import opened Words
  import opened StatusRegister
  import opened Machines
  import opened Opcodes
  import opened Operations
  import opened Addressing
  import opened Decoding
  import opened Division
  import opened MultiplyInstructions
  import ExtendedArithmetic
  import PlainEffects

  lemma MultiplyDecodes(f: Machine, w: u16, signed: bool, hooked: bool)
    requires w / 0x1000 == 0xC && OpMode(w) == if signed then 7 else 3
    ensures Performed(f, w, hooked) == Multiply(f, w, signed)
  {
    hide OpMode, EaMode, Multiply, FromRegister, FromSource, ExtendedArithmetic.Extended, PlainEffects.Exchanged;
  }

  /** MULU and MULS put the product of the operand and the low word of the register into all of the register, and set N
      and Z by it. */
  lemma MultiplyMultiplies(m: Machine, x: Reg, ea: Mode, signed: bool, hooked: bool)
    requires Coded(m, 0xC, x, if signed then 7 else 3, ea) && Readable(Fetched(m), ea, Word)
    ensures Executed(m, hooked).Becomes?
    ensures var (f, m') := (Fetched(m), Executed(m, hooked).m);
      var (a, b, r) := (Low(Word, m.d[x]), ValueOf(f, ea, Word), m'.d[x]);
      && (if signed then Signed(Long, r) == Times(Signed(Word, a), Signed(Word, b)) else r == Times(a, b))
      && m' == Tested(Behind(f, ea, Word).SetD(x, r), Long, r)
  {
    hide WordAt, Wrap32, Encode, EaReg, EaMode, OpReg, OpMode, Performed, Behind, AddressOf, ValueOf, Multiply, Times;
    hide Readable, Low, Signed;
    var (f, w) := (Fetched(m), WordAt(m.ram, m.pc));
    Begins(m, hooked);
    EncodedFields(0xC, x, if signed then 7 else 3, ea.Field(), ea.Register());
    MultiplyDecodes(f, w, signed, hooked);
    MultiplyAt(f, w, x, ea, signed);
  }

  lemma MultiplyAt(f: Machine, w: u16, x: Reg, ea: Mode, signed: bool)
    requires EaMode(w) == ea.Field() && EaReg(w) == ea.Register() && OpReg(w) == x && Readable(f, ea, Word)
    ensures Multiply(f, w, signed).Becomes?
    ensures var (a, b, r) := (Low(Word, f.d[x]), ValueOf(f, ea, Word), Multiply(f, w, signed).m.d[x]);
      && (if signed then Signed(Long, r) == Times(Signed(Word, a), Signed(Word, b)) else r == Times(a, b))
      && Multiply(f, w, signed).m == Tested(Behind(f, ea, Word).SetD(x, r), Long, r)
  {
    hide WordAt, Wrap32, EaReg, EaMode, OpReg, Behind, AddressOf, ValueOf, Accessible, Place, Times, Low, Truncate;
    hide Machine.Resolve, Machine.Load, Mulu, Muls, Signed;
    SetUp(f, ea, Word);
    Loads(f, ea, Word, true);
    BehindKeeps(f, ea, Word);
    LowIs(Word, f.d[x]);
    var (a, b) := (Low(Word, f.d[x]), ValueOf(f, ea, Word));
    SwapTimes(a, b);
    SwapTimes(Signed(Word, a), Signed(Word, b));
  }

  lemma DivideDecodes(f: Machine, w: u16, signed: bool, hooked: bool)
    requires w / 0x1000 == 8 && OpMode(w) == if signed then 7 else 3
    ensures Performed(f, w, hooked) == Divide(f, w, signed)
  {
    hide OpMode, EaMode, Divide, FromRegister, FromSource, ExtendedArithmetic.Extended;
  }

  lemma DivideAt(f: Machine, w: u16, x: Reg, ea: Mode, signed: bool)
    requires EaMode(w) == ea.Field() && EaReg(w) == ea.Register() && OpReg(w) == x && Readable(f, ea, Word)
    ensures Divide(f, w, signed) == Divided(Behind(f, ea, Word), x, ValueOf(f, ea, Word), signed)
  {
    hide WordAt, Wrap32, EaReg, EaMode, OpReg, Behind, AddressOf, ValueOf, Accessible, Place, Divided;
    hide Machine.Resolve, Machine.Load;
    SetUp(f, ea, Word);
    Loads(f, ea, Word, true);
  }

  /** An odd operand of any of the four is an address error with nothing computed. */
  lemma WordFaults(m: Machine, x: Reg, ea: Mode, divide: bool, signed: bool, hooked: bool)
    requires Coded(m, if divide then 8 else 0xC, x, if signed then 7 else 3, ea) && !Accessible(Fetched(m), ea, Word)
    ensures var f := Fetched(m);
      Executed(m, hooked) == Becomes(Behind(f, ea, Word).AddressError(Address(f, ea, Word), true, ea.FromPc()))
  {
    hide WordAt, Wrap32, Encode, EaReg, EaMode, OpReg, OpMode, AddressOf, Behind, Performed, Accessible, Place;
    hide Machine.AddressError, Machine.Resolve, Machine.Load, Mulu, Muls, Divided;
    var (f, w) := (Fetched(m), WordAt(m.ram, m.pc));
    Begins(m, hooked);
    EncodedFields(if divide then 8 else 0xC, x, if signed then 7 else 3, ea.Field(), ea.Register());
    if divide {
      DivideDecodes(f, w, signed, hooked);
    } else {
      MultiplyDecodes(f, w, signed, hooked);
    }
    SetUp(f, ea, Word);
    Faults(f, ea, Word, true);
  }

  /** A divisor of zero is an exception, with nothing changed but what the mode of the operand changes. */
  lemma DivideByZero(m: Machine, x: Reg, ea: Mode, signed: bool, hooked: bool)
    requires Coded(m, 8, x, if signed then 7 else 3, ea) && Readable(Fetched(m), ea, Word)
    requires ValueOf(Fetched(m), ea, Word) == 0
    ensures Executed(m, hooked) == Becomes(Behind(Fetched(m), ea, Word).Exception(0x14))
  {
    hide WordAt, Wrap32, Encode, EaReg, EaMode, OpReg, OpMode, Performed, Behind, AddressOf, ValueOf, Divide;
    hide Readable, Machine.Exception;
    var (f, w) := (Fetched(m), WordAt(m.ram, m.pc));
    Begins(m, hooked);
    EncodedFields(8, x, if signed then 7 else 3, ea.Field(), ea.Register());
    DivideDecodes(f, w, signed, hooked);
    DivideAt(f, w, x, ea, signed);
  }

  /** The register as a dividend and the operand as a divisor. */
  function Dividend(m: Machine, x: Reg, signed: bool): int {
    if signed then Signed(Long, m.d[x]) else m.d[x]
  }

  function Reading(signed: bool, v: u16): int {
    if signed then Signed(Word, v) else v
  }

  /** Quotient and remainder of a division that truncates, the quotient in the low word and the remainder in the high
      one: `v` is the register after the division. */
  ghost predicate Packs(signed: bool, dividend: int, divisor: int, v: u32) {
    Divides(dividend, divisor, Reading(signed, Rem(v, 0x1_0000)), Reading(signed, Quot(v, 0x1_0000)))
  }

  /** No quotient of a word exists. */
  ghost predicate Exceeds(signed: bool, dividend: int, divisor: int) {
    forall q, r :: Divides(dividend, divisor, q, r) ==> if signed then !Fits(Word, q) else q > 0xFFFF
  }

  /** DIVU and DIVS divide all of the register by the operand: the quotient goes to the low word and the remainder to
      the high one, with N and Z of the quotient. When no word holds the quotient, V is set and the register is as it
      was. */
  lemma DivideDivides(m: Machine, x: Reg, ea: Mode, signed: bool, hooked: bool)
    requires Coded(m, 8, x, if signed then 7 else 3, ea) && Readable(Fetched(m), ea, Word)
    requires ValueOf(Fetched(m), ea, Word) != 0
    requires !(signed && m.d[x] == 0x8000_0000 && ValueOf(Fetched(m), ea, Word) == 0xFFFF)
    ensures Executed(m, hooked).Becomes?
    ensures var (f, m') := (Fetched(m), Executed(m, hooked).m);
      var (a, b, q: u16) := (Dividend(m, x, signed), Reading(signed, ValueOf(f, ea, Word)), Rem(m'.d[x], 0x1_0000));
      && m' == Behind(f, ea, Word).SetD(x, m'.d[x]).(sr := m'.sr)
      && m'.sr.x == m.sr.x && m'.sr.sys == m.sr.sys
      && if m'.sr.v then m'.d[x] == m.d[x] && Exceeds(signed, a, b)
         else
           && Packs(signed, a, b, m'.d[x])
           && m'.sr == m.sr.(n := Signed(Word, q) < 0, z := q == 0, v := false, c := false)
  {
    hide WordAt, Wrap32, Encode, EaReg, EaMode, OpReg, OpMode, Performed, Behind, AddressOf, ValueOf, Divide, Divided;
    hide Readable, Dividend, Reading, Packs, Exceeds, Rem, Signed;
    var (f, w) := (Fetched(m), WordAt(m.ram, m.pc));
    Begins(m, hooked);
    EncodedFields(8, x, if signed then 7 else 3, ea.Field(), ea.Register());
    DivideDecodes(f, w, signed, hooked);
    DivideAt(f, w, x, ea, signed);
    BehindKeeps(f, ea, Word);
    DividedMeans(Behind(f, ea, Word), x, ValueOf(f, ea, Word), signed);
    DividendKept(m, Behind(f, ea, Word), x, signed);
  }

  lemma DividendKept(m: Machine, g: Machine, x: Reg, signed: bool)
    requires g.d == m.d
    ensures Dividend(g, x, signed) == Dividend(m, x, signed)
  {
  }

  lemma DividedMeans(g: Machine, x: Reg, divisor: u16, signed: bool)
    requires divisor != 0 && !(signed && g.d[x] == 0x8000_0000 && divisor == 0xFFFF)
    ensures Divided(g, x, divisor, signed).Becomes?
    ensures var m' := Divided(g, x, divisor, signed).m;
      var (a, b, q: u16) := (Dividend(g, x, signed), Reading(signed, divisor), Rem(m'.d[x], 0x1_0000));
      && m' == g.SetD(x, m'.d[x]).(sr := m'.sr)
      && m'.sr.x == g.sr.x && m'.sr.sys == g.sr.sys
      && if m'.sr.v then m'.d[x] == g.d[x] && Exceeds(signed, a, b)
         else
           && Packs(signed, a, b, m'.d[x])
           && m'.sr == g.sr.(n := Signed(Word, q) < 0, z := q == 0, v := false, c := false)
  {
    hide Times, Quot, Rem, Pack, Divu, Divs, Divides, Muls, Mulu;
    assert g.d[x := g.d[x]] == g.d;
    if signed {
      DivsInverts(g.d[x], divisor, g.sr);
    } else {
      DivuInverts(g.d[x], divisor, g.sr);
      UnsignedDivides(g.d[x], divisor, g.sr);
    }
  }

  lemma UnsignedDivides(dividend: u32, divisor: u16, sr: Status)
    requires divisor != 0
    ensures match Divu(dividend, divisor, sr)
      case Packed(v, _) => Divides(dividend, divisor, Rem(v, 0x1_0000), Quot(v, 0x1_0000))
      case Overflow(_) => forall q, r :: Divides(dividend, divisor, q, r) ==> q > 0xFFFF
  {
    hide Times, Quot, Rem, Pack, Divu;
    DivuInverts(dividend, divisor, sr);
    if Divu(dividend, divisor, sr).Packed? {
      QuotPositive(Divu(dividend, divisor, sr).value, 0x1_0000);
    } else {
      forall q, r | Divides(dividend, divisor, q, r)
        ensures q > 0xFFFF
      {
        if q <= 0xFFFF {
          AtMost(q, divisor, r);
        }
      }
    }
  }

  lemma AtMost(q: int, b: u16, r: int)
    requires q <= 0xFFFF && r < b
    ensures Times(q, b) + r < Times(0x1_0000, b)
  {
    Distribute(0x1_0000, q, b);
    TimesBound(1, 0x1_0000 - q, b);
    TimesOne(b);
  }
}
