/** The shift and rotate instructions, from the instruction words in memory: which shift a word names, by how much, and
    where its result goes. */
module ShiftInstructions {
  import opened Words
  import opened StatusRegister
  import opened Machines
  import opened Opcodes
  import opened Operations
  import opened Addressing
  import opened Decoding
  import opened DataMovement
  import opened IntegerArithmetic
  import Alu
  import Shifts

  /** The four pairs, as the instruction words number them: arithmetic, logical, through X, and plain rotation. */
  function Meaning(kind: int, left: bool, sz: Size, v: u32, count: nat, sr: Status): (out: Alu.Out)
    requires 0 <= kind < 4 && v < sz.Modulus()
    ensures out.value < sz.Modulus()
  {
    Shifts.RightBound(sz, v, count);
    match (kind, left)
    case (0, true) => Shifts.Asl(sz, v, count, sr)
    case (0, false) => Shifts.Asr(sz, v, count, sr)
    case (1, true) => Shifts.Lsl(sz, v, count, sr)
    case (1, false) => Shifts.Lsr(sz, v, count, sr)
    case (2, true) => Shifts.Roxl(sz, v, count, sr)
    case (2, false) => Shifts.Roxr(sz, v, count, sr)
    case (_, true) => Shifts.Rol(sz, v, count, sr)
    case (_, false) => Shifts.Ror(sz, v, count, sr)
  }

  lemma MeaningIs(kind: int, left: bool, sz: Size, v: u32, count: nat, sr: Status)
    requires 0 <= kind < 4 && v < sz.Modulus()
    ensures ShiftOf(kind, left).Apply(sz, v, count, sr) == Meaning(kind, left, sz, v, count, sr)
  {
    hide Shifts.Asl, Shifts.Asr, Shifts.Lsl, Shifts.Lsr, Shifts.Roxl, Shifts.Roxr, Shifts.Rol, Shifts.Ror;
  }

  /** The shifts as arithmetic: to the left the product with a power of two, to the right the quotient, rounded down. */
  lemma ShiftsMean(left: bool, sz: Size, v: u32, count: nat, sr: Status)
    requires v < sz.Modulus()
    ensures left ==> Meaning(0, left, sz, v, count, sr).value == Rem(Times(v, Pow(2, count)), sz.Modulus())
    ensures left ==> Meaning(1, left, sz, v, count, sr).value == Rem(Times(v, Pow(2, count)), sz.Modulus())
    ensures Pow(2, count) > 0
    ensures !left ==> Signed(sz, Meaning(0, left, sz, v, count, sr).value) == Quot(Signed(sz, v), Pow(2, count))
    ensures !left ==> Meaning(1, left, sz, v, count, sr).value == Quot(v, Pow(2, count))
  {
    PowPositive(2, count);
    Shifts.SignedRightFits(sz, v, count);
  }

  /** A rotation to the left by `k` is the product with 2^k, where what comes out at the top comes in below: modulo one
      less than the size, it is the product. */
  lemma RolMultiplies(sz: Size, v: u32, count: nat, sr: Status)
    requires v < sz.Modulus()
    ensures var k := count % sz.Bits();
      && 0 <= k <= sz.Bits() && Pow(2, sz.Bits() - k) > 0
      && Times(v, Pow(2, k)) == Meaning(3, true, sz, v, count, sr).value
                                + Times(Quot(v, Pow(2, sz.Bits() - k)), sz.Modulus() - 1)
  {
    hide Times, Quot, Rem, Pow;
    Shifts.Remainder(count, sz.Bits());
    var k := count % sz.Bits();
    var (p, q) := (Pow(2, sz.Bits() - k), Pow(2, k));
    PowPositive(2, sz.Bits() - k);
    QuotRem(v, p);
    var (a, b) := (Quot(v, p), Rem(v, p));
    Distribute(Times(a, p), b, q);
    TimesAssoc(a, p, q);
    PowAdd(2, sz.Bits() - k, k);
    Shifts.PowBits(sz);
    TimesMinusOne(a, sz.Modulus());
  }

  lemma TimesMinusOne(a: int, m: int)
    ensures Times(a, m) == Times(a, m - 1) + a
  {
  }

  // ---- Data registers ----

  lemma RegisterDecodes(f: Machine, w: u16, hooked: bool)
    requires w / 0x1000 == 14 && SizeField(w) != 3
    ensures Performed(f, w, hooked)
      == ShiftedRegister(f, w, SizeOf(SizeField(w)), ShiftOf(w / 8 % 4, CondField(w) % 2 == 1))
  {
    hide SizeField, CondField, SizeOf, ShiftedRegister, ToDestination, ShiftOf;
  }

  lemma ShiftFields(w: u16, n: Reg, kind: Reg, left: bool, sz: Size, byRegister: bool, r: Reg)
    requires kind < 4
    requires w == Encode(14, n, SizeNumber(sz) + if left then 4 else 0, kind + if byRegister then 4 else 0, r)
    ensures w / 0x1000 == 14 && OpReg(w) == n && EaReg(w) == r && w / 8 % 4 == kind
    ensures SizeField(w) != 3 && SizeOf(SizeField(w)) == sz && (CondField(w) % 2 == 1 <==> left)
    ensures w / 0x20 % 2 == 1 <==> byRegister
  {
    hide Encode, OpReg, EaMode, EaReg, SizeField, CondField;
    EncodedFields(14, n, SizeNumber(sz) + if left then 4 else 0, kind + if byRegister then 4 else 0, r);
    if left {
      ParityIs(CondField(w), n, 1);
    } else {
      ParityIs(CondField(w), n, 0);
    }
  }

  /** The count: one to eight in the word, or a data register modulo 64. */
  function CountOf(m: Machine, n: Reg, byRegister: bool): (k: int)
    ensures 0 <= k < 64
  {
    if byRegister then m.d[n] % 64 else QuickNumber(n)
  }

  /** A data register is shifted in its low part. */
  lemma RegisterShifts(m: Machine, n: Reg, kind: Reg, left: bool, sz: Size, byRegister: bool, r: Reg, hooked: bool)
    requires kind < 4
    requires WordAt(m.ram, m.pc)
      == Encode(14, n, SizeNumber(sz) + if left then 4 else 0, kind + if byRegister then 4 else 0, r)
    ensures var out := Meaning(kind, left, sz, Low(sz, m.d[r]), CountOf(m, n, byRegister), m.sr);
      Executed(m, hooked) == Becomes(Fetched(m).SetD(r, WithLow(sz, m.d[r], out.value)).(sr := out.sr))
  {
    hide WordAt, Wrap32, Encode, EaReg, OpReg, SizeField, CondField, Performed, ShiftedRegister, Meaning, CountOf;
    hide Low, WithLow, SizeOf;
    var (f, w) := (Fetched(m), WordAt(m.ram, m.pc));
    Begins(m, hooked);
    ShiftFields(w, n, kind, left, sz, byRegister, r);
    RegisterDecodes(f, w, hooked);
    RegisterAt(f, w, n, kind, left, sz, byRegister, r);
    CountKept(m, n, byRegister);
  }

  lemma CountKept(m: Machine, n: Reg, byRegister: bool)
    ensures CountOf(Fetched(m), n, byRegister) == CountOf(m, n, byRegister)
  {
    hide WordAt, Wrap32;
  }

  lemma RegisterAt(f: Machine, w: u16, n: Reg, kind: Reg, left: bool, sz: Size, byRegister: bool, r: Reg)
    requires kind < 4 && OpReg(w) == n && EaReg(w) == r && (w / 0x20 % 2 == 1 <==> byRegister)
    ensures var out := Meaning(kind, left, sz, Low(sz, f.d[r]), CountOf(f, n, byRegister), f.sr);
      ShiftedRegister(f, w, sz, ShiftOf(kind, left))
      == Becomes(f.SetD(r, WithLow(sz, f.d[r], out.value)).(sr := out.sr))
  {
    hide OpReg, EaReg, ShiftOf, Shift.Apply, Meaning, Low, Truncate, Merge;
    LowIs(sz, f.d[r]);
    MeaningIs(kind, left, sz, Low(sz, f.d[r]), CountOf(f, n, byRegister), f.sr);
  }

  // ---- Memory ----

  lemma MemoryDecodes(f: Machine, w: u16, hooked: bool)
    requires w / 0x1000 == 14 && SizeField(w) == 3
    ensures Performed(f, w, hooked)
      == ToDestination(f, w, Word, Shifted(ShiftOf(w / 0x200 % 4, CondField(w) % 2 == 1)), 1)
  {
    hide SizeField, CondField, SizeOf, ShiftedRegister, ToDestination, ShiftOf;
  }

  /** A word in memory is shifted by one, and stays where it was. */
  lemma MemoryShifts(m: Machine, kind: Reg, left: bool, ea: Mode, hooked: bool)
    requires kind < 4 && Coded(m, 14, kind, if left then 7 else 3, ea)
    requires ea.Alterable() && Accessible(Fetched(m), ea, Word)
    ensures var f := Fetched(m);
      var out := Meaning(kind, left, Word, ValueOf(f, ea, Word), 1, m.sr);
      Executed(m, hooked)
      == Becomes(Written(Behind(f, ea, Word).(sr := out.sr), ea, Address(f, ea, Word), Word, out.value))
  {
    hide WordAt, Wrap32, Encode, EaReg, EaMode, OpReg, SizeField, CondField, Performed, ToDestination, Meaning;
    hide Behind, AddressOf, ValueOf, Written, Accessible, ShiftOf, Shift.Apply;
    var (f, w) := (Fetched(m), WordAt(m.ram, m.pc));
    Begins(m, hooked);
    MemoryFields(w, kind, left, ea);
    MemoryDecodes(f, w, hooked);
    DestinationAt(f, w, ea, Word, Shifted(ShiftOf(kind, left)), 1);
    MeaningIs(kind, left, Word, ValueOf(f, ea, Word), 1, m.sr);
  }

  lemma MemoryFields(w: u16, kind: Reg, left: bool, ea: Mode)
    requires kind < 4 && w == Encode(14, kind, if left then 7 else 3, ea.Field(), ea.Register())
    ensures w / 0x1000 == 14 && SizeField(w) == 3 && w / 0x200 % 4 == kind && (CondField(w) % 2 == 1 <==> left)
    ensures EaMode(w) == ea.Field() && EaReg(w) == ea.Register()
  {
    hide Encode, OpReg, EaMode, EaReg, SizeField, CondField;
    EncodedFields(14, kind, if left then 7 else 3, ea.Field(), ea.Register());
    if left {
      ParityIs(CondField(w), kind, 1);
    } else {
      ParityIs(CondField(w), kind, 0);
    }
  }
}
