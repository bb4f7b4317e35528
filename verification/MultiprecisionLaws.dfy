/** More about chains of ADDX, SUBX, ABCD and SBCD: the sign and overflow of the whole number,
    subtraction undoing addition, and limbs as big-endian strings of bytes. */
module MultiprecisionLaws {
  import opened Words
  import opened StatusRegister
  import opened Memories
  import opened Machines
  import opened Multiprecision
  import Alu

  // ---- Sign and overflow of the whole number ----

  /** Two's complement reading of a number below `p`, where `p` is even. */
  function SignedNumber(v: int, p: int): int {
    if 2 * v < p then v else v - p
  }

  predicate FitsNumber(v: int, p: int) {
    -p <= 2 * v < p
  }

  /** The sign of a number is the sign of its top limb. */
  lemma SignOfTopLimb(sz: Size, low: int, q: int, top: int)
    requires 0 <= low < q && 0 <= top < sz.Modulus()
    ensures SignedNumber(low + Times(top, q), Times(sz.Modulus(), q)) == low + Times(Signed(sz, top), q)
  {
    hide Times;
    Distribute(sz.Half(), sz.Half(), q);
    Distribute(top, sz.Modulus(), q);
    TimesOne(q);
    if top < sz.Half() {
      Distribute(sz.Half() - 1 - top, top, q);
      Distribute(sz.Half(), 1, q);
      TimesBound(0, sz.Half() - 1 - top, q);
    } else {
      Distribute(top, sz.Half(), q);
      TimesBound(0, top - sz.Half(), q);
    }
  }

  /** A signed number fits when its top limb does. */
  lemma FitsOfTopLimb(sz: Size, low: int, q: int, top: int)
    requires 0 <= low < q
    ensures FitsNumber(low + Times(top, q), Times(sz.Modulus(), q)) == Fits(sz, top)
  {
    hide Times;
    var h := sz.Half();
    Distribute(h, h, q);
    TimesOne(q);
    if top >= h {
      Distribute(top, h, q);
      TimesBound(0, top - h, q);
    } else if top < -h {
      Distribute(top, h, q);
      Distribute(0, -h - top, q);
      Distribute(-h - top, 1, q);
      TimesBound(0, -h - top - 1, q);
    } else {
      Distribute(top, h, q);
      TimesBound(0, top + h, q);
      Distribute(h - 1, top, q);
      Distribute(h, 1, q);
      TimesBound(0, h - 1 - top, q);
    }
  }

  /** N and V after one limb, from the signed values of the operands. */
  lemma CombineSigns(op: ExtendedOp, src: u32, dst: u32, sr: Status)
    requires op.Binary() && src < op.Width().Modulus() && dst < op.Width().Modulus()
    ensures var out := op.Combine(src, dst, sr);
      && (out.sr.n <==> Signed(op.Width(), out.value) < 0)
      && (out.sr.v <==> !Fits(op.Width(), Total(op, Signed(op.Width(), dst), Signed(op.Width(), src), sr.x)))
  {
    hide Fits, Signed;
  }

  /** The column sum, with the top limbs read as signed. */
  lemma SignedColumn(op: ExtendedOp, dst: int, src: int, x0: bool, r: int, x1: bool, q: int, d: int, s: int)
    requires Total(op, dst, src, x0) == r + Excess(op, x1, q)
    ensures Total(op, dst + Times(d, q), src + Times(s, q), x0) == r + Times(Total(op, d, s, x1), q)
  {
    hide Times;
    OnePlace(op, dst, src, x0, r, x1, q, d, s, Total(op, d, s, x1), false, 0);
  }

  /** N is the sign and V the signed overflow of the whole n-limb operation. */
  lemma ChainSetsSigns(m: Machine, op: ExtendedOp, y: Reg, x: Reg, n: nat)
    requires n >= 1 && op.Binary() && Aligned(m, op, y, x) && Operands(m, op, y, x, n)
    ensures var m', p := Chain(m, op, y, x, n), Pow(op.Base(), n);
      var dst, src := Number(op, m.ram, m.A(x), n), Number(op, m.ram, m.A(y), n);
      var r := Number(op, m'.ram, m.A(x), n);
      && (m'.sr.n <==> SignedNumber(r, p) < 0)
      && (m'.sr.v <==> !FitsNumber(Total(op, SignedNumber(dst, p), SignedNumber(src, p), m.sr.x), p))
  {
    hide Times, Cell, Wrap32, Below, Span, Raw, Step, AtDigit, AgreeOutside, AgreeBelow, Total, Excess;
    hide Signed, Fits, SignedNumber, FitsNumber, Alu.Addx, Alu.Subx, Alu.AddBcd, Alu.SubBcd;
    var m' := Chain(m, op, y, x, n - 1);
    var sz, q := op.Width(), Pow(op.Base(), n - 1);
    FewerOperands(m, op, y, x, n);
    ChainSums(m, op, y, x, n - 1);
    ChainSums(m, op, y, x, n);
    Untouched(m, m', op, y, x, n);
    StepMoves(m, m', op, y, x, n);
    var src, dst := Raw(op, m.ram, m.A(y), n), Raw(op, m.ram, m.A(x), n);
    var lowSrc, lowDst := Number(op, m.ram, m.A(y), n - 1), Number(op, m.ram, m.A(x), n - 1);
    var low := Number(op, m'.ram, m.A(x), n - 1);
    NumberBound(op, m.ram, m.A(y), n - 1);
    NumberBound(op, m.ram, m.A(x), n - 1);
    NumberBound(op, m'.ram, m.A(x), n - 1);
    CombineSigns(op, src, dst, m'.sr);
    SignOfTopLimb(sz, lowSrc, q, src);
    SignOfTopLimb(sz, lowDst, q, dst);
    SignedColumn(op, lowDst, lowSrc, m.sr.x, low, m'.sr.x, q, Signed(sz, dst), Signed(sz, src));
    FitsOfTopLimb(sz, low, q, Total(op, Signed(sz, dst), Signed(sz, src), m'.sr.x));
    ResultSign(m, m', op, y, x, n, op.Combine(src, dst, m'.sr).value);
  }

  lemma ResultSign(m: Machine, m': Machine, op: ExtendedOp, y: Reg, x: Reg, n: nat, value: u32)
    requires n >= 1 && op.Binary() && Operands(m, op, y, x, n) && value < op.Width().Modulus()
    requires Chain(m, op, y, x, n - 1) == m' && ProperDigits(op, m'.ram, m.A(x), n - 1)
    requires Chain(m, op, y, x, n).ram == WriteSized(m'.ram, op.Width(), m.A(x) - Span(op.Width(), n), value)
    ensures SignedNumber(Number(op, Chain(m, op, y, x, n).ram, m.A(x), n), Pow(op.Base(), n)) < 0
            <==> Signed(op.Width(), value) < 0
  {
    hide Times, Cell, Wrap32, Below, Span, Raw, Step, AtDigit, AgreeOutside, AgreeBelow, Chain, ReadSized, WriteSized;
    hide SignedNumber, Signed;
    var ram'', top, sz := Chain(m, op, y, x, n).ram, m.A(x), op.Width();
    var low, q := Number(op, m'.ram, top, n - 1), Pow(op.Base(), n - 1);
    SpanStep(sz, n);
    ReadBack(m'.ram, sz, top - Span(sz, n), value);
    WriteBelow(m'.ram, sz, top, Span(sz, n), value);
    NumberAgrees(op, m'.ram, ram'', top, n - 1);
    NumberBound(op, m'.ram, top, n - 1);
    RawIs(op, ram'', top, n, value);
    SignOfTopLimb(sz, low, q, value);
    SignOfSum(low, q, Signed(sz, value));
  }

  lemma RawIs(op: ExtendedOp, ram: Ram, top: int, n: nat, value: u32)
    requires ReadSized(ram, op.Width(), top - Span(op.Width(), n)) == value
    ensures Raw(op, ram, top, n) == value
  {
  }

  lemma SignOfSum(low: int, q: int, t: int)
    requires 0 <= low < q
    ensures low + Times(t, q) < 0 <==> t < 0
  {
    hide Times;
    Distribute(0, -t, q);
    Distribute(-t - 1, 1, q);
    TimesOne(q);
    if t < 0 {
      TimesBound(0, -t - 1, q);
    }
  }

  // ---- A number determines its digits ----

  lemma DigitInjective(op: ExtendedOp, a: int, b: int)
    requires op.Proper(a) && op.Proper(b) && op.Digit(a) == op.Digit(b)
    ensures a == b
  {
  }

  /** Proper digits with the same value are the same digits. */
  lemma {:induction false} NumberInjective(op: ExtendedOp, ram: Ram, ram': Ram, top: int, n: nat)
    requires ProperDigits(op, ram, top, n) && ProperDigits(op, ram', top, n)
    requires Number(op, ram, top, n) == Number(op, ram', top, n)
    ensures forall i: nat :: 1 <= i <= n ==> Raw(op, ram, top, i) == Raw(op, ram', top, i)
  {
    hide Times, Raw;
    if n > 0 {
      var q := Pow(op.Base(), n - 1);
      var low, low' := Number(op, ram, top, n - 1), Number(op, ram', top, n - 1);
      var d, d' := op.Digit(Raw(op, ram, top, n)), op.Digit(Raw(op, ram', top, n));
      NumberBound(op, ram, top, n - 1);
      NumberBound(op, ram', top, n - 1);
      SamePlace(low, d, low', d', q);
      DigitInjective(op, Raw(op, ram, top, n), Raw(op, ram', top, n));
      NumberInjective(op, ram, ram', top, n - 1);
    }
  }

  lemma SamePlace(low: int, d: int, low': int, d': int, q: int)
    requires 0 <= low < q && 0 <= low' < q && low + Times(d, q) == low' + Times(d', q)
    ensures low == low' && d == d'
  {
    hide Times;
    Distribute(d, d', q);
    SignOfSum(low - low' + (if low < low' then q else 0), q, d - d' - (if low < low' then 1 else 0));
    Distribute(d - d', if low < low' then 1 else 0, q);
    TimesOne(q);
    if d < d' {
      Distribute(d' - d - 1, 1, q);
      TimesBound(0, d' - d - 1, q);
      Distribute(d', d, q);
    } else if d > d' {
      Distribute(d - d' - 1, 1, q);
      TimesBound(0, d - d' - 1, q);
    }
  }

  /** Equal limbs have equal bytes. */
  lemma RawBytes(ram: Ram, ram': Ram, sz: Size, address: int, k: int)
    requires ReadSized(ram, sz, address) == ReadSized(ram', sz, address) && Touches(sz, address, k)
    ensures ram[k] == ram'[k]
  {
    hide Cell;
    if sz == Word {
      SameBytes(ram, ram', address);
    } else if sz == Long {
      SameWords(Read16(ram, address), Read16(ram, address + 2), Read16(ram', address), Read16(ram', address + 2));
      SameBytes(ram, ram', address);
      SameBytes(ram, ram', address + 2);
    }
  }

  lemma SameWords(a: u16, b: u16, a': u16, b': u16)
    requires Join16(a, b) == Join16(a', b')
    ensures a == a' && b == b'
  {
  }

  lemma SameBytes(ram: Ram, ram': Ram, address: int)
    requires Read16(ram, address) == Read16(ram', address)
    ensures ram[Cell(address)] == ram'[Cell(address)] && ram[Cell(address + 1)] == ram'[Cell(address + 1)]
  {
    hide Cell;
  }

  /** Two memories that agree outside a number and hold the same digits in it are the same. */
  lemma {:induction false} SameMemory(op: ExtendedOp, ram: Ram, ram': Ram, top: int, n: nat)
    requires Span(op.Width(), n) <= MEM_MAX && AgreeOutside(ram, ram', top, Span(op.Width(), n))
    requires forall i: nat :: 1 <= i <= n ==> Raw(op, ram, top, i) == Raw(op, ram', top, i)
    ensures ram == ram'
  {
    hide Cell, Below, Span, AgreeOutside;
    if n == 0 {
      EmptySpan(op, ram, ram', top);
    } else {
      SpanStep(op.Width(), n);
      TopLimbAgrees(op, ram, ram', top, n);
      SameMemory(op, ram, ram', top, n - 1);
    }
  }

  lemma EmptySpan(op: ExtendedOp, ram: Ram, ram': Ram, top: int)
    requires AgreeOutside(ram, ram', top, Span(op.Width(), 0))
    ensures ram == ram'
  {
    SpanOfNone(op.Width());
  }

  lemma TopLimbAgrees(op: ExtendedOp, ram: Ram, ram': Ram, top: int, n: nat)
    requires n >= 1 && AgreeOutside(ram, ram', top, Span(op.Width(), n))
    requires Raw(op, ram, top, n) == Raw(op, ram', top, n)
    ensures AgreeOutside(ram, ram', top, Span(op.Width(), n - 1))
  {
    hide Cell, Span, Below;
    var sz, len := op.Width(), Span(op.Width(), n);
    SpanStep(sz, n);
    forall i | len - sz.Bytes() < i <= len
      ensures ram[Below(top, i)] == ram'[Below(top, i)]
    {
      LimbByteAgrees(ram, ram', sz, top, len, i);
    }
  }

  lemma LimbByteAgrees(ram: Ram, ram': Ram, sz: Size, top: int, len: int, i: int)
    requires ReadSized(ram, sz, top - len) == ReadSized(ram', sz, top - len) && len - sz.Bytes() < i <= len
    ensures ram[Below(top, i)] == ram'[Below(top, i)]
  {
    hide Cell, ReadSized;
    var offset := len - i;
    assert Below(top, i) == Cell(top - len + offset);
    RawBytes(ram, ram', sz, top - len, Below(top, i));
  }

  // ---- Subtraction undoes addition, and addition subtraction ----

  function Inverse(op: ExtendedOp): ExtendedOp {
    match op case ADDX(sz) => SUBX(sz) case SUBX(sz) => ADDX(sz) case ABCD => SBCD case SBCD => ABCD
  }

  /** The registers and the extend bit of `m` put back into `m1`, ready to run over the same numbers again. */
  function Rewound(m: Machine, m1: Machine, y: Reg, x: Reg): Machine {
    m1.SetA(y, m.A(y)).SetA(x, m.A(x)).(sr := m1.sr.(x := m.sr.x))
  }

  lemma {:induction false} InverseReadsTheSame(op: ExtendedOp, ram: Ram, top: int, n: nat)
    ensures Number(Inverse(op), ram, top, n) == Number(op, ram, top, n)
    ensures ProperDigits(op, ram, top, n) ==> ProperDigits(Inverse(op), ram, top, n)
    ensures ProperDigits(Inverse(op), ram, top, n) ==> ProperDigits(op, ram, top, n)
  {
    hide Times, ReadSized, Span, Alu.ValidBcd, Alu.Decimal;
    forall i: nat ensures Raw(Inverse(op), ram, top, i) == Raw(op, ram, top, i) {}
    if n > 0 {
      InverseReadsTheSame(op, ram, top, n - 1);
    }
  }

  lemma RewoundReady(m: Machine, op: ExtendedOp, y: Reg, x: Reg, n: nat)
    requires Aligned(m, op, y, x) && Operands(m, op, y, x, n)
    ensures var m2 := Rewound(m, Chain(m, op, y, x, n), y, x);
      && Aligned(m2, Inverse(op), y, x) && Operands(m2, Inverse(op), y, x, n)
      && m2.A(y) == m.A(y) && m2.A(x) == m.A(x) && m2.ram == Chain(m, op, y, x, n).ram
      && m2.sr.x == m.sr.x
  {
    hide Cell, Wrap32, Even, Below, Span, Times, Number, Step, Raw, Chain, AtDigit, Rewound, ProperDigits, AgreeBelow;
    hide AgreeOutside, Machine.A, Disjoint, Total, Excess;
    var m1 := Chain(m, op, y, x, n);
    ChainComputes(m, op, y, x, n);
    NumberAgrees(op, m.ram, m1.ram, m.A(y), n);
    InverseReadsTheSame(op, m1.ram, m.A(y), n);
    InverseReadsTheSame(op, m1.ram, m.A(x), n);
    RewoundRegisters(m, m1, op, y, x, n);
  }

  lemma RewoundRegisters(m: Machine, m1: Machine, op: ExtendedOp, y: Reg, x: Reg, n: nat)
    requires y != x && AtDigit(m, m1, op, y, x, n)
    ensures var m2 := Rewound(m, m1, y, x);
      && m2.A(y) == m.A(y) && m2.A(x) == m.A(x) && m2.ram == m1.ram && m2.sr.x == m.sr.x
  {
    hide Span, Wrap32;
    SetTwice(m, y, x, Wrap32(m.A(y) - Span(op.Width(), n)), Wrap32(m.A(x) - Span(op.Width(), n)),
             m.A(y), m.A(x), m1.ram, m1.sr);
  }

  /** Running the inverse chain over the result, from the same extend bit, restores all of memory, and
      its borrow is the carry of the first chain. */
  lemma ChainUndone(m: Machine, op: ExtendedOp, y: Reg, x: Reg, n: nat)
    requires Aligned(m, op, y, x) && Operands(m, op, y, x, n)
    ensures var m1 := Chain(m, op, y, x, n);
      var m3 := Chain(Rewound(m, m1, y, x), Inverse(op), y, x, n);
      m3.ram == m.ram && m3.sr.x == m1.sr.x
  {
    hide Cell, Wrap32, Even, Below, Span, Times, Number, Step, Raw, Chain, Aligned, Operands, AtDigit, Rewound;
    var inv, top := Inverse(op), m.A(x);
    var m1 := Chain(m, op, y, x, n);
    var m2 := Rewound(m, m1, y, x);
    var m3 := Chain(m2, inv, y, x, n);
    RewoundReady(m, op, y, x, n);
    ChainSums(m, op, y, x, n);
    ChainSums(m2, inv, y, x, n);
    InverseReadsTheSame(op, m1.ram, top, n);
    InverseReadsTheSame(op, m1.ram, m.A(y), n);
    InverseReadsTheSame(op, m3.ram, top, n);
    SourceKept(m, op, y, x, n);
    OperandBounds(m, op, y, x, n);
    NumberBound(op, m3.ram, top, n);
    AgreeOutsideTransitive(m.ram, m1.ram, m3.ram, top, Span(op.Width(), n), Span(op.Width(), n));
    NumberInjective(op, m.ram, m3.ram, top, n);
    SpanFits(m, op, y, x, n);
    SameMemory(op, m.ram, m3.ram, top, n);
  }

  lemma SourceKept(m: Machine, op: ExtendedOp, y: Reg, x: Reg, n: nat)
    requires Aligned(m, op, y, x) && Operands(m, op, y, x, n)
    ensures Number(op, Chain(m, op, y, x, n).ram, m.A(y), n) == Number(op, m.ram, m.A(y), n)
  {
    hide Aligned, Operands, Chain;
    ChainComputes(m, op, y, x, n);
    NumberAgrees(op, m.ram, Chain(m, op, y, x, n).ram, m.A(y), n);
  }

  lemma OperandBounds(m: Machine, op: ExtendedOp, y: Reg, x: Reg, n: nat)
    requires Operands(m, op, y, x, n)
    ensures ProperDigits(op, m.ram, m.A(x), n) && 0 <= Number(op, m.ram, m.A(x), n) < Pow(op.Base(), n)
  {
    NumberBound(op, m.ram, m.A(x), n);
  }

  lemma SpanFits(m: Machine, op: ExtendedOp, y: Reg, x: Reg, n: nat)
    requires Operands(m, op, y, x, n)
    ensures Span(op.Width(), n) <= MEM_MAX
  {
  }

  // ---- Limbs as bytes ----

  /** The value of the `k` bytes below an address, the last one least significant. */
  function BigEndian(ram: Ram, top: int, k: nat): int {
    if k == 0 then 0 else BigEndian(ram, top, k - 1) + Times(Read8(ram, top - k), Pow(0x100, k - 1))
  }

  lemma {:induction false} PowOfModulus(sz: Size, n: nat)
    ensures Pow(sz.Modulus(), n) == Pow(0x100, Span(sz, n))
  {
    hide Times, Pow, Span;
    PowStep(sz.Modulus(), n);
    if n > 0 {
      PowOfModulus(sz, n - 1);
      SpanStep(sz, n);
      PowAdd(0x100, sz.Bytes(), Span(sz, n - 1));
      ModulusIsPow(sz);
    } else {
      SpanOfNone(sz);
      PowStep(0x100, 0);
    }
  }

  lemma PowStep(base: nat, n: nat)
    ensures Pow(base, n) == if n == 0 then 1 else Times(base, Pow(base, n - 1))
  {
  }

  lemma SpanOfNone(sz: Size)
    ensures Span(sz, 0) == 0
  {
  }

  lemma ModulusIsPow(sz: Size)
    ensures sz.Modulus() == Pow(0x100, sz.Bytes())
  {
    assert Pow(0x100, 0) == 1;
    assert Pow(0x100, 1) == 0x100;
    assert Pow(0x100, 2) == 0x1_0000;
    assert Pow(0x100, 3) == 0x100_0000;
    assert Pow(0x100, 4) == 0x1_0000_0000;
  }

  /** A binary number of `n` limbs is the big-endian value of its bytes. */
  lemma {:induction false} LimbsAreBytes(op: ExtendedOp, ram: Ram, top: int, n: nat)
    requires op.Binary()
    ensures Number(op, ram, top, n) == BigEndian(ram, top, Span(op.Width(), n))
  {
    hide Times, Cell, Span, Number, Raw;
    var sz := op.Width();
    if n == 0 {
      NoLimbs(op, ram, top);
    } else {
      SpanStep(sz, n);
      LimbsAreBytes(op, ram, top, n - 1);
      PowOfModulus(sz, n - 1);
      LimbBytes(ram, sz, top, Span(sz, n - 1));
      OneMoreLimb(op, ram, top, n);
    }
  }

  lemma NoLimbs(op: ExtendedOp, ram: Ram, top: int)
    ensures Number(op, ram, top, 0) == BigEndian(ram, top, Span(op.Width(), 0))
  {
    assert Span(op.Width(), 0) == 0;
  }

  lemma OneMoreLimb(op: ExtendedOp, ram: Ram, top: int, n: nat)
    requires n > 0 && op.Binary()
    ensures Number(op, ram, top, n) == Number(op, ram, top, n - 1)
            + Times(ReadSized(ram, op.Width(), top - Span(op.Width(), n)), Pow(op.Width().Modulus(), n - 1))
  {
    hide Times, ReadSized, Span;
  }

  /** One more limb is one, two or four more bytes. */
  lemma LimbBytes(ram: Ram, sz: Size, top: int, k: nat)
    ensures BigEndian(ram, top, k + sz.Bytes())
            == BigEndian(ram, top, k) + Times(ReadSized(ram, sz, top - (k + sz.Bytes())), Pow(0x100, k))
  {
    hide BigEndian, Times, Pow, Read8, Read16;
    match sz
    case Byte => OneMoreByte(ram, top, k);
    case Word => OneMoreWord(ram, top, k);
    case Long =>
      var p := Pow(0x100, k);
      OneMoreWord(ram, top, k);
      OneMoreWord(ram, top, k + 2);
      TwoDigits(Read16(ram, top - (k + 4)), Read16(ram, top - (k + 2)), 0x1_0000, p);
  }

  lemma OneMoreWord(ram: Ram, top: int, k: nat)
    ensures BigEndian(ram, top, k + 2) == BigEndian(ram, top, k) + Times(Read16(ram, top - (k + 2)), Pow(0x100, k))
    ensures Pow(0x100, k + 2) == Times(0x1_0000, Pow(0x100, k))
  {
    hide BigEndian, Times, Pow, Read8;
    OneMoreByte(ram, top, k);
    OneMoreByte(ram, top, k + 1);
    TwoDigits(Read8(ram, top - (k + 2)), Read8(ram, top - (k + 1)), 0x100, Pow(0x100, k));
    TimesAssoc(0x100, 0x100, Pow(0x100, k));
    TimesIs(0x100, 0x100);
  }

  lemma OneMoreByte(ram: Ram, top: int, k: nat)
    ensures BigEndian(ram, top, k + 1) == BigEndian(ram, top, k) + Times(Read8(ram, top - (k + 1)), Pow(0x100, k))
    ensures Pow(0x100, k + 1) == Times(0x100, Pow(0x100, k))
  {
    hide Times, Read8;
  }

  lemma TwoDigits(hi: int, lo: int, base: int, p: int)
    ensures Times(hi * base + lo, p) == Times(hi, Times(base, p)) + Times(lo, p)
  {
    MulAssoc(hi, base, p);
  }

  lemma MulAssoc(a: int, b: int, c: int)
    ensures a * (b * c) == (a * b) * c
  {
  }
}
