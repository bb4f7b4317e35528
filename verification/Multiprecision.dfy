/** ADDX, SUBX, ABCD and SBCD in their memory form -(Ay),-(Ax), and what a chain of any length
    computes: addition and subtraction of numbers of any length held in memory. */
module Multiprecision {
  import opened Words
  import opened StatusRegister
  import opened Memories
  import opened Machines
  import Alu

  datatype ExtendedOp = ADDX(size: Size) | SUBX(size: Size) | ABCD | SBCD {
    function Width(): Size {
      match this case ADDX(sz) => sz case SUBX(sz) => sz case _ => Byte
    }

    predicate Subtracts() {
      SUBX? || SBCD?
    }

    predicate Binary() {
      ADDX? || SUBX?
    }

    /** The base of one digit: a whole binary limb, or a byte of two decimal digits. */
    function Base(): int {
      if Binary() then Width().Modulus() else 100
    }

    predicate Proper(raw: int) {
      if Binary() then 0 <= raw < Width().Modulus() else Alu.ValidBcd(raw)
    }

    function Digit(raw: int): int {
      if Binary() then raw else Alu.Decimal(raw)
    }

    function Combine(src: u32, dst: u32, sr: Status): (out: Alu.Out)
      requires src < Width().Modulus() && dst < Width().Modulus()
      ensures out.value < Width().Modulus()
    {
      match this
      case ADDX(sz) => Alu.Addx(sz, src, dst, sr)
      case SUBX(sz) => Alu.Subx(sz, src, dst, sr)
      case ABCD => Alu.AddBcd(src, dst, sr)
      case SBCD => Alu.SubBcd(src, dst, sr)
    }
  }

  /** One instruction in its memory form. An odd address stops it with an address error. */
  function Step(m: Machine, op: ExtendedOp, y: Reg, x: Reg): Machine {
    var sz := op.Width();
    var m1 := m.DecA(y, sz.Bytes());
    var from := m1.A(y);
    if sz != Byte && !Even(from) then m1.AddressError(from, true, false) else
    var src := ReadSized(m1.ram, sz, from);
    var m2 := m1.DecA(x, sz.Bytes());
    var to := m2.A(x);
    if sz != Byte && !Even(to) then m2.AddressError(to, true, false) else
    var out := op.Combine(src, ReadSized(m2.ram, sz, to), m2.sr);
    m2.(ram := WriteSized(m2.ram, sz, to, out.value), sr := out.sr)
  }

  function Chain(m: Machine, op: ExtendedOp, y: Reg, x: Reg, n: nat): Machine {
    if n == 0 then m else Step(Chain(m, op, y, x, n - 1), op, y, x)
  }

  // ---- Numbers in memory ----

  /** The length of `n` digits in bytes. */
  function Span(sz: Size, n: nat): nat {
    n * sz.Bytes()
  }

  lemma SpanStep(sz: Size, n: nat)
    requires n >= 1
    ensures Span(sz, n - 1) == Span(sz, n) - sz.Bytes() >= 0
    ensures sz != Byte ==> Even(Span(sz, n))
  {
    if sz == Word {
      ParityIs(n * 2, n, 0);
    } else if sz == Long {
      ParityIs(n * 4, n * 2, 0);
    }
  }

  /** The i-th byte below an address, counting from one. */
  function Below(top: int, i: int): (k: int)
    ensures 0 <= k < MEM_MAX
  {
    Cell(top - i)
  }

  /** The i-th digit below an address, counting from one: the least significant digit comes last. */
  function Raw(op: ExtendedOp, ram: Ram, top: int, i: nat): u32 {
    ReadSized(ram, op.Width(), top - Span(op.Width(), i))
  }

  /** The number of `n` digits that ends just below `top`. */
  function Number(op: ExtendedOp, ram: Ram, top: int, n: nat): int {
    if n == 0 then 0
    else Number(op, ram, top, n - 1) + Times(op.Digit(Raw(op, ram, top, n)), Pow(op.Base(), n - 1))
  }

  ghost predicate ProperDigits(op: ExtendedOp, ram: Ram, top: int, n: nat) {
    forall i: nat :: 1 <= i <= n ==> op.Proper(Raw(op, ram, top, i))
  }

  ghost predicate Disjoint(top: int, other: int, len: nat) {
    forall i, j :: 1 <= i <= len && 1 <= j <= len ==> Below(top, i) != Below(other, j)
  }

  ghost predicate AgreeBelow(ram: Ram, ram': Ram, top: int, len: nat) {
    forall i :: 1 <= i <= len ==> ram[Below(top, i)] == ram'[Below(top, i)]
  }

  /** Everything outside the `len` bytes below `top` is the same. */
  ghost predicate AgreeOutside(ram: Ram, ram': Ram, top: int, len: nat) {
    forall k :: 0 <= k < MEM_MAX && ram[k] != ram'[k] ==> exists i :: 1 <= i <= len && k == Below(top, i)
  }

  lemma TouchedIsBelow(sz: Size, top: int, i: int, k: int)
    requires Touches(sz, top - i, k)
    ensures exists j :: i - sz.Bytes() < j <= i && k == Below(top, j)
  {
    hide Cell;
    if k == Cell(top - i) {
      assert k == Below(top, i);
    } else if k == Cell(top - i + 1) {
      assert k == Below(top, i - 1);
    } else if k == Cell(top - i + 2) {
      assert k == Below(top, i - 2);
    } else {
      assert k == Below(top, i - 3);
    }
  }

  lemma BelowDistinct(top: int, i: int, j: int, len: nat)
    requires 1 <= i < j <= len <= MEM_MAX
    ensures Below(top, i) != Below(top, j)
  {
    DistinctCells(top, -j, -i);
  }

  lemma RawAgrees(op: ExtendedOp, ram: Ram, ram': Ram, top: int, i: nat)
    requires i >= 1 && AgreeBelow(ram, ram', top, Span(op.Width(), i))
    ensures Raw(op, ram, top, i) == Raw(op, ram', top, i)
  {
    var b := op.Width().Bytes();
    forall k | 0 <= k < MEM_MAX && Touches(op.Width(), top - i * b, k)
      ensures ram[k] == ram'[k]
    {
      TouchedIsBelow(op.Width(), top, i * b, k);
    }
    ReadFrame(ram, ram', op.Width(), top - i * b);
  }

  lemma {:induction false} NumberAgrees(op: ExtendedOp, ram: Ram, ram': Ram, top: int, n: nat)
    requires AgreeBelow(ram, ram', top, Span(op.Width(), n))
    ensures Number(op, ram, top, n) == Number(op, ram', top, n)
    ensures ProperDigits(op, ram, top, n) ==> ProperDigits(op, ram', top, n)
  {
    hide Times, Raw, Below;
    if n > 0 {
      SpanStep(op.Width(), n);
      NumberAgrees(op, ram, ram', top, n - 1);
      RawAgrees(op, ram, ram', top, n);
    }
  }

  // ---- One step, and chains of any length ----

  /** Two registers, even where the size asks for it; a byte step of the stack pointer would skip bytes. */
  predicate Aligned(m: Machine, op: ExtendedOp, y: Reg, x: Reg) {
    && y != x
    && (op.Width() == Byte ==> y != SP && x != SP)
    && (op.Width() != Byte ==> Even(m.A(y)) && Even(m.A(x)))
  }

  /** Both operands are proper numbers of `n` digits, in separate memory. */
  ghost predicate Operands(m: Machine, op: ExtendedOp, y: Reg, x: Reg, n: nat) {
    && Span(op.Width(), n) <= MEM_MAX
    && Disjoint(m.A(x), m.A(y), Span(op.Width(), n))
    && ProperDigits(op, m.ram, m.A(y), n)
    && ProperDigits(op, m.ram, m.A(x), n)
  }

  /** The exact sum or difference, extend bit included. */
  function Total(op: ExtendedOp, dst: int, src: int, x: bool): int {
    if op.Subtracts() then dst - src - BitOf(x) else dst + src + BitOf(x)
  }

  /** What a carry out of a place of weight `p` adds to the total, or a borrow takes from it. */
  function Excess(op: ExtendedOp, x: bool, p: int): int {
    if !x then 0 else if op.Subtracts() then -p else p
  }

  lemma AddxDigit(sz: Size, src: u32, dst: u32, sr: Status)
    requires src < sz.Modulus() && dst < sz.Modulus()
    ensures var out := Alu.Addx(sz, src, dst, sr);
      && dst + src + BitOf(sr.x) == out.value + (if out.sr.x then sz.Modulus() else 0)
      && out.value < sz.Modulus() && out.sr.c == out.sr.x && out.sr.z == (sr.z && out.value == 0)
      && out.sr.sys == sr.sys
  {
    hide Fits, Signed;
  }

  lemma SubxDigit(sz: Size, src: u32, dst: u32, sr: Status)
    requires src < sz.Modulus() && dst < sz.Modulus()
    ensures var out := Alu.Subx(sz, src, dst, sr);
      && dst - src - BitOf(sr.x) == out.value - (if out.sr.x then sz.Modulus() else 0)
      && out.value < sz.Modulus() && out.sr.c == out.sr.x && out.sr.z == (sr.z && out.value == 0)
      && out.sr.sys == sr.sys
  {
    hide Fits, Signed;
  }

  lemma BcdDigit(op: ExtendedOp, src: u32, dst: u32, sr: Status)
    requires !op.Binary() && Alu.ValidBcd(src) && Alu.ValidBcd(dst)
    ensures var out := op.Combine(src, dst, sr);
      && Total(op, Alu.Decimal(dst), Alu.Decimal(src), sr.x) == Alu.Decimal(out.value) + Excess(op, out.sr.x, 100)
      && Alu.ValidBcd(out.value) && out.sr.c == out.sr.x && out.sr.z == (sr.z && Alu.Decimal(out.value) == 0)
      && out.sr.sys == sr.sys
  {
    hide Alu.AdjustSum, Alu.AdjustDifference;
    if op.ABCD? {
      Alu.AddBcdIsDecimal(src, dst, sr);
    } else {
      Alu.SubBcdIsDecimal(src, dst, sr);
    }
  }

  /** One digit of the schoolbook algorithm. */
  lemma CombineDigit(op: ExtendedOp, src: u32, dst: u32, sr: Status)
    requires op.Proper(src) && op.Proper(dst)
    ensures src < op.Width().Modulus() && dst < op.Width().Modulus()
    ensures var out := op.Combine(src, dst, sr);
      && op.Proper(out.value)
      && Total(op, op.Digit(dst), op.Digit(src), sr.x) == op.Digit(out.value) + Excess(op, out.sr.x, op.Base())
      && out.sr.c == out.sr.x
      && out.sr.z == (sr.z && op.Digit(out.value) == 0)
      && out.sr.sys == sr.sys
  {
    hide Alu.Addx, Alu.Subx, Alu.AddBcd, Alu.SubBcd;
    match op
    case ADDX(sz) => AddxDigit(sz, src, dst, sr);
    case SUBX(sz) => SubxDigit(sz, src, dst, sr);
    case _ => BcdDigit(op, src, dst, sr);
  }

  /** After `n` digits both registers have moved down; otherwise only memory and codes may differ. */
  predicate AtDigit(m: Machine, m': Machine, op: ExtendedOp, y: Reg, x: Reg, n: nat) {
    var len := Span(op.Width(), n);
    && m' == m.SetA(y, Wrap32(m.A(y) - len)).SetA(x, Wrap32(m.A(x) - len)).(ram := m'.ram, sr := m'.sr)
    && m'.sr.sys.s == m.sr.sys.s
  }

  lemma StepAddress(a: int, sz: Size, n: nat)
    requires n >= 1 && (sz != Byte ==> Even(a))
    ensures Wrap32(Wrap32(a - Span(sz, n - 1)) - sz.Bytes()) == Wrap32(a - Span(sz, n))
    ensures Cell(Wrap32(a - Span(sz, n))) == Cell(a - Span(sz, n))
    ensures sz != Byte ==> Even(Wrap32(a - Span(sz, n)))
  {
    hide Wrap32, Cell, Even, Span;
    SpanStep(sz, n);
    WrapStep(a - Span(sz, n - 1), -sz.Bytes());
    WrapParity(a - Span(sz, n));
    WrapCell(a - Span(sz, n));
    if sz != Byte {
      EvenSum(a, Span(sz, n));
    }
  }

  lemma StepRegisters(m: Machine, m': Machine, op: ExtendedOp, y: Reg, x: Reg, n: nat)
    requires n >= 1 && Aligned(m, op, y, x) && AtDigit(m, m', op, y, x, n - 1)
    ensures var b := op.Width().Bytes();
      var m1 := m'.DecA(y, b);
      && m1.A(y) == Wrap32(m.A(y) - Span(op.Width(), n))
      && m1.DecA(x, b).A(x) == Wrap32(m.A(x) - Span(op.Width(), n))
      && m1.DecA(x, b) == m.SetA(y, Wrap32(m.A(y) - Span(op.Width(), n))).SetA(x, Wrap32(m.A(x) - Span(op.Width(), n)))
                           .(ram := m'.ram, sr := m'.sr)
  {
    hide Wrap32, Even, Cell, Span;
    var sz := op.Width();
    StepAddress(m.A(y), sz, n);
    StepAddress(m.A(x), sz, n);
    SetTwice(m, y, x, Wrap32(m.A(y) - Span(op.Width(), n - 1)), Wrap32(m.A(x) - Span(op.Width(), n - 1)),
             Wrap32(m.A(y) - Span(op.Width(), n)), Wrap32(m.A(x) - Span(op.Width(), n)), m'.ram, m'.sr);
  }

  /** What digit `n` does to memory and codes, given the state `m'` after `n - 1` digits. */
  ghost predicate WritesDigit(m: Machine, m': Machine, m'': Machine, op: ExtendedOp, y: Reg, x: Reg, n: nat) {
    var out := op.Combine(Raw(op, m'.ram, m.A(y), n), Raw(op, m'.ram, m.A(x), n), m'.sr);
    && m''.ram == WriteSized(m'.ram, op.Width(), m.A(x) - Span(op.Width(), n), out.value)
    && m''.sr == out.sr
  }

  /** An instruction that meets even addresses: `m2` is the machine with both registers stepped. */
  lemma StepAligned(m': Machine, m2: Machine, op: ExtendedOp, y: Reg, x: Reg)
    requires m2 == m'.DecA(y, op.Width().Bytes()).DecA(x, op.Width().Bytes())
    requires op.Width() != Byte ==> Even(m'.DecA(y, op.Width().Bytes()).A(y)) && Even(m2.A(x))
    ensures var out := op.Combine(ReadSized(m'.ram, op.Width(), m'.DecA(y, op.Width().Bytes()).A(y)),
                                  ReadSized(m'.ram, op.Width(), m2.A(x)), m'.sr);
      Step(m', op, y, x) == m2.(ram := WriteSized(m'.ram, op.Width(), m2.A(x), out.value), sr := out.sr)
  {
    hide Wrap32, Even, ReadSized, WriteSized;
    hide Machine.AddressError;
  }

  lemma StepMoves(m: Machine, m': Machine, op: ExtendedOp, y: Reg, x: Reg, n: nat)
    requires n >= 1 && Aligned(m, op, y, x) && AtDigit(m, m', op, y, x, n - 1)
    ensures WritesDigit(m, m', Step(m', op, y, x), op, y, x, n)
    ensures AtDigit(m, Step(m', op, y, x), op, y, x, n)
  {
    hide Wrap32, Even, Cell, Span, ReadSized, WriteSized, Step, Alu.Addx, Alu.Subx, Alu.AddBcd, Alu.SubBcd;
    var sz, b := op.Width(), op.Width().Bytes();
    var from, to := m.A(y) - Span(sz, n), m.A(x) - Span(sz, n);
    StepAddress(m.A(y), sz, n);
    StepAddress(m.A(x), sz, n);
    StepRegisters(m, m', op, y, x, n);
    var m2 := m'.DecA(y, b).DecA(x, b);
    StepAligned(m', m2, op, y, x);
    AccessWraps(m'.ram, sz, Wrap32(from), from, 0);
    AccessWraps(m'.ram, sz, Wrap32(to), to, 0);
    var out := op.Combine(ReadSized(m'.ram, sz, from), ReadSized(m'.ram, sz, to), m'.sr);
    AccessWraps(m'.ram, sz, Wrap32(to), to, out.value);
    CombineKeepsMode(op, ReadSized(m'.ram, sz, from), ReadSized(m'.ram, sz, to), m'.sr);
  }

  lemma CombineKeepsMode(op: ExtendedOp, src: u32, dst: u32, sr: Status)
    requires src < op.Width().Modulus() && dst < op.Width().Modulus()
    ensures op.Combine(src, dst, sr).sr.sys == sr.sys
  {
    hide Fits, Signed, Alu.AdjustSum, Alu.AdjustDifference;
  }

  /** Adding one more place of weight `q` to a column sum. */
  lemma OnePlace(op: ExtendedOp, dst: int, src: int, x0: bool, r: int, x1: bool, q: int,
                 d: int, s: int, digit: int, x2: bool, base: int)
    requires Total(op, dst, src, x0) == r + Excess(op, x1, q)
    requires Total(op, d, s, x1) == digit + Excess(op, x2, base)
    ensures Total(op, dst + Times(d, q), src + Times(s, q), x0)
         == r + Times(digit, q) + Excess(op, x2, Times(base, q))
  {
    hide Times;
    var e1, e2 := if x1 then 1 else 0, if x2 then base else 0;
    TimesOne(q);
    if op.Subtracts() {
      Distribute(d - s, e1, q);
      Distribute(d, s, q);
      Distribute(digit, e2, q);
    } else {
      Distribute(d + s, e1, q);
      Distribute(d, s, q);
      Distribute(digit, e2, q);
    }
  }

  /** Writing at `i` bytes below the top leaves the lower places and all other memory alone. */
  lemma WriteBelow(ram: Ram, sz: Size, top: int, i: int, value: u32)
    requires sz.Bytes() <= i <= MEM_MAX && value < sz.Modulus()
    ensures var ram' := WriteSized(ram, sz, top - i, value);
      AgreeBelow(ram, ram', top, i - sz.Bytes()) && AgreeOutside(ram, ram', top, i)
  {
    var ram' := WriteSized(ram, sz, top - i, value);
    forall k | 0 <= k < MEM_MAX && ram[k] != ram'[k]
      ensures exists j :: i - sz.Bytes() < j <= i && k == Below(top, j)
    {
      if !Touches(sz, top - i, k) {
        WriteFrame(ram, sz, top - i, value, k);
      }
      TouchedIsBelow(sz, top, i, k);
    }
    forall l | 1 <= l <= i - sz.Bytes()
      ensures ram[Below(top, l)] == ram'[Below(top, l)]
    {
      if ram[Below(top, l)] != ram'[Below(top, l)] {
        var j :| i - sz.Bytes() < j <= i && Below(top, l) == Below(top, j);
        BelowDistinct(top, l, j, i);
      }
    }
  }

  /** A digit above those that have been written. */
  lemma NotReached(op: ExtendedOp, ram: Ram, ram': Ram, top: int, n: nat)
    requires n >= 1 && Span(op.Width(), n) <= MEM_MAX
    requires AgreeOutside(ram, ram', top, Span(op.Width(), n - 1))
    ensures Raw(op, ram', top, n) == Raw(op, ram, top, n)
  {
    hide Cell, Span, Below;
    var sz, len := op.Width(), Span(op.Width(), n);
    SpanStep(sz, n);
    forall k | 0 <= k < MEM_MAX && Touches(sz, top - len, k)
      ensures ram[k] == ram'[k]
    {
      TouchedIsBelow(sz, top, len, k);
      if ram[k] != ram'[k] {
        var i :| 1 <= i <= len - sz.Bytes() && k == Below(top, i);
        var j :| len - sz.Bytes() < j <= len && k == Below(top, j);
        BelowDistinct(top, i, j, len);
      }
    }
    ReadFrame(ram, ram', sz, top - len);
  }

  /** Digits not yet reached are still those of the operands. */
  lemma Untouched(m: Machine, m': Machine, op: ExtendedOp, y: Reg, x: Reg, n: nat)
    requires n >= 1 && Operands(m, op, y, x, n)
    requires AgreeOutside(m.ram, m'.ram, m.A(x), Span(op.Width(), n - 1))
    ensures Raw(op, m'.ram, m.A(y), n) == Raw(op, m.ram, m.A(y), n)
    ensures Raw(op, m'.ram, m.A(x), n) == Raw(op, m.ram, m.A(x), n)
  {
    hide Cell, Span, Below;
    var sz, len := op.Width(), Span(op.Width(), n);
    SpanStep(sz, n);
    forall k | 0 <= k < MEM_MAX && Touches(sz, m.A(y) - len, k)
      ensures m.ram[k] == m'.ram[k]
    {
      TouchedIsBelow(sz, m.A(y), len, k);
    }
    ReadFrame(m.ram, m'.ram, sz, m.A(y) - len);
    NotReached(op, m.ram, m'.ram, m.A(x), n);
  }

  lemma FewerOperands(m: Machine, op: ExtendedOp, y: Reg, x: Reg, n: nat)
    requires n >= 1 && Operands(m, op, y, x, n)
    ensures Operands(m, op, y, x, n - 1)
  {
    hide Span, Below;
    SpanStep(op.Width(), n);
  }

  lemma AgreeOutsideTransitive(ram: Ram, ram': Ram, ram'': Ram, top: int, len': nat, len: nat)
    requires len' <= len && AgreeOutside(ram, ram', top, len') && AgreeOutside(ram', ram'', top, len)
    ensures AgreeOutside(ram, ram'', top, len)
  {
    forall k | 0 <= k < MEM_MAX && ram[k] != ram''[k]
      ensures exists i :: 1 <= i <= len && k == Below(top, i)
    {
      if ram[k] != ram'[k] {
        var i :| 1 <= i <= len' && k == Below(top, i);
      }
    }
  }

  /** A number of proper digits lies below the power of its base, and is zero when all digits are. */
  lemma {:induction false} NumberBound(op: ExtendedOp, ram: Ram, top: int, n: nat)
    requires ProperDigits(op, ram, top, n)
    ensures 0 <= Number(op, ram, top, n) < Pow(op.Base(), n)
  {
    hide Times;
    if n > 0 {
      var q, digit := Pow(op.Base(), n - 1), op.Digit(Raw(op, ram, top, n));
      NumberBound(op, ram, top, n - 1);
      DigitRange(op, Raw(op, ram, top, n));
      TimesBound(digit, op.Base() - 1, q);
      Distribute(op.Base() - 1, 1, q);
      TimesOne(q);
    }
  }

  /** The effect of digit `n` on memory: `len` is the number of bytes up to and including it. */
  lemma StepWrites(ram: Ram, ram': Ram, ram'': Ram, op: ExtendedOp, top: int, value: u32, n: nat, len: nat)
    requires n >= 1 && value < op.Width().Modulus()
    requires len == Span(op.Width(), n) <= MEM_MAX && op.Width().Bytes() <= len
    requires AgreeOutside(ram, ram', top, len - op.Width().Bytes())
    requires ram'' == WriteSized(ram', op.Width(), top - len, value)
    ensures Raw(op, ram'', top, n) == value
    ensures AgreeBelow(ram', ram'', top, len - op.Width().Bytes())
    ensures AgreeOutside(ram, ram'', top, len)
  {
    ReadBack(ram', op.Width(), top - len, value);
    WriteBelow(ram', op.Width(), top, len, value);
    AgreeOutsideTransitive(ram, ram', ram'', top, len - op.Width().Bytes(), len);
  }

  /** The result `r` with extend bit and zero flag, for operands below the weight `q`. */
  predicate Column(op: ExtendedOp, dst: int, src: int, sr: Status, r: int, sr': Status, q: int) {
    && Total(op, dst, src, sr.x) == r + Excess(op, sr'.x, q)
    && sr'.z == (sr.z && r == 0)
    && sr'.sys == sr.sys
  }

  lemma StepColumn(op: ExtendedOp, dst: int, src: int, sr: Status, r: int, sr': Status, q: int,
                   d: int, s: int, digit: int, sr'': Status, base: int)
    requires Column(op, dst, src, sr, r, sr', q) && 0 <= r && 0 < q && 0 <= digit
    requires Total(op, d, s, sr'.x) == digit + Excess(op, sr''.x, base)
    requires sr''.z == (sr'.z && digit == 0) && sr''.sys == sr'.sys
    ensures Column(op, dst + Times(d, q), src + Times(s, q), sr, r + Times(digit, q), sr'', Times(base, q))
  {
    hide Times, Excess, Total;
    OnePlace(op, dst, src, sr.x, r, sr'.x, q, d, s, digit, sr''.x, base);
    ZeroPlace(r, digit, q);
  }

  lemma DigitRange(op: ExtendedOp, raw: int)
    requires op.Proper(raw)
    ensures 0 <= op.Digit(raw) < op.Base()
  {
  }

  lemma ZeroPlace(r: int, digit: int, q: int)
    requires 0 <= r && 0 <= digit && 0 < q
    ensures (r + Times(digit, q) == 0) == (r == 0 && digit == 0)
  {
  }

  /** After `n` digits: registers, memory outside the destination, and the column sum of the digits. */
  ghost predicate Summed(m: Machine, m': Machine, op: ExtendedOp, y: Reg, x: Reg, n: nat) {
    && AtDigit(m, m', op, y, x, n)
    && AgreeOutside(m.ram, m'.ram, m.A(x), Span(op.Width(), n))
    && ProperDigits(op, m'.ram, m.A(x), n)
    && Column(op, Number(op, m.ram, m.A(x), n), Number(op, m.ram, m.A(y), n), m.sr,
              Number(op, m'.ram, m.A(x), n), m'.sr, Pow(op.Base(), n))
    && (n > 0 ==> m'.sr.c == m'.sr.x)
  }

  /** The schoolbook algorithm, by induction on the number of digits. */
  lemma {:induction false} ChainSums(m: Machine, op: ExtendedOp, y: Reg, x: Reg, n: nat)
    requires Aligned(m, op, y, x) && Operands(m, op, y, x, n)
    ensures Summed(m, Chain(m, op, y, x, n), op, y, x, n)
  {
    hide Step, Aligned, Operands, AtDigit, Summed, WritesDigit;
    if n == 0 {
      NothingSummed(m, op, y, x);
    } else {
      var m' := Chain(m, op, y, x, n - 1);
      FewerOperands(m, op, y, x, n);
      ChainSums(m, op, y, x, n - 1);
      SummedAtDigit(m, m', op, y, x, n - 1);
      StepMoves(m, m', op, y, x, n);
      StepSums(m, m', Step(m', op, y, x), op, y, x, n);
    }
  }

  lemma NothingSummed(m: Machine, op: ExtendedOp, y: Reg, x: Reg)
    ensures Summed(m, m, op, y, x, 0)
  {
    hide Times, Raw, AtDigit, Below, Span, AgreeOutside, Column;
    AtDigitZero(m, op, y, x);
    SpanZero(op.Width(), m.ram, m.A(x));
    ColumnZero(op, m.sr);
  }

  lemma SpanZero(sz: Size, ram: Ram, top: int)
    ensures AgreeOutside(ram, ram, top, Span(sz, 0))
  {
    hide Below;
  }

  lemma ColumnZero(op: ExtendedOp, sr: Status)
    ensures Column(op, 0, 0, sr, 0, sr, 1)
  {
  }

  lemma AtDigitZero(m: Machine, op: ExtendedOp, y: Reg, x: Reg)
    ensures AtDigit(m, m, op, y, x, 0)
  {
    hide Wrap32;
    assert m.a[y := m.a[y]] == m.a && m.a[x := m.a[x]] == m.a;
    assert m.SetA(y, m.A(y)) == m && m.SetA(x, m.A(x)) == m;
  }

  lemma SummedAtDigit(m: Machine, m': Machine, op: ExtendedOp, y: Reg, x: Reg, n: nat)
    requires Summed(m, m', op, y, x, n)
    ensures AtDigit(m, m', op, y, x, n)
  {
  }

  lemma StepSums(m: Machine, m': Machine, m'': Machine, op: ExtendedOp, y: Reg, x: Reg, n: nat)
    requires n >= 1 && Operands(m, op, y, x, n) && Summed(m, m', op, y, x, n - 1)
    requires AtDigit(m, m'', op, y, x, n)
    requires WritesDigit(m, m', m'', op, y, x, n)
    ensures Summed(m, m'', op, y, x, n)
  {
    hide Alu.Addx, Alu.Subx, Alu.AddBcd, Alu.SubBcd, Alu.ValidBcd, Alu.Decimal, Excess, Total;
    hide Cell, Span, Times, ReadSized, WriteSized, AgreeOutside, AgreeBelow, Column, AtDigit, Raw, Below, Disjoint;
    var top, src, dst := m.A(x), Raw(op, m.ram, m.A(y), n), Raw(op, m.ram, m.A(x), n);
    Untouched(m, m', op, y, x, n);
    assert op.Proper(src) && op.Proper(dst);
    NumberBound(op, m'.ram, top, n - 1);
    PowPositive(op.Base(), n - 1);
    CombineDigit(op, src, dst, m'.sr);
    var out := op.Combine(src, dst, m'.sr);
    DigitRange(op, out.value);
    StepColumn(op, Number(op, m.ram, top, n - 1), Number(op, m.ram, m.A(y), n - 1), m.sr,
               Number(op, m'.ram, top, n - 1), m'.sr, Pow(op.Base(), n - 1),
               op.Digit(dst), op.Digit(src), op.Digit(out.value), out.sr, op.Base());
    SpanStep(op.Width(), n);
    StepWrites(m.ram, m'.ram, m''.ram, op, top, out.value, n, Span(op.Width(), n));
    NumberAgrees(op, m'.ram, m''.ram, top, n - 1);
  }

  // ---- What a chain computes ----

  /** A chain over numbers of any length leaves the sum or difference modulo the n-th power of the
      base in the destination, the carry or borrow out of the whole number in X (and C), and
      "still zero" in Z. The registers have moved down by the length; nothing else has changed. */
  lemma ChainComputes(m: Machine, op: ExtendedOp, y: Reg, x: Reg, n: nat)
    requires Aligned(m, op, y, x) && Operands(m, op, y, x, n)
    ensures Pow(op.Base(), n) > 0
    ensures var m' := Chain(m, op, y, x, n);
      var total := Total(op, Number(op, m.ram, m.A(x), n), Number(op, m.ram, m.A(y), n), m.sr.x);
      var r := Number(op, m'.ram, m.A(x), n);
      && r == total % Pow(op.Base(), n)
      && (m'.sr.x <==> (if op.Subtracts() then total < 0 else total >= Pow(op.Base(), n)))
      && m'.sr.z == (m.sr.z && r == 0)
      && (n > 0 ==> m'.sr.c == m'.sr.x)
      && ProperDigits(op, m'.ram, m.A(x), n)
      && AgreeOutside(m.ram, m'.ram, m.A(x), Span(op.Width(), n))
      && AgreeBelow(m.ram, m'.ram, m.A(y), Span(op.Width(), n))
      && AtDigit(m, m', op, y, x, n)
  {
    hide Times, Cell, Wrap32, Below, Span, Raw, Step, Number, AtDigit, Chain;
    var m' := Chain(m, op, y, x, n);
    ChainSums(m, op, y, x, n);
    NumberBound(op, m'.ram, m.A(x), n);
    var r, p := Number(op, m'.ram, m.A(x), n), Pow(op.Base(), n);
    var q := if !m'.sr.x then 0 else if op.Subtracts() then -1 else 1;
    TimesOne(p);
    Distribute(0, 1, p);
    DivModUnique(r + Times(q, p), q, r, p);
  }
}
