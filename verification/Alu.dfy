/** What the arithmetic helpers mean: results and condition codes as statements about integers.
    The methods of `Cpus.Cpu`, which test bits and loop as the program does, are proved
    to compute these functions. */
module Alu {
  import opened Words
  import opened StatusRegister

  datatype Out = Out(value: u32, sr: Status)

  predicate Negative(sz: Size, v: int) {
    Signed(sz, v) < 0
  }

  /** Condition codes N, Z, V, C of a result; X is left alone. */
  function Codes(sz: Size, r: int, overflow: bool, carry: bool, sr: Status): Status {
    sr.(n := Negative(sz, r), z := r == 0, v := overflow, c := carry)
  }

  function Add(sz: Size, in1: u32, in2: u32, sr: Status): Out
    requires in1 < sz.Modulus() && in2 < sz.Modulus()
  {
    var r := Reduce(sz, in1 + in2);
    var carry := in1 + in2 >= sz.Modulus();
    Out(r, Codes(sz, r, !Fits(sz, Signed(sz, in1) + Signed(sz, in2)), carry, sr).(x := carry))
  }

  /** Add with extend: the carry comes in through X, and Z can only be cleared. */
  function Addx(sz: Size, in1: u32, in2: u32, sr: Status): Out
    requires in1 < sz.Modulus() && in2 < sz.Modulus()
  {
    var sum: int := in1 + in2 + BitOf(sr.x);
    var r := Reduce(sz, sum);
    var carry := sum >= sz.Modulus();
    var overflow := !Fits(sz, Signed(sz, in1) + Signed(sz, in2) + BitOf(sr.x));
    Out(r, Codes(sz, r, overflow, carry, sr).(x := carry, z := sr.z && r == 0))
  }

  /** Compare is a subtraction that keeps only the condition codes, X excepted. */
  function Cmp(sz: Size, sub: u32, min: u32, sr: Status): Status
    requires sub < sz.Modulus() && min < sz.Modulus()
  {
    var r := Reduce(sz, min - sub);
    Codes(sz, r, !Fits(sz, Signed(sz, min) - Signed(sz, sub)), min < sub, sr)
  }

  function Sub(sz: Size, sub: u32, min: u32, sr: Status): Out
    requires sub < sz.Modulus() && min < sz.Modulus()
  {
    Out(Reduce(sz, min - sub), Cmp(sz, sub, min, sr).(x := min < sub))
  }

  function Subx(sz: Size, sub: u32, min: u32, sr: Status): Out
    requires sub < sz.Modulus() && min < sz.Modulus()
  {
    var diff: int := min - sub - BitOf(sr.x);
    var r := Reduce(sz, diff);
    var overflow := !Fits(sz, Signed(sz, min) - Signed(sz, sub) - BitOf(sr.x));
    Out(r, Codes(sz, r, overflow, diff < 0, sr).(x := diff < 0, z := sr.z && r == 0))
  }

  // ---- The bit tests of the helpers ----

  /** The overflow test of an addition, on the top bits of the operands and the result. */
  predicate SumOverflows(sz: Size, in1: int, in2: int, result: int) {
    || (BitAt(in1, sz.Half()) && BitAt(in2, sz.Half()) && !BitAt(result, sz.Half()))
    || (!BitAt(in1, sz.Half()) && !BitAt(in2, sz.Half()) && BitAt(result, sz.Half()))
  }

  predicate DifferenceOverflows(sz: Size, sub: int, min: int, result: int) {
    || (BitAt(min, sz.Half()) && !BitAt(sub, sz.Half()) && !BitAt(result, sz.Half()))
    || (!BitAt(min, sz.Half()) && BitAt(sub, sz.Half()) && BitAt(result, sz.Half()))
  }

  /** They test what they mean: sign, carry and signed overflow of the exact sum. */
  lemma SumBits(sz: Size, in1: u32, in2: u32, x: bool)
    requires in1 < sz.Modulus() && in2 < sz.Modulus()
    ensures var sum: int := in1 + in2 + BitOf(x);
      && Truncate(sz, sum) == Reduce(sz, sum)
      && (BitAt(Reduce(sz, sum), sz.Half()) <==> Negative(sz, Reduce(sz, sum)))
      && (BitAt(sum, sz.Modulus()) <==> sum >= sz.Modulus())
      && (SumOverflows(sz, in1, in2, Reduce(sz, sum))
          <==> !Fits(sz, Signed(sz, in1) + Signed(sz, in2) + BitOf(x)))
  {
    hide BitAt;
    var sum: int := in1 + in2 + BitOf(x);
    CarryBit(sz, sum);
    TopBit(sz, in1);
    TopBit(sz, in2);
    TopBit(sz, Reduce(sz, sum));
  }

  lemma DifferenceBits(sz: Size, sub: u32, min: u32, x: bool)
    requires sub < sz.Modulus() && min < sz.Modulus()
    ensures var diff: int := min - sub - BitOf(x);
      && Truncate(sz, diff) == Reduce(sz, diff)
      && (BitAt(Reduce(sz, diff), sz.Half()) <==> Negative(sz, Reduce(sz, diff)))
      && (BitAt(diff, sz.Modulus()) <==> diff < 0)
      && (DifferenceOverflows(sz, sub, min, Reduce(sz, diff))
          <==> !Fits(sz, Signed(sz, min) - Signed(sz, sub) - BitOf(x)))
  {
    hide BitAt;
    var diff: int := min - sub - BitOf(x);
    CarryBit(sz, diff);
    TopBit(sz, sub);
    TopBit(sz, min);
    TopBit(sz, Reduce(sz, diff));
  }

  // So each helper's bit tests, taken together, give the codes of the exact operation.

  lemma AddBits(sz: Size, in1: u32, in2: u32, sr: Status)
    requires in1 < sz.Modulus() && in2 < sz.Modulus()
    ensures var t: int := in1 + in2;
      var r := Truncate(sz, t);
      Add(sz, in1, in2, sr).value == r
      && Add(sz, in1, in2, sr).sr == sr.(n := BitAt(r, sz.Half()), z := r == 0,
           c := BitAt(t, sz.Modulus()), v := SumOverflows(sz, in1, in2, r), x := BitAt(t, sz.Modulus()))
  {
    hide BitAt, Signed, Fits, Truncate, SumOverflows, DifferenceOverflows, Negative;
    SumBits(sz, in1, in2, false);
  }

  lemma AddxBits(sz: Size, in1: u32, in2: u32, sr: Status)
    requires in1 < sz.Modulus() && in2 < sz.Modulus()
    ensures var t: int := in1 + in2 + BitOf(sr.x);
      var r := Truncate(sz, t);
      Addx(sz, in1, in2, sr).value == r
      && Addx(sz, in1, in2, sr).sr == sr.(n := BitAt(r, sz.Half()), z := sr.z && r == 0,
           c := BitAt(t, sz.Modulus()), v := SumOverflows(sz, in1, in2, r), x := BitAt(t, sz.Modulus()))
  {
    hide BitAt, Signed, Fits, Truncate, SumOverflows, DifferenceOverflows, Negative;
    SumBits(sz, in1, in2, sr.x);
  }

  lemma CmpBits(sz: Size, sub: u32, min: u32, sr: Status)
    requires sub < sz.Modulus() && min < sz.Modulus()
    ensures var t: int := min - sub;
      var r := Truncate(sz, t);
      Cmp(sz, sub, min, sr) == sr.(n := BitAt(r, sz.Half()), z := r == 0,
           c := BitAt(t, sz.Modulus()), v := DifferenceOverflows(sz, sub, min, r))
  {
    hide BitAt, Signed, Fits, Truncate, SumOverflows, DifferenceOverflows, Negative;
    DifferenceBits(sz, sub, min, false);
  }

  lemma SubBits(sz: Size, sub: u32, min: u32, sr: Status)
    requires sub < sz.Modulus() && min < sz.Modulus()
    ensures var t: int := min - sub;
      var r := Truncate(sz, t);
      Sub(sz, sub, min, sr).value == r
      && Sub(sz, sub, min, sr).sr == sr.(n := BitAt(r, sz.Half()), z := r == 0,
           c := BitAt(t, sz.Modulus()), v := DifferenceOverflows(sz, sub, min, r), x := BitAt(t, sz.Modulus()))
  {
    hide BitAt, Signed, Fits, Truncate, SumOverflows, DifferenceOverflows, Negative;
    DifferenceBits(sz, sub, min, false);
  }

  lemma SubxBits(sz: Size, sub: u32, min: u32, sr: Status)
    requires sub < sz.Modulus() && min < sz.Modulus()
    ensures var t: int := min - sub - BitOf(sr.x);
      var r := Truncate(sz, t);
      Subx(sz, sub, min, sr).value == r
      && Subx(sz, sub, min, sr).sr == sr.(n := BitAt(r, sz.Half()), z := sr.z && r == 0,
           c := BitAt(t, sz.Modulus()), v := DifferenceOverflows(sz, sub, min, r), x := BitAt(t, sz.Modulus()))
  {
    hide BitAt, Signed, Fits, Truncate, SumOverflows, DifferenceOverflows, Negative;
    DifferenceBits(sz, sub, min, sr.x);
  }

  // ---- Binary coded decimal ----

  predicate ValidBcd(b: int) {
    0 <= b < 0x100 && b / 0x10 <= 9 && b % 0x10 <= 9
  }

  function Decimal(b: int): int {
    10 * (b / 0x10) + b % 0x10
  }

  /** Decimal codes: Z can only be cleared, C and X take the carry, N and V stay. */
  function BcdCodes(r: int, carry: bool, sr: Status): Status {
    sr.(z := sr.z && r == 0, c := carry, x := carry)
  }

  function LowByte(v: int): (r: int)
    ensures 0 <= r < 0x100
    ensures 0 <= v < 0x100 ==> r == v
  {
    v % 0x100
  }

  function LowWord(v: int): (r: int)
    ensures 0 <= r < 0x1_0000
    ensures 0 <= v < 0x1_0000 ==> r == v
    ensures -0x1_0000 <= v < 0 ==> r == v + 0x1_0000
  {
    v % 0x1_0000
  }

  /** The correction of a sum of low nibbles and a sum of high nibbles: byte and decimal carry. */
  function AdjustSum(low: int, high: int): (int, bool) {
    var fixed := if low > 9 then low + 6 else low;
    var sum := fixed + high;
    if sum > 0x9F then (LowByte(sum - 0xA0), true) else (LowByte(sum), false)
  }

  function AddBcd(in1: u8, in2: u8, sr: Status): Out {
    var (r, carry) := AdjustSum(in1 % 0x10 + in2 % 0x10 + BitOf(sr.x), HighNibble(in1) + HighNibble(in2));
    Out(r, BcdCodes(r, carry, sr))
  }

  /** The same for a difference, which the program keeps in a 16-bit variable. */
  function AdjustDifference(lowDiff: int, highDiff: int): (int, bool) {
    var low := LowWord(lowDiff);
    var diff := LowWord(low + highDiff);
    var fixed := if diff > 0xFF then diff + 0xA0 else diff;
    if low > 0xF then (LowByte(fixed - 6), diff > 0xFF || diff < 6) else (LowByte(fixed), diff > 0xFF)
  }

  function SubBcd(sub: u8, min: u8, sr: Status): Out {
    var (r, borrow) := AdjustDifference(min % 0x10 - sub % 0x10 - BitOf(sr.x), HighNibble(min) - HighNibble(sub));
    Out(r, BcdCodes(r, borrow, sr))
  }

  function HighNibble(b: int): int {
    b - b % 0x10
  }

  lemma AddBcdCodes(in1: u8, in2: u8, sr: Status, r: int, carry: bool)
    requires (r, carry) == AdjustSum(in1 % 0x10 + in2 % 0x10 + BitOf(sr.x), HighNibble(in1) + HighNibble(in2))
    ensures AddBcd(in1, in2, sr).value == r
    ensures AddBcd(in1, in2, sr).sr == sr.(z := sr.z && r == 0, c := carry, x := carry)
  {
    hide AdjustSum, HighNibble;
  }

  lemma SubBcdCodes(sub: u8, min: u8, sr: Status, r: int, borrow: bool)
    requires (r, borrow)
             == AdjustDifference(min % 0x10 - sub % 0x10 - BitOf(sr.x), HighNibble(min) - HighNibble(sub))
    ensures SubBcd(sub, min, sr).value == r
    ensures SubBcd(sub, min, sr).sr == sr.(z := sr.z && r == 0, c := borrow, x := borrow)
  {
    hide AdjustDifference, HighNibble;
  }

  lemma NibblesOf(high: int, low: int)
    requires 0 <= low < 0x10
    ensures (0x10 * high + low) / 0x10 == high && (0x10 * high + low) % 0x10 == low
  {
  }

  lemma AdjustSumIsDecimal(l: int, h: int)
    requires 0 <= l <= 19 && 0 <= h <= 18
    ensures var (r, carry) := AdjustSum(l, 0x10 * h);
      ValidBcd(r) && l + 10 * h == Decimal(r) + 100 * BitOf(carry)
  {
    hide LowByte;
    var h', l' := if l > 9 then h + 1 else h, if l > 9 then l - 10 else l;
    NibblesOf(if h' > 9 then h' - 10 else h', l');
  }

  lemma AdjustDifferenceIsDecimal(l: int, h: int)
    requires -10 <= l <= 9 && -9 <= h <= 9
    ensures var (r, borrow) := AdjustDifference(l, 0x10 * h);
      ValidBcd(r) && l + 10 * h == Decimal(r) - 100 * BitOf(borrow)
  {
    var h', l' := if l < 0 then h - 1 else h, if l < 0 then l + 10 else l;
    NibblesOf(if h' < 0 then h' + 10 else h', l');
    DifferenceInRange(l, h);
  }

  /** The word-sized arithmetic of the correction, with its wrap-around undone. */
  lemma DifferenceInRange(l: int, h: int)
    requires -10 <= l <= 9 && -9 <= h <= 9
    ensures var total := l + 0x10 * h;
      var borrow := if l < 0 then h < 1 else h < 0;
      var r := total + (if borrow then 0xA0 else 0) - (if l < 0 then 6 else 0);
      AdjustDifference(l, 0x10 * h) == (r, borrow)
  {
    hide LowByte, LowWord;
    var total := l + 0x10 * h;
    WordAfterWord(l, 0x10 * h);
    if total < 0 {
      WordToByte(total, if l < 0 then -6 else 0);
    }
  }

  /** Adding to a difference that has wrapped is adding to the difference. */
  lemma WordAfterWord(l: int, highDiff: int)
    ensures LowWord(LowWord(l) + highDiff) == LowWord(l + highDiff)
  {
    DivModUnique(LowWord(l) + highDiff, (l + highDiff) / 0x1_0000 - l / 0x1_0000, LowWord(l + highDiff), 0x1_0000);
  }

  lemma WordToByte(v: int, fix: int)
    requires -0x1_0000 <= v < 0
    ensures LowByte(LowWord(v) + 0xA0 + fix) == LowByte(v + 0xA0 + fix)
  {
    DivModUnique(LowWord(v) + 0xA0 + fix, (v + 0xA0 + fix) / 0x100 + 0x100, LowByte(v + 0xA0 + fix), 0x100);
  }

  /** On valid operands the correction is decimal addition with carry in and out. */
  lemma AddBcdIsDecimal(in1: u8, in2: u8, sr: Status)
    requires ValidBcd(in1) && ValidBcd(in2)
    ensures var out := AddBcd(in1, in2, sr);
      && ValidBcd(out.value)
      && Decimal(in1) + Decimal(in2) + BitOf(sr.x) == Decimal(out.value) + 100 * BitOf(out.sr.x)
  {
    hide AdjustSum;
    assert HighNibble(in1) + HighNibble(in2) == 0x10 * (in1 / 0x10 + in2 / 0x10);
    AdjustSumIsDecimal(in1 % 0x10 + in2 % 0x10 + BitOf(sr.x), in1 / 0x10 + in2 / 0x10);
  }

  lemma SubBcdIsDecimal(sub: u8, min: u8, sr: Status)
    requires ValidBcd(sub) && ValidBcd(min)
    ensures var out := SubBcd(sub, min, sr);
      && ValidBcd(out.value)
      && Decimal(min) - Decimal(sub) - BitOf(sr.x) == Decimal(out.value) - 100 * BitOf(out.sr.x)
  {
    hide AdjustDifference;
    assert HighNibble(min) - HighNibble(sub) == 0x10 * (min / 0x10 - sub / 0x10);
    AdjustDifferenceIsDecimal(min % 0x10 - sub % 0x10 - BitOf(sr.x), min / 0x10 - sub / 0x10);
  }
}
