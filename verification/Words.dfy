/** Fixed-width unsigned values, operand sizes and powers, as used throughout the emulator. */
module Words {

  type u8 = x: int | 0 <= x < 0x100
  type u16 = x: int | 0 <= x < 0x1_0000
  type u32 = x: int | 0 <= x < 0x1_0000_0000

  /** The three operand sizes of the 68000; the program keeps one copy of each helper per size. */
  datatype Size = Byte | Word | Long {
    function Bits(): int { match this case Byte => 8 case Word => 16 case Long => 32 }
    function Bytes(): int { match this case Byte => 1 case Word => 2 case Long => 4 }
    function Modulus(): int { match this case Byte => 0x100 case Word => 0x1_0000 case Long => 0x1_0000_0000 }
    function Half(): int { match this case Byte => 0x80 case Word => 0x8000 case Long => 0x8000_0000 }
  }

  // ---- Signed readings ----

  /** Two's complement reading of a value of the given size. */
  function Signed(sz: Size, v: int): int {
    if v < sz.Half() then v else v - sz.Modulus()
  }

  /** The signed range of a size. */
  predicate Fits(sz: Size, v: int) {
    -sz.Half() <= v < sz.Half()
  }

  lemma SignedFits(sz: Size, v: int)
    requires 0 <= v < sz.Modulus()
    ensures Fits(sz, Signed(sz, v))
  {
  }

  /** Reduction of a value at most one modulus away from the range. */
  function Reduce(sz: Size, t: int): (r: int)
    requires -sz.Modulus() <= t < 2 * sz.Modulus()
    ensures 0 <= r < sz.Modulus()
    ensures r == t % sz.Modulus()
  {
    if t < 0 then t + sz.Modulus() else if t < sz.Modulus() then t else t - sz.Modulus()
  }

  function Truncate(sz: Size, v: int): (r: u32)
    ensures r < sz.Modulus()
  {
    v % sz.Modulus()
  }

  lemma TruncateReduces(sz: Size, t: int)
    requires -sz.Modulus() <= t < 2 * sz.Modulus()
    ensures Truncate(sz, t) == Reduce(sz, t)
  {
  }

  /** C's conversion of a signed narrow value to `uint32_t`. */
  function SignExtend(sz: Size, v: u32): u32
    requires v < sz.Modulus()
  {
    if v < sz.Half() then v else v + (0x1_0000_0000 - sz.Modulus())
  }

  /** Replace the low part of a register and keep the rest. */
  function Merge(sz: Size, reg: u32, v: u32): u32
    requires v < sz.Modulus()
  {
    match sz
    case Byte => reg - reg % 0x100 + v
    case Word => reg - reg % 0x1_0000 + v
    case Long => v
  }

  // ---- Bit tests ----

  /** The bit of the given weight, in two's complement for a negative value. */
  predicate BitAt(v: int, weight: int)
    requires weight > 0
  {
    v / weight % 2 == 1
  }

  /** The top bit of a value and the bit above the top of a sum or difference, as the helpers test them. */
  lemma TopBit(sz: Size, v: int)
    requires 0 <= v < sz.Modulus()
    ensures BitAt(v, sz.Half()) <==> v >= sz.Half()
  {
  }

  lemma CarryBit(sz: Size, t: int)
    requires -sz.Modulus() <= t < 2 * sz.Modulus()
    ensures BitAt(t, sz.Modulus()) <==> t < 0 || t >= sz.Modulus()
  {
  }

  // ---- Composition ----

  function Join8(hi: int, lo: int): int {
    hi * 0x100 + lo
  }

  function Join16(hi: int, lo: int): int {
    hi * 0x1_0000 + lo
  }

  function BitOf(b: bool): nat {
    if b then 1 else 0
  }

  /** The bit operators on one bit; the last is AND with a complement. */
  datatype Logic = AND | OR | EOR | ANDNOT {
    predicate Bit(p: bool, q: bool) {
      match this
      case AND => p && q
      case OR => p || q
      case EOR => p != q
      case ANDNOT => p && !q
    }
  }

  // ---- Wrap-around ----

  predicate Even(v: int) {
    v % 2 == 0
  }

  predicate Odd(v: int) {
    v % 2 == 1
  }

  function Wrap32(v: int): (r: u32)
    ensures 0 <= v < 0x1_0000_0000 ==> r == v
  {
    v % 0x1_0000_0000
  }

  lemma Wrap32Is(v: int, q: int, r: int)
    requires v == q * 0x1_0000_0000 + r && 0 <= r < 0x1_0000_0000
    ensures Wrap32(v) == r
  {
  }

  /** Moving an address register by steps or at once is the same. */
  lemma WrapStep(a: int, k: int)
    ensures Wrap32(Wrap32(a) + k) == Wrap32(a + k)
  {
    var q, r := a / 0x1_0000_0000, (Wrap32(a) + k) / 0x1_0000_0000;
    Wrap32Is(a + k, q + r, Wrap32(Wrap32(a) + k));
  }

  lemma WrapParity(a: int)
    ensures Even(Wrap32(a)) == Even(a)
  {
    var q, low := a / 0x1_0000_0000, Wrap32(a);
    ParityIs(a, q * 0x8000_0000 + low / 2, low % 2);
  }

  lemma ParityIs(v: int, half: int, p: int)
    requires v == 2 * half + p && 0 <= p < 2
    ensures v % 2 == p
  {
  }

  lemma EvenSum(a: int, b: int)
    requires Even(a) && Even(b)
    ensures Even(a + b) && Even(a - b)
  {
  }

  // ---- Powers and products ----

  /** A product by name, so that proofs choose where to reason about multiplication. */
  function Times(a: int, b: int): (r: int)
    ensures a >= 0 && b >= 0 ==> r >= 0
  {
    a * b
  }

  function Pow(base: nat, n: nat): nat {
    if n == 0 then 1 else Times(base, Pow(base, n - 1))
  }

  lemma {:induction false} PowPositive(base: nat, n: nat)
    requires base > 0
    ensures Pow(base, n) > 0
  {
    if n > 0 {
      PowPositive(base, n - 1);
    }
  }

  lemma {:induction false} PowAdd(base: nat, m: nat, n: nat)
    ensures Pow(base, m + n) == Times(Pow(base, m), Pow(base, n))
  {
    hide Times;
    if m > 0 {
      PowAdd(base, m - 1, n);
      TimesAssoc(base, Pow(base, m - 1), Pow(base, n));
    } else {
      TimesOne(Pow(base, n));
    }
  }

  lemma TimesIs(a: int, b: int)
    ensures Times(a, b) == a * b
  {
  }

  lemma TimesOne(a: int)
    ensures Times(1, a) == a && Times(a, 1) == a && Times(0, a) == 0 && Times(a, 0) == 0
  {
  }

  lemma TimesAssoc(a: int, b: int, c: int)
    ensures Times(a, Times(b, c)) == Times(Times(a, b), c)
  {
  }

  lemma Distribute(a: int, b: int, q: int)
    ensures Times(a + b, q) == Times(a, q) + Times(b, q)
    ensures Times(a - b, q) == Times(a, q) - Times(b, q)
  {
  }

  lemma TimesBound(a: int, b: int, q: int)
    requires 0 <= a <= b && q >= 0
    ensures 0 <= Times(a, q) <= Times(b, q)
  {
  }

  /** Quotient and remainder by name, for the same reason. */
  function Quot(v: int, p: int): int
    requires p > 0
  {
    v / p
  }

  function Rem(v: int, p: int): (r: int)
    requires p > 0
    ensures 0 <= r < p
  {
    v % p
  }

  lemma QuotRem(v: int, p: int)
    requires p > 0
    ensures v == Times(Quot(v, p), p) + Rem(v, p)
  {
  }

  /** Quotient and remainder are determined by their defining equation. */
  lemma DivModUnique(v: int, q: int, r: int, base: int)
    requires base > 0 && v == Times(q, base) + r && 0 <= r < base
    ensures v / base == q && v % base == r
    ensures Quot(v, base) == q && Rem(v, base) == r
  {
    var d := v / base - q;
    Distribute(v / base, q, base);
    assert Times(d, base) == r - v % base;
    if d != 0 {
      TimesBound(1, if d > 0 then d else -d, base);
      Distribute(0, d, base);
    }
  }

  /** Merging changes the low part only. */
  lemma MergeParts(sz: Size, reg: u32, v: u32)
    requires v < sz.Modulus()
    ensures Rem(Merge(sz, reg, v), sz.Modulus()) == v
    ensures Quot(Merge(sz, reg, v), sz.Modulus()) == Quot(reg, sz.Modulus())
  {
    hide Times, Quot, Rem;
    var m := sz.Modulus();
    QuotRem(reg, m);
    MergeIs(sz, reg, v);
    DivModUnique(Merge(sz, reg, v), Quot(reg, m), v, m);
  }

  lemma MergeIs(sz: Size, reg: u32, v: u32)
    requires v < sz.Modulus()
    ensures Merge(sz, reg, v) == reg - Rem(reg, sz.Modulus()) + v
  {
  }
}
