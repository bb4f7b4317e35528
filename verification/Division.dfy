/** MULU, MULS, DIVU and DIVS: the packed quotient and remainder, and how multiplying leads back. */
module Division {
  import opened Words
  import opened StatusRegister
  import Alu

  // ---- Multiplication ----

  /** N and Z of a 32-bit result; V and C are clear. */
  function LongCodes(r: u32, sr: Status): Status {
    sr.(n := Alu.Negative(Long, r), z := r == 0, v := false, c := false)
  }

  function Mulu(a: u16, b: u16): (r: u32)
    ensures r == Times(a, b)
  {
    ProductBound(a, b, 0xFFFF);
    Times(a, b)
  }

  function Muls(a: u16, b: u16): (r: u32)
    ensures Signed(Long, r) == Times(Signed(Word, a), Signed(Word, b))
  {
    SignedFits(Word, a);
    SignedFits(Word, b);
    SignedProductBound(Signed(Word, a), Signed(Word, b));
    var p := Times(Signed(Word, a), Signed(Word, b));
    if p < 0 then p + 0x1_0000_0000 else p
  }

  lemma ProductBound(a: int, b: int, k: int)
    requires 0 <= a <= k && 0 <= b <= k
    ensures 0 <= Times(a, b) <= Times(k, k)
  {
    TimesBound(a, k, b);
    SwapTimes(k, b);
    TimesBound(b, k, k);
  }

  lemma SwapTimes(a: int, b: int)
    ensures Times(a, b) == Times(b, a)
  {
  }

  lemma NegateTimes(a: int, b: int)
    ensures Times(-a, b) == -Times(a, b) && Times(a, -b) == -Times(a, b) && Times(-a, -b) == Times(a, b)
  {
  }

  lemma SignedProductBound(a: int, b: int)
    requires -0x8000 <= a < 0x8000 && -0x8000 <= b < 0x8000
    ensures -0x4000_0000 <= Times(a, b) <= 0x4000_0000
  {
    hide Times;
    var a', b' := Magnitude(a), Magnitude(b);
    ProductBound(a', b', 0x8000);
    assert Times(0x8000, 0x8000) == 0x4000_0000 by { SquareIs(); }
    NegateTimes(a', b');
  }

  lemma SquareIs()
    ensures Times(0x8000, 0x8000) == 0x4000_0000
  {
  }

  // ---- Division ----

  function Magnitude(a: int): nat {
    if a < 0 then -a else a
  }

  /** Division as C does it: the quotient is truncated towards zero. */
  function TruncatedQuotient(a: int, b: int): int
    requires b != 0
  {
    var q := Quot(Magnitude(a), Magnitude(b));
    if (a < 0) == (b < 0) then q else -q
  }

  function TruncatedRemainder(a: int, b: int): int
    requires b != 0
  {
    var r := Rem(Magnitude(a), Magnitude(b));
    if a < 0 then -r else r
  }

  lemma Truncated(a: int, b: int)
    requires b != 0
    ensures a == Times(TruncatedQuotient(a, b), b) + TruncatedRemainder(a, b)
    ensures Magnitude(TruncatedRemainder(a, b)) < Magnitude(b)
    ensures TruncatedRemainder(a, b) != 0 ==> (TruncatedRemainder(a, b) < 0 <==> a < 0)
    ensures Magnitude(TruncatedQuotient(a, b)) <= Magnitude(a)
  {
    hide Times, Quot, Rem;
    var a', b' := Magnitude(a), Magnitude(b);
    QuotRem(a', b');
    QuotPositive(a', b');
    NegateTimes(Quot(a', b'), b');
    TimesBound(1, b', Quot(a', b'));
    SwapTimes(b', Quot(a', b'));
    TimesOne(Quot(a', b'));
  }

  lemma QuotPositive(a: int, b: int)
    requires a >= 0 && b > 0
    ensures Quot(a, b) >= 0
  {
  }

  /** A division stores a packed result, or leaves its register alone on overflow. */
  datatype Quotient = Packed(value: u32, sr: Status) | Overflow(sr: Status)

  function Pack(q: u16, r: u16): (v: u32)
    ensures Quot(v, 0x1_0000) == r && Rem(v, 0x1_0000) == q
  {
    DivModUnique(r * 0x1_0000 + q, r, q, 0x1_0000);
    r * 0x1_0000 + q
  }

  function QuotientCodes(q: u16, sr: Status): Status {
    sr.(n := q >= 0x8000, z := q == 0, v := false, c := false)
  }

  function OverflowCodes(sr: Status): Status {
    sr.(n := true, z := false, v := true, c := false)
  }

  function Divu(dividend: u32, divisor: u16, sr: Status): Quotient
    requires divisor != 0
  {
    QuotPositive(dividend, divisor);
    var q := Quot(dividend, divisor);
    if q > 0xFFFF then Overflow(OverflowCodes(sr)) else Packed(Pack(q, Rem(dividend, divisor)), QuotientCodes(q, sr))
  }

  /** The low word of a value that fits a signed word. */
  function SignedWord(v: int): (r: u16)
    requires Fits(Word, v)
    ensures Signed(Word, r) == v
  {
    if v < 0 then v + 0x1_0000 else v
  }

  function Divs(dividend: u32, divisor: u16, sr: Status): Quotient
    requires divisor != 0
  {
    var a, b := Signed(Long, dividend), Signed(Word, divisor);
    Truncated(a, b);
    var q := TruncatedQuotient(a, b);
    if !Fits(Word, q) then Overflow(OverflowCodes(sr))
    else Packed(Pack(SignedWord(q), SignedWord(TruncatedRemainder(a, b))), QuotientCodes(SignedWord(q), sr))
  }

  // ---- What they mean ----

  /** DIVU packs the remainder above the quotient, and MULU leads back to the dividend. It overflows exactly
      when the quotient has more than sixteen bits. */
  lemma DivuInverts(dividend: u32, divisor: u16, sr: Status)
    requires divisor != 0
    ensures match Divu(dividend, divisor, sr)
      case Packed(v, sr') =>
        var q: u16, r: u16 := Rem(v, 0x1_0000), Quot(v, 0x1_0000);
        && r < divisor && dividend == Mulu(q, divisor) + r
        && dividend < Times(0x1_0000, divisor)
        && sr' == sr.(n := Signed(Word, q) < 0, z := q == 0, v := false, c := false)
      case Overflow(sr') => dividend >= Times(0x1_0000, divisor) && sr'.v && sr'.x == sr.x && sr'.sys == sr.sys
  {
    hide Times, Quot, Rem, Pack;
    QuotRem(dividend, divisor);
    QuotPositive(dividend, divisor);
    var q := Quot(dividend, divisor);
    if q > 0xFFFF {
      TimesBound(0x1_0000, q, divisor);
    } else {
      TimesBound(q, 0xFFFF, divisor);
      Distribute(0xFFFF, 1, divisor);
      TimesOne(divisor);
    }
  }

  /** DIVS truncates towards zero: the remainder is smaller than the divisor and has the sign of the dividend, and
      MULS leads back. It overflows exactly when no quotient of sixteen bits with such a remainder exists. */
  lemma DivsInverts(dividend: u32, divisor: u16, sr: Status)
    requires divisor != 0
    ensures match Divs(dividend, divisor, sr)
      case Packed(v, sr') =>
        var q: u16, r := Rem(v, 0x1_0000), Signed(Word, Quot(v, 0x1_0000));
        && Divides(Signed(Long, dividend), Signed(Word, divisor), Signed(Word, q), r)
        && Signed(Long, dividend) == Signed(Long, Muls(q, divisor)) + r
        && sr' == sr.(n := Signed(Word, q) < 0, z := q == 0, v := false, c := false)
      case Overflow(sr') =>
        && sr'.v && sr'.x == sr.x && sr'.sys == sr.sys
        && forall q, r :: Divides(Signed(Long, dividend), Signed(Word, divisor), q, r) ==> !Fits(Word, q)
  {
    hide Times, Quot, Rem, Pack;
    var a, b := Signed(Long, dividend), Signed(Word, divisor);
    Truncated(a, b);
    forall q, r | Divides(a, b, q, r)
      ensures q == TruncatedQuotient(a, b)
    {
      DividesUnique(a, b, q, r);
    }
  }

  /** `q` and `r` are the quotient and remainder of a division that truncates towards zero. */
  predicate Divides(a: int, b: int, q: int, r: int) {
    a == Times(q, b) + r && Magnitude(r) < Magnitude(b) && (r != 0 ==> (r < 0 <==> a < 0))
  }

  lemma DividesUnique(a: int, b: int, q: int, r: int)
    requires b != 0 && Divides(a, b, q, r)
    ensures q == TruncatedQuotient(a, b) && r == TruncatedRemainder(a, b)
  {
    hide Times, Quot, Rem;
    // The same equation between the magnitudes.
    var a', b', r' := Magnitude(a), Magnitude(b), Magnitude(r);
    var q' := if (a < 0) == (b < 0) then q else -q;
    NegateTimes(q, b);
    DivModUnique(a', q', r', b');
  }
}
