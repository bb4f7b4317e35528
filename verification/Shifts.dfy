/** Closed forms of the shift and rotate instructions, and the one-step laws that the loops of
    `Cpus.Cpu` rest on. */
module Shifts {
  import opened Words
  import opened StatusRegister
  import Alu

  type Out = Alu.Out

  /** Condition codes of a shift or rotate: X follows the last bit out unless nothing was shifted. */
  function ShiftCodes(sz: Size, r: u32, overflow: bool, count: nat, last: bool, sr: Status): Status {
    Alu.Codes(sz, r, overflow, last, sr).(x := if count == 0 then sr.x else last)
  }

  // ---- Left shifts ----

  /** `v` times 2^count, modulo the size. */
  function LeftValue(sz: Size, v: int, count: nat): (r: u32)
    ensures r < sz.Modulus()
  {
    Rem(Times(v, Pow(2, count)), sz.Modulus())
  }

  /** The last bit pushed out at the top. */
  predicate LeftLast(sz: Size, v: int, count: nat) {
    count > 0 && LeftValue(sz, v, count - 1) >= sz.Half()
  }

  function Lsl(sz: Size, v: u32, count: nat, sr: Status): Out {
    var r := LeftValue(sz, v, count);
    Alu.Out(r, ShiftCodes(sz, r, false, count, LeftLast(sz, v, count), sr))
  }

  /** The arithmetic shift also reports when the signed product does not fit. */
  function Asl(sz: Size, v: u32, count: nat, sr: Status): Out {
    var r := LeftValue(sz, v, count);
    var overflow := !Fits(sz, Times(Signed(sz, v), Pow(2, count)));
    Alu.Out(r, ShiftCodes(sz, r, overflow, count, LeftLast(sz, v, count), sr))
  }

  // ---- Right shifts ----

  /** Division by 2^count, rounding down. */
  function RightQuotient(v: int, count: nat): int {
    PowPositive(2, count);
    Quot(v, Pow(2, count))
  }

  predicate RightLast(v: int, count: nat) {
    count > 0 && RightQuotient(v, count - 1) % 2 == 1
  }

  function Lsr(sz: Size, v: u32, count: nat, sr: Status): Out {
    RightBound(sz, v, count);
    var r: u32 := RightQuotient(v, count);
    Alu.Out(r, ShiftCodes(sz, r, false, count, RightLast(v, count), sr))
  }

  /** The bit pattern of a signed value. */
  function Unsigned(sz: Size, s: int): int {
    if s < 0 then s + sz.Modulus() else s
  }

  /** The arithmetic shift divides the signed value. */
  function AsrValue(sz: Size, v: u32, count: nat): (r: u32)
    requires v < sz.Modulus()
    ensures r < sz.Modulus()
  {
    SignedRightFits(sz, v, count);
    Unsigned(sz, RightQuotient(Signed(sz, v), count))
  }

  function Asr(sz: Size, v: u32, count: nat, sr: Status): Out
    requires v < sz.Modulus()
  {
    var r := AsrValue(sz, v, count);
    Alu.Out(r, ShiftCodes(sz, r, false, count, RightLast(Signed(sz, v), count), sr))
  }

  // ---- Laws of one step ----

  lemma PowDouble(count: nat)
    ensures Pow(2, count + 1) == 2 * Pow(2, count)
  {
  }

  lemma {:induction false} RightBound(sz: Size, v: int, count: nat)
    requires v >= 0
    ensures 0 <= RightQuotient(v, count) <= v
  {
    hide Times;
    if count > 0 {
      RightBound(sz, v, count - 1);
      RightStep(v, count - 1);
    }
  }

  /** Halving the quotient is one more place of the shift. */
  lemma RightStep(v: int, count: nat)
    ensures RightQuotient(v, count + 1) == RightQuotient(v, count) / 2
  {
    hide Times;
    PowPositive(2, count);
    PowDouble(count);
    var p, q := Pow(2, count), RightQuotient(v, count);
    var h, b, rest := q / 2, q % 2, Rem(v, p);
    QuotRem(v, p);
    Distribute(2 * h, b, p);
    TimesDouble(h, p);
    TimesOne(p);
    DivModUnique(v, h, Times(b, p) + rest, 2 * p);
  }

  lemma TimesDouble(h: int, p: int)
    ensures Times(2 * h, p) == Times(h, 2 * p) == 2 * Times(h, p)
  {
  }

  lemma {:induction false} SignedRightFits(sz: Size, v: u32, count: nat)
    requires v < sz.Modulus()
    ensures Fits(sz, RightQuotient(Signed(sz, v), count))
    ensures RightQuotient(Signed(sz, v), count) < 0 <==> Signed(sz, v) < 0
  {
    hide Times;
    if count > 0 {
      SignedRightFits(sz, v, count - 1);
      RightStep(Signed(sz, v), count - 1);
    }
  }

  /** Doubling and dropping the top bit is one more place of the shift. */
  lemma LeftStep(sz: Size, v: int, count: nat)
    ensures LeftValue(sz, v, count + 1) == Doubled(sz, LeftValue(sz, v, count))
  {
    hide Times;
    PowDouble(count);
    var m, s := sz.Modulus(), Times(v, Pow(2, count));
    var q, r := Quot(s, m), LeftValue(sz, v, count);
    QuotRem(s, m);
    TimesTwice(v, Pow(2, count));
    TimesDouble(q, m);
    var carry := if 2 * r < m then 0 else 1;
    Distribute(2 * q, carry, m);
    TimesOne(m);
    DivModUnique(2 * s, 2 * q + carry, Doubled(sz, r), m);
  }

  function Doubled(sz: Size, r: int): int {
    if 2 * r < sz.Modulus() then 2 * r else 2 * r - sz.Modulus()
  }

  lemma TimesTwice(v: int, p: int)
    ensures Times(v, 2 * p) == 2 * Times(v, p)
  {
  }

  lemma LeftZero(sz: Size, v: u32)
    requires v < sz.Modulus()
    ensures LeftValue(sz, v, 0) == v && Times(Signed(sz, v), Pow(2, 0)) == Signed(sz, v)
  {
    hide Times;
    TimesOne(v);
    TimesOne(Signed(sz, v));
    TimesOne(sz.Modulus());
    DivModUnique(v, 0, v, sz.Modulus());
  }

  /** The signed product and the unsigned one have the same low bits. */
  lemma SignedLeft(sz: Size, v: u32, count: nat)
    requires v < sz.Modulus()
    ensures Rem(Times(Signed(sz, v), Pow(2, count)), sz.Modulus()) == LeftValue(sz, v, count)
  {
    hide Times;
    var m, p := sz.Modulus(), Pow(2, count);
    if v >= sz.Half() {
      var s := Times(v, p);
      QuotRem(s, m);
      Distribute(v, m, p);
      TimesCommute(m, p);
      Distribute(Quot(s, m), p, m);
      DivModUnique(Times(Signed(sz, v), p), Quot(s, m) - p, Rem(s, m), m);
    }
  }

  lemma TimesCommute(a: int, b: int)
    ensures Times(a, b) == Times(b, a)
  {
  }

  /** A product in range is the signed reading of its low bits. */
  lemma FittingIsSigned(sz: Size, s: int, r: u32)
    requires Fits(sz, s) && Rem(s, sz.Modulus()) == r
    ensures r < sz.Modulus() && Signed(sz, r) == s
  {
    hide Times;
    var m := sz.Modulus();
    TimesOne(m);
    Distribute(0, 1, m);
    if s < 0 {
      DivModUnique(s, -1, s + m, m);
    } else {
      DivModUnique(s, 0, s, m);
    }
  }

  /** Overflow is sticky, and appears exactly when the sign bit first differs from the operand's. */
  lemma OverflowStep(sz: Size, v: u32, count: nat)
    requires v < sz.Modulus()
    ensures !Fits(sz, Times(Signed(sz, v), Pow(2, count + 1)))
            <==> !Fits(sz, Times(Signed(sz, v), Pow(2, count)))
                 || (LeftValue(sz, v, count + 1) >= sz.Half()) != (v >= sz.Half())
  {
    hide Times, LeftValue;
    var s, p := Signed(sz, v), Pow(2, count);
    PowDouble(count);
    PowPositive(2, count);
    TimesTwice(s, p);
    if Fits(sz, Times(s, p)) {
      SignedLeft(sz, v, count);
      FittingIsSigned(sz, Times(s, p), LeftValue(sz, v, count));
      LeftStep(sz, v, count);
      ProductSign(s, p);
    }
  }

  lemma ProductSign(s: int, p: int)
    requires p > 0
    ensures Times(s, p) < 0 <==> s < 0
  {
  }

  lemma RightZero(v: int)
    ensures RightQuotient(v, 0) == v
  {
  }

  /** Halving the pattern and copying the sign bit halves the signed value, rounding down. */
  lemma HalveSigned(sz: Size, s: int)
    requires Fits(sz, s)
    ensures var u := Unsigned(sz, s);
      && 0 <= u < sz.Modulus()
      && (u % 2 == 1 <==> s % 2 == 1)
      && Unsigned(sz, s / 2) == if BitAt(u / 2, sz.Half() / 2) then u / 2 + sz.Half() else u / 2
  {
    hide BitAt;
    var u := Unsigned(sz, s);
    ParityIs(u, if s < 0 then s / 2 + sz.Half() else s / 2, s % 2);
    BitBelowTop(sz, u / 2);
  }

  lemma AsrStep(sz: Size, v: u32, count: nat)
    requires v < sz.Modulus()
    ensures AsrValue(sz, v, 0) == v
    ensures var u := AsrValue(sz, v, count);
      && (u % 2 == 1 <==> RightLast(Signed(sz, v), count + 1))
      && AsrValue(sz, v, count + 1) == if BitAt(u / 2, sz.Half() / 2) then u / 2 + sz.Half() else u / 2
  {
    hide BitAt, RightQuotient;
    RightZero(Signed(sz, v));
    RightStep(Signed(sz, v), count);
    SignedRightFits(sz, v, count);
    HalveSigned(sz, RightQuotient(Signed(sz, v), count));
  }

  lemma BitBelowTop(sz: Size, h: int)
    requires 0 <= h < sz.Half()
    ensures BitAt(h, sz.Half() / 2) <==> h >= sz.Half() / 2
  {
    hide Times;
    var w := sz.Half() / 2;
    TimesOne(w);
    if h < w {
      DivModUnique(h, 0, h, w);
    } else {
      DivModUnique(h, 1, h - w, w);
    }
  }

  // ---- Rotations ----

  /** Rotation of the low `n` bits by `k` places: the low part moves up, the high part comes back below. */
  function RotatedLeft(q: int, n: nat, k: nat): int
    requires k <= n
  {
    PowPositive(2, n - k);
    Times(Rem(q, Pow(2, n - k)), Pow(2, k)) + Quot(q, Pow(2, n - k))
  }

  function RotatedRight(q: int, n: nat, k: nat): int
    requires k <= n
  {
    RotatedLeft(q, n, n - k)
  }

  /** One place to the left, as the loops do it: double, and the bit that falls off returns below. */
  function OneLeft(q: int, n: nat): int {
    if 2 * q < Pow(2, n) then 2 * q else 2 * q - Pow(2, n) + 1
  }

  /** One place to the right: halve, and the bit that falls off returns at the top. */
  function OneRight(q: int, n: nat): int {
    if q % 2 == 0 then q / 2 else q / 2 + Pow(2, n) / 2
  }

  lemma RotatedBound(q: int, n: nat, k: nat)
    requires k <= n && 0 <= q < Pow(2, n)
    ensures 0 <= RotatedLeft(q, n, k) < Pow(2, n)
  {
    hide Times;
    var p, t := Pow(2, n - k), Pow(2, k);
    PowPositive(2, n - k);
    PowAdd(2, n - k, k);
    QuotRem(q, p);
    QuotientBound(q, p, t);
    TimesBound(Rem(q, p), p - 1, t);
    Distribute(p, 1, t);
    TimesOne(t);
  }

  lemma QuotientBound(q: int, p: int, t: int)
    requires p > 0 && t >= 0 && 0 <= q < Times(p, t)
    ensures 0 <= Quot(q, p) < t
  {
    hide Times, Quot, Rem;
    QuotRem(q, p);
    TimesCommute(p, t);
    TimesOne(p);
    if Quot(q, p) >= t {
      TimesBound(t, Quot(q, p), p);
    } else if Quot(q, p) < 0 {
      Distribute(0, -Quot(q, p), p);
      TimesBound(1, -Quot(q, p), p);
    }
  }

  lemma RotationEnds(q: int, n: nat)
    requires 0 <= q < Pow(2, n)
    ensures RotatedLeft(q, n, 0) == q && RotatedLeft(q, n, n) == q
  {
    hide Times;
    TimesOne(q);
    TimesOne(Pow(2, n));
    PowPositive(2, n);
    DivModUnique(q, 0, q, Pow(2, n));
    DivModUnique(q, q, 0, 1);
  }

  /** One more place. */
  lemma RotationStep(q: int, n: nat, k: nat)
    requires k < n && 0 <= q < Pow(2, n)
    ensures RotatedLeft(q, n, k + 1) == OneLeft(RotatedLeft(q, n, k), n)
  {
    hide Times, Pow, Quot, Rem, RotatedLeft;
    // q is h, one bit b and l: h above 2p, b above p.
    var p, t := Pow(2, n - k - 1), Pow(2, k);
    PowPositive(2, n - k - 1);
    PowPositive(2, k);
    PowDouble(n - k - 1);
    PowDouble(k);
    PowAdd(2, n - k - 1, k + 1);
    TimesDouble(p, t);
    RotatedIs(q, n, k, 2 * p, t);
    RotatedIs(q, n, k + 1, p, 2 * t);
    var h, b, l := SplitAt(q, p, t);
    RotateParts(h, b, l, p, t);
  }

  lemma RotatedIs(q: int, n: nat, k: nat, p: int, t: int)
    requires k <= n && p == Pow(2, n - k) > 0 && t == Pow(2, k)
    ensures RotatedLeft(q, n, k) == Times(Rem(q, p), t) + Quot(q, p)
  {
    hide Times, Pow, Quot, Rem;
  }

  /** A value as a part `h` above 2p, one bit `b` and a part `l` below p. */
  lemma SplitAt(q: int, p: int, t: int) returns (h: int, b: int, l: int)
    requires p > 0 && t > 0 && 0 <= q < Times(2 * p, t)
    ensures 0 <= h < t && 0 <= b < 2 && 0 <= l < p
    ensures Quot(q, 2 * p) == h && Rem(q, 2 * p) == Times(b, p) + l
    ensures Quot(q, p) == 2 * h + b && Rem(q, p) == l
  {
    hide Times, Quot, Rem;
    var rest := Rem(q, 2 * p);
    h := Quot(q, 2 * p);
    b, l := Quot(rest, p), Rem(rest, p);
    QuotRem(q, 2 * p);
    QuotRem(rest, p);
    TimesTwo(p);
    QuotientBound(rest, p, 2);
    QuotientBound(q, 2 * p, t);
    Distribute(2 * h, b, p);
    TimesDouble(h, p);
    DivModUnique(q, 2 * h + b, l, p);
  }

  lemma TimesTwo(p: int)
    ensures Times(p, 2) == 2 * p
  {
  }

  lemma RotateParts(h: int, b: int, l: int, p: int, t: int)
    requires 0 <= h < t && 0 <= b < 2 && 0 <= l < p
    ensures var r := Times(Times(b, p) + l, t) + h;
      (if 2 * r < Times(p, 2 * t) then 2 * r else 2 * r - Times(p, 2 * t) + 1) == Times(l, 2 * t) + 2 * h + b
  {
    hide Times;
    TimesTwice(p, t);
    TimesTwice(l, t);
    TimesOne(p);
    TimesOne(t);
    Distribute(p, l, t);
    Distribute(p, 1, t);
    TimesBound(0, l, t);
    TimesBound(l, p - 1, t);
  }

  lemma PowEven(n: nat)
    requires n > 0
    ensures Pow(2, n) == 2 * (Pow(2, n) / 2)
  {
    hide Pow;
    PowDouble(n - 1);
  }

  /** The two single steps undo each other. */
  lemma OneLeftOneRight(q: int, n: nat)
    requires n > 0 && 0 <= q < Pow(2, n)
    ensures OneRight(OneLeft(q, n), n) == q && OneLeft(OneRight(q, n), n) == q
  {
    hide Pow;
    PowEven(n);
  }

  /** What `count` single steps to the left do: rotation by `count` modulo the number of bits. */
  function ManyLeft(q: int, n: nat, count: nat): int {
    if count == 0 then q else OneLeft(ManyLeft(q, n, count - 1), n)
  }

  function ManyRight(q: int, n: nat, count: nat): int {
    if count == 0 then q else OneRight(ManyRight(q, n, count - 1), n)
  }

  lemma {:induction false} ManyLeftIsRotation(q: int, n: nat, count: nat)
    requires n > 0 && 0 <= q < Pow(2, n)
    ensures ManyLeft(q, n, count) == RotatedLeft(q, n, count % n)
  {
    hide Pow, RotatedLeft, OneLeft;
    RotationEnds(q, n);
    if count == 0 {
      DivModUnique(0, 0, 0, n);
    } else {
      ManyLeftIsRotation(q, n, count - 1);
      NextRemainder(count, n);
      RotationStep(q, n, (count - 1) % n);
    }
  }

  lemma NextRemainder(count: nat, n: nat)
    requires n > 0 && count > 0
    ensures count % n == if (count - 1) % n == n - 1 then 0 else (count - 1) % n + 1
    ensures 0 <= (count - 1) % n < n
  {
    hide Times;
    var q, r := (count - 1) / n, (count - 1) % n;
    QuotRem(count - 1, n);
    Distribute(q, 1, n);
    TimesOne(n);
    if r == n - 1 {
      DivModUnique(count, q + 1, 0, n);
    } else {
      DivModUnique(count, q, r + 1, n);
    }
  }

  lemma {:induction false} ManyRightIsRotation(q: int, n: nat, count: nat)
    requires n > 0 && 0 <= q < Pow(2, n)
    ensures 0 <= count % n < n
    ensures ManyRight(q, n, count) == RotatedRight(q, n, count % n)
  {
    hide Pow, RotatedLeft, OneLeft, OneRight;
    RotationEnds(q, n);
    if count == 0 {
      DivModUnique(0, 0, 0, n);
    } else {
      ManyRightIsRotation(q, n, count - 1);
      NextRemainder(count, n);
      var k := n - (count - 1) % n;
      RotationStep(q, n, k - 1);
      RotatedBound(q, n, k - 1);
      OneLeftOneRight(RotatedLeft(q, n, k - 1), n);
    }
  }

  /** Rotating right undoes rotating left, and the other way round, for any counts. */
  lemma {:induction false} RotationsUndo(q: int, n: nat, count: nat)
    requires n > 0 && 0 <= q < Pow(2, n)
    ensures 0 <= count % n < n
    ensures RotatedRight(RotatedLeft(q, n, count % n), n, count % n) == q
    ensures RotatedLeft(RotatedRight(q, n, count % n), n, count % n) == q
  {
    hide Pow, RotatedLeft, RotatedRight, ManyLeft, ManyRight;
    ManyRightIsRotation(q, n, count);
    ManyLeftIsRotation(q, n, count);
    LeftThenRight(q, n, count);
    RightThenLeft(q, n, count);
    RotatedRightBound(q, n, count % n);
    RotatedBound(q, n, count % n);
    ManyRightIsRotation(RotatedLeft(q, n, count % n), n, count);
    ManyLeftIsRotation(RotatedRight(q, n, count % n), n, count);
  }

  lemma RotatedRightBound(q: int, n: nat, k: nat)
    requires k <= n && 0 <= q < Pow(2, n)
    ensures 0 <= RotatedRight(q, n, k) < Pow(2, n)
  {
    hide RotatedLeft, Pow;
    RotatedBound(q, n, n - k);
  }

  lemma OneStaysInRange(q: int, n: nat)
    requires n > 0 && 0 <= q < Pow(2, n)
    ensures 0 <= OneLeft(q, n) < Pow(2, n) && 0 <= OneRight(q, n) < Pow(2, n)
  {
    hide Pow;
    PowEven(n);
  }

  lemma {:induction false} LeftThenRight(q: int, n: nat, count: nat)
    requires n > 0 && 0 <= q < Pow(2, n)
    ensures 0 <= ManyLeft(q, n, count) < Pow(2, n)
    ensures ManyRight(ManyLeft(q, n, count), n, count) == q
  {
    hide Pow, OneLeft, OneRight;
    if count > 0 {
      var q' := ManyLeft(q, n, count - 1);
      LeftThenRight(q, n, count - 1);
      OneStaysInRange(q', n);
      ManyRightFirst(OneLeft(q', n), n, count);
      OneLeftOneRight(q', n);
    }
  }

  lemma {:induction false} RightThenLeft(q: int, n: nat, count: nat)
    requires n > 0 && 0 <= q < Pow(2, n)
    ensures 0 <= ManyRight(q, n, count) < Pow(2, n)
    ensures ManyLeft(ManyRight(q, n, count), n, count) == q
  {
    hide Pow, OneLeft, OneRight;
    if count > 0 {
      var q' := ManyRight(q, n, count - 1);
      RightThenLeft(q, n, count - 1);
      OneStaysInRange(q', n);
      ManyLeftFirst(OneRight(q', n), n, count);
      OneLeftOneRight(q', n);
    }
  }

  lemma {:induction false} ManyRightFirst(q: int, n: nat, count: nat)
    requires count > 0
    ensures ManyRight(q, n, count) == ManyRight(OneRight(q, n), n, count - 1)
  {
    hide OneRight;
    if count > 1 {
      ManyRightFirst(q, n, count - 1);
    }
  }

  lemma {:induction false} ManyLeftFirst(q: int, n: nat, count: nat)
    requires count > 0
    ensures ManyLeft(q, n, count) == ManyLeft(OneLeft(q, n), n, count - 1)
  {
    hide OneLeft;
    if count > 1 {
      ManyLeftFirst(q, n, count - 1);
    }
  }

  // ---- The rotate instructions ----

  lemma PowBits(sz: Size)
    ensures Pow(2, sz.Bits()) == sz.Modulus()
    ensures Pow(2, sz.Bits() + 1) == 2 * sz.Modulus()
  {
    assert Pow(2, 4) == 16;
    hide Pow;
    PowAdd(2, 4, 4);
    PowAdd(2, 8, 8);
    PowAdd(2, 16, 16);
    PowDouble(sz.Bits());
  }

  /** ROL rotates the operand; X is left alone. */
  function Rol(sz: Size, v: u32, count: nat, sr: Status): (out: Out)
    requires v < sz.Modulus()
    ensures out.value < sz.Modulus()
  {
    PowBits(sz);
    Remainder(count, sz.Bits());
    RotatedBound(v, sz.Bits(), count % sz.Bits());
    var r: u32 := RotatedLeft(v, sz.Bits(), count % sz.Bits());
    Alu.Out(r, Alu.Codes(sz, r, false, count > 0 && Odd(r), sr))
  }

  function Ror(sz: Size, v: u32, count: nat, sr: Status): (out: Out)
    requires v < sz.Modulus()
    ensures out.value < sz.Modulus()
  {
    PowBits(sz);
    Remainder(count, sz.Bits());
    RotatedRightBound(v, sz.Bits(), count % sz.Bits());
    var r: u32 := RotatedRight(v, sz.Bits(), count % sz.Bits());
    Alu.Out(r, Alu.Codes(sz, r, false, count > 0 && r >= sz.Half(), sr))
  }

  lemma Remainder(count: nat, n: int)
    requires n > 0
    ensures 0 <= count % n < n
  {
  }

  /** The extend bit above the operand. */
  function Extended(sz: Size, x: bool, v: u32): int
  {
    if x then sz.Modulus() + v else v
  }

  /** The operand and the extend bit of a result, both in C and X. */
  function Unextended(sz: Size, q: int, sr: Status): Out
    requires 0 <= q < 2 * sz.Modulus()
  {
    var x := q >= sz.Modulus();
    var r: u32 := if x then q - sz.Modulus() else q;
    Alu.Out(r, Alu.Codes(sz, r, false, x, sr).(x := x))
  }

  /** ROXL and ROXR rotate the operand with X above it: one bit more than the operand has. */
  function Roxl(sz: Size, v: u32, count: nat, sr: Status): (out: Out)
    requires v < sz.Modulus()
    ensures out.value < sz.Modulus()
  {
    PowBits(sz);
    var n := sz.Bits() + 1;
    Remainder(count, n);
    RotatedBound(Extended(sz, sr.x, v), n, count % n);
    Unextended(sz, RotatedLeft(Extended(sz, sr.x, v), n, count % n), sr)
  }

  function Roxr(sz: Size, v: u32, count: nat, sr: Status): (out: Out)
    requires v < sz.Modulus()
    ensures out.value < sz.Modulus()
  {
    PowBits(sz);
    var n := sz.Bits() + 1;
    Remainder(count, n);
    RotatedRightBound(Extended(sz, sr.x, v), n, count % n);
    Unextended(sz, RotatedRight(Extended(sz, sr.x, v), n, count % n), sr)
  }

  /** ROR by the same count restores the operand that ROL rotated, and the other way round. */
  lemma RotatesUndo(sz: Size, v: u32, count: nat, sr: Status, sr': Status)
    requires v < sz.Modulus()
    ensures Rol(sz, v, count, sr).value < sz.Modulus() && Ror(sz, v, count, sr).value < sz.Modulus()
    ensures Ror(sz, Rol(sz, v, count, sr).value, count, sr').value == v
    ensures Rol(sz, Ror(sz, v, count, sr).value, count, sr').value == v
    ensures Rol(sz, v, count, sr).sr.x == sr.x && Ror(sz, v, count, sr).sr.x == sr.x
  {
    hide Pow, RotatedLeft, RotatedRight;
    PowBits(sz);
    RotationsUndo(v, sz.Bits(), count);
    RotatedBound(v, sz.Bits(), count % sz.Bits());
    RotatedRightBound(v, sz.Bits(), count % sz.Bits());
  }

  lemma ExtendedParts(sz: Size, q: int, sr: Status)
    requires 0 <= q < 2 * sz.Modulus()
    ensures var out := Unextended(sz, q, sr);
      out.value < sz.Modulus() && Extended(sz, out.sr.x, out.value) == q && out.sr.c == out.sr.x
  {
  }

  lemma ExtendedBound(sz: Size, x: bool, v: u32)
    requires v < sz.Modulus()
    ensures 0 <= Extended(sz, x, v) < 2 * sz.Modulus()
    ensures forall sr :: Unextended(sz, Extended(sz, x, v), sr).value == v
                         && Unextended(sz, Extended(sz, x, v), sr).sr.x == x
  {
  }

  /** ROXR by the same count restores operand and extend bit after ROXL, and the other way round. */
  lemma ExtendedRotatesUndo(sz: Size, v: u32, count: nat, sr: Status)
    requires v < sz.Modulus()
    ensures var left := Roxl(sz, v, count, sr);
      left.value < sz.Modulus() && left.sr.c == left.sr.x
      && Roxr(sz, left.value, count, left.sr).value == v
      && Roxr(sz, left.value, count, left.sr).sr.x == sr.x
    ensures var right := Roxr(sz, v, count, sr);
      right.value < sz.Modulus() && right.sr.c == right.sr.x
      && Roxl(sz, right.value, count, right.sr).value == v
      && Roxl(sz, right.value, count, right.sr).sr.x == sr.x
  {
    hide Pow, RotatedLeft, RotatedRight, Extended, Unextended;
    PowBits(sz);
    var n, q := sz.Bits() + 1, Extended(sz, sr.x, v);
    ExtendedBound(sz, sr.x, v);
    RotationsUndo(q, n, count);
    RotatedBound(q, n, count % n);
    RotatedRightBound(q, n, count % n);
    ExtendedParts(sz, RotatedLeft(q, n, count % n), sr);
    ExtendedParts(sz, RotatedRight(q, n, count % n), sr);
  }

  // ---- The rotate loops, one place at a time ----

  lemma NothingOut(v: int)
    ensures !RightLast(v, 0)
  {
  }

  lemma ManyZero(q: int, n: nat)
    ensures ManyLeft(q, n, 0) == q && ManyRight(q, n, 0) == q
  {
  }

  lemma RolStep(sz: Size, v: u32, input: u32, count: nat)
    requires input < sz.Modulus() && input == ManyLeft(v, sz.Bits(), count)
    ensures var next := if 2 * input < sz.Modulus() then 2 * input else 2 * input - sz.Modulus() + 1;
      ManyLeft(v, sz.Bits(), count + 1) == next && (Odd(next) <==> input >= sz.Half())
  {
    hide Pow;
    PowBits(sz);
    ParityIs(2 * input, input, 0);
    ParityIs(2 * input - sz.Modulus() + 1, input - sz.Half(), 1);
  }

  lemma RorStep(sz: Size, v: u32, input: u32, count: nat)
    requires input < sz.Modulus() && input == ManyRight(v, sz.Bits(), count)
    ensures ManyRight(v, sz.Bits(), count + 1) == if input % 2 == 0 then input / 2 else input / 2 + sz.Half()
  {
    hide Pow;
    PowBits(sz);
  }

  lemma RolValue(sz: Size, v: u32, count: nat, sr: Status)
    requires v < sz.Modulus()
    ensures Rol(sz, v, count, sr).value == ManyLeft(v, sz.Bits(), count)
  {
    hide Pow, RotatedLeft, ManyLeft;
    PowBits(sz);
    ManyLeftIsRotation(v, sz.Bits(), count);
  }

  lemma RorValue(sz: Size, v: u32, count: nat, sr: Status)
    requires v < sz.Modulus()
    ensures Ror(sz, v, count, sr).value == ManyRight(v, sz.Bits(), count)
  {
    hide Pow, RotatedRight, ManyRight;
    PowBits(sz);
    ManyRightIsRotation(v, sz.Bits(), count);
  }

  lemma RoxlStep(sz: Size, q: int, x: bool, input: u32, count: nat)
    requires input < sz.Modulus() && Extended(sz, x, input) == ManyLeft(q, sz.Bits() + 1, count)
    ensures var top := input >= sz.Half();
      ManyLeft(q, sz.Bits() + 1, count + 1)
      == Extended(sz, top, (if top then 2 * input - sz.Modulus() else 2 * input) + BitOf(x))
  {
    hide Pow;
    PowBits(sz);
  }

  lemma RoxrStep(sz: Size, q: int, x: bool, input: u32, count: nat)
    requires input < sz.Modulus() && Extended(sz, x, input) == ManyRight(q, sz.Bits() + 1, count)
    ensures ManyRight(q, sz.Bits() + 1, count + 1)
            == Extended(sz, input % 2 == 1, input / 2 + (if x then sz.Half() else 0))
  {
    hide Pow;
    PowBits(sz);
    if x {
      ParityIs(sz.Modulus() + input, sz.Half() + input / 2, input % 2);
      assert (sz.Modulus() + input) / 2 == sz.Half() + input / 2;
    }
  }

  lemma RoxlValue(sz: Size, v: u32, count: nat, sr: Status, x': bool, input: u32)
    requires v < sz.Modulus() && input < sz.Modulus()
    requires Extended(sz, x', input) == ManyLeft(Extended(sz, sr.x, v), sz.Bits() + 1, count)
    ensures Roxl(sz, v, count, sr).value == input
    ensures Roxl(sz, v, count, sr).sr
            == sr.(n := Alu.Negative(sz, input), z := input == 0, v := false, c := x', x := x')
  {
    hide Pow, RotatedLeft, ManyLeft, Alu.Negative;
    PowBits(sz);
    ManyLeftIsRotation(Extended(sz, sr.x, v), sz.Bits() + 1, count);
  }

  lemma RoxrValue(sz: Size, v: u32, count: nat, sr: Status, x': bool, input: u32)
    requires v < sz.Modulus() && input < sz.Modulus()
    requires Extended(sz, x', input) == ManyRight(Extended(sz, sr.x, v), sz.Bits() + 1, count)
    ensures Roxr(sz, v, count, sr).value == input
    ensures Roxr(sz, v, count, sr).sr
            == sr.(n := Alu.Negative(sz, input), z := input == 0, v := false, c := x', x := x')
  {
    hide Pow, RotatedRight, ManyRight, Alu.Negative;
    PowBits(sz);
    ManyRightIsRotation(Extended(sz, sr.x, v), sz.Bits() + 1, count);
  }

  // ---- Doubling a number of any length ----

  /** The value of a list of limbs, least significant first. */
  function LimbsValue(sz: Size, limbs: seq<u32>): int {
    if limbs == [] then 0 else limbs[0] + Times(sz.Modulus(), LimbsValue(sz, limbs[1..]))
  }

  ghost predicate ProperLimbs(sz: Size, limbs: seq<u32>) {
    forall i :: 0 <= i < |limbs| ==> limbs[i] < sz.Modulus()
  }

  /** ROXL #1 on one limb after the other, from the least significant one. */
  function RoxlChain(sz: Size, limbs: seq<u32>, sr: Status): (result: (seq<u32>, Status))
    requires forall i :: 0 <= i < |limbs| ==> limbs[i] < sz.Modulus()
  {
    if limbs == [] then ([], sr)
    else
      var out := Roxl(sz, limbs[0], 1, sr);
      var rest := RoxlChain(sz, limbs[1..], out.sr);
      ([out.value] + rest.0, rest.1)
  }

  /** One rotation by one through X doubles the limb, carry in and carry out. */
  lemma RoxlByOne(sz: Size, v: u32, sr: Status)
    requires v < sz.Modulus()
    ensures var out := Roxl(sz, v, 1, sr);
      out.value + (if out.sr.x then sz.Modulus() else 0) == 2 * v + BitOf(sr.x) && out.value < sz.Modulus()
  {
    hide Pow, RotatedLeft;
    PowBits(sz);
    var q, n := Extended(sz, sr.x, v), sz.Bits() + 1;
    DivModUnique(1, 0, 1, n);
    TimesOne(n);
    RotationEnds(q, n);
    RotationStep(q, n, 0);
  }

  /** The chain doubles the whole number and adds X; the bit shifted out of the top is left in X. */
  lemma {:induction false} RoxlChainDoubles(sz: Size, limbs: seq<u32>, sr: Status)
    requires ProperLimbs(sz, limbs)
    ensures var (limbs', sr') := RoxlChain(sz, limbs, sr);
      && |limbs'| == |limbs| && ProperLimbs(sz, limbs')
      && LimbsValue(sz, limbs') + (if sr'.x then Pow(sz.Modulus(), |limbs|) else 0)
         == 2 * LimbsValue(sz, limbs) + BitOf(sr.x)
  {
    hide Times, Roxl;
    if limbs != [] {
      var out := Roxl(sz, limbs[0], 1, sr);
      RoxlByOne(sz, limbs[0], sr);
      RoxlChainDoubles(sz, limbs[1..], out.sr);
      var (rest, sr') := RoxlChain(sz, limbs[1..], out.sr);
      var limbs' := [out.value] + rest;
      assert limbs'[1..] == rest && limbs'[0] == out.value;
      var m, p, v := sz.Modulus(), Pow(sz.Modulus(), |limbs| - 1), LimbsValue(sz, limbs[1..]);
      DoubleCarry(m, p, LimbsValue(sz, rest), v, out.sr.x, sr'.x);
    }
  }

  lemma DoubleCarry(m: int, p: int, v': int, v: int, x1: bool, x2: bool)
    requires v' + (if x2 then p else 0) == 2 * v + BitOf(x1)
    ensures Times(m, v') + (if x2 then Times(m, p) else 0) == 2 * Times(m, v) + (if x1 then m else 0)
  {
    var carry := if x2 then p else 0;
    assert m * (v' + carry) == m * (2 * v + BitOf(x1));
  }
}
