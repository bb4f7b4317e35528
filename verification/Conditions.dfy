/** The sixteen conditions of Bcc, DBcc and Scc, and what they say after a compare. */
module Conditions {
  import opened Words
  import opened StatusRegister
  import Alu

  type Condition = c: int | 0 <= c < 16

  /** The condition table; codes 0 and 1 are "true" and "false". */
  predicate Holds(cond: Condition, sr: Status) {
    match cond
    case 0 => true
    case 1 => false
    case 2 => !sr.c && !sr.z
    case 3 => sr.c || sr.z
    case 4 => !sr.c
    case 5 => sr.c
    case 6 => !sr.z
    case 7 => sr.z
    case 8 => !sr.v
    case 9 => sr.v
    case 10 => !sr.n
    case 11 => sr.n
    case 12 => sr.n == sr.v
    case 13 => sr.n != sr.v
    case 14 => sr.n == sr.v && !sr.z
    case 15 => sr.z || sr.n != sr.v
  }

  /** After comparing `src` with `dst`, each condition is the relation its name says, unsigned or signed. */
  lemma CompareDecides(sz: Size, src: u32, dst: u32, sr: Status)
    requires src < sz.Modulus() && dst < sz.Modulus()
    ensures var after := Alu.Cmp(sz, src, dst, sr);
      && (Holds(2, after) <==> dst > src)
      && (Holds(3, after) <==> dst <= src)
      && (Holds(4, after) <==> dst >= src)
      && (Holds(5, after) <==> dst < src)
      && (Holds(6, after) <==> dst != src)
      && (Holds(7, after) <==> dst == src)
      && (Holds(12, after) <==> Signed(sz, dst) >= Signed(sz, src))
      && (Holds(13, after) <==> Signed(sz, dst) < Signed(sz, src))
      && (Holds(14, after) <==> Signed(sz, dst) > Signed(sz, src))
      && (Holds(15, after) <==> Signed(sz, dst) <= Signed(sz, src))
      && after.x == sr.x && after.sys == sr.sys
  {
    CompareSigns(sz, src, dst, sr);
    hide Alu.Cmp;
  }

  /** N differs from V exactly when the signed difference is negative. */
  lemma CompareSigns(sz: Size, src: u32, dst: u32, sr: Status)
    requires src < sz.Modulus() && dst < sz.Modulus()
    ensures var after := Alu.Cmp(sz, src, dst, sr);
      && (after.n != after.v <==> Signed(sz, dst) < Signed(sz, src))
      && (after.z <==> dst == src) && (after.z <==> Signed(sz, dst) == Signed(sz, src))
      && (after.c <==> dst < src)
      && after.x == sr.x && after.sys == sr.sys
  {
  }

  /** Complementary codes: each odd condition is the negation of the even one before it. */
  lemma OddNegatesEven(cond: Condition, sr: Status)
    requires cond % 2 == 0
    ensures Holds(cond + 1, sr) == !Holds(cond, sr)
  {
  }
}
