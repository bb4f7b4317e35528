/** The operations on the status register, as the masks on its word that the program uses. */
module StatusMasks {
  import opened Words
  import opened StatusRegister
  import opened Operations

  /** The bit operators work bit by bit on packed bits. */
  lemma {:induction false} PackedBitwise(logic: Logic, a: seq<bool>, b: seq<bool>, c: seq<bool>)
    requires |a| == |b| == |c| && forall i :: 0 <= i < |a| ==> c[i] == logic.Bit(a[i], b[i])
    ensures Bitwise(logic, PackBits(a), PackBits(b), |a|) == PackBits(c)
  {
    if a != [] {
      HalfOfPacked(a);
      HalfOfPacked(b);
      PackedBitwise(logic, a[1..], b[1..], c[1..]);
    }
  }

  lemma HalfOfPacked(b: seq<bool>)
    requires b != []
    ensures Odd(PackBits(b)) == b[0] && PackBits(b) / 2 == PackBits(b[1..])
  {
  }

  /** The status that a mask stands for. */
  function Mask(low: bool, unused: bool, interrupt: bool, u4: bool, m: bool, s: bool, t0: bool, t1: bool): Status {
    Status(low, low, low, low, low,
           SystemBits(unused, unused, unused, interrupt, interrupt, interrupt, u4, m, s, t0, t1))
  }

  lemma FourBits(b: seq<bool>)
    requires |b| >= 4
    ensures PackBits(b) == BitOf(b[0]) + 2 * BitOf(b[1]) + 4 * BitOf(b[2]) + 8 * BitOf(b[3]) + 16 * PackBits(b[4..])
  {
    assert b[1..][1..] == b[2..] && b[2..][1..] == b[3..] && b[3..][1..] == b[4..];
    assert PackBits(b[1..]) == BitOf(b[1]) + 2 * PackBits(b[2..]);
    assert PackBits(b[2..]) == BitOf(b[2]) + 2 * PackBits(b[3..]);
    assert PackBits(b[3..]) == BitOf(b[3]) + 2 * PackBits(b[4..]);
  }

  lemma SixteenBits(b: seq<bool>)
    requires |b| == 16
    ensures PackBits(b) ==
      BitOf(b[0]) + 2 * BitOf(b[1]) + 4 * BitOf(b[2]) + 8 * BitOf(b[3])
      + 0x10 * (BitOf(b[4]) + 2 * BitOf(b[5]) + 4 * BitOf(b[6]) + 8 * BitOf(b[7]))
      + 0x100 * (BitOf(b[8]) + 2 * BitOf(b[9]) + 4 * BitOf(b[10]) + 8 * BitOf(b[11]))
      + 0x1000 * (BitOf(b[12]) + 2 * BitOf(b[13]) + 4 * BitOf(b[14]) + 8 * BitOf(b[15]))
  {
    FourBits(b);
    FourBits(b[4..]);
    FourBits(b[8..]);
    FourBits(b[12..]);
    hide PackBits;
    assert b[4..][4..] == b[8..] && b[8..][4..] == b[12..] && b[12..][4..] == [];
    NoBitsPacked();
  }

  lemma NoBitsPacked()
    ensures PackBits([]) == 0
  {
  }

  /** The weights of the bits. */
  lemma MaskWord(low: bool, unused: bool, interrupt: bool, u4: bool, m: bool, s: bool, t0: bool, t1: bool)
    ensures Mask(low, unused, interrupt, u4, m, s, t0, t1).ToWord() ==
      0x1F * BitOf(low) + 0xE0 * BitOf(unused) + 0x700 * BitOf(interrupt) + 0x800 * BitOf(u4) + 0x1000 * BitOf(m)
      + 0x2000 * BitOf(s) + 0x4000 * BitOf(t0) + 0x8000 * BitOf(t1)
  {
    hide PackBits, BitOf, Status.BitNumber, Mask, SystemBits.Clean;
    var mask := Mask(low, unused, interrupt, u4, m, s, t0, t1);
    MaskCodes(low, unused, interrupt, u4, m, s, t0, t1);
    MaskSystem(low, unused, interrupt, u4, m, s, t0, t1);
    SumOfWeights(mask.Bits(), low, unused, interrupt, u4, m, s, t0, t1);
  }

  lemma MaskCodes(low: bool, unused: bool, interrupt: bool, u4: bool, m: bool, s: bool, t0: bool, t1: bool)
    ensures var b := Mask(low, unused, interrupt, u4, m, s, t0, t1).Bits();
      b[0] == b[1] == b[2] == b[3] == b[4] == low && b[5] == b[6] == b[7] == unused
  {
  }

  lemma MaskSystem(low: bool, unused: bool, interrupt: bool, u4: bool, m: bool, s: bool, t0: bool, t1: bool)
    ensures var b := Mask(low, unused, interrupt, u4, m, s, t0, t1).Bits();
      b[8] == b[9] == b[10] == interrupt && b[11] == u4 && b[12] == m && b[13] == s && b[14] == t0 && b[15] == t1
  {
  }

  lemma SumOfWeights(
      b: seq<bool>, low: bool, unused: bool, interrupt: bool, u4: bool, m: bool, s: bool, t0: bool, t1: bool)
    requires |b| == 16 && b[0] == b[1] == b[2] == b[3] == b[4] == low && b[5] == b[6] == b[7] == unused
    requires b[8] == b[9] == b[10] == interrupt && b[11] == u4 && b[12] == m && b[13] == s && b[14] == t0 && b[15] == t1
    ensures PackBits(b) ==
      0x1F * BitOf(low) + 0xE0 * BitOf(unused) + 0x700 * BitOf(interrupt) + 0x800 * BitOf(u4) + 0x1000 * BitOf(m)
      + 0x2000 * BitOf(s) + 0x4000 * BitOf(t0) + 0x8000 * BitOf(t1)
  {
    hide PackBits;
    SixteenBits(b);
  }

  lemma LowSystemBit(op: Logic, a: SystemBits, b: SystemBits, i: int)
    ensures a.Combine(op, b).LowBit(i) == op.Bit(a.LowBit(i), b.LowBit(i))
  {
    hide Logic.Bit;
  }

  lemma HighSystemBit(op: Logic, a: SystemBits, b: SystemBits, i: int)
    ensures a.Combine(op, b).HighBit(i) == op.Bit(a.HighBit(i), b.HighBit(i))
  {
    hide Logic.Bit;
  }

  lemma CodeBit(op: Logic, a: Status, b: Status, i: int)
    ensures a.Combine(op, b).CodeBit(i) == op.Bit(a.CodeBit(i), b.CodeBit(i))
  {
    hide Logic.Bit;
  }

  lemma SystemBit(op: Logic, a: SystemBits, b: SystemBits, i: int)
    ensures a.Combine(op, b).BitNumber(i) == op.Bit(a.BitNumber(i), b.BitNumber(i))
  {
    hide Logic.Bit, SystemBits.Combine, SystemBits.LowBit, SystemBits.HighBit;
    LowSystemBit(op, a, b, i);
    HighSystemBit(op, a, b, i);
  }

  lemma StatusBit(op: Logic, a: Status, b: Status, i: int)
    ensures a.Combine(op, b).BitNumber(i) == op.Bit(a.BitNumber(i), b.BitNumber(i))
  {
    hide Logic.Bit, SystemBits.Combine, SystemBits.BitNumber, Status.CodeBit;
    CodeBit(op, a, b, i);
    SystemBit(op, a.sys, b.sys, i - 5);
  }

  /** A bit operator on status registers is the one on their words. */
  lemma CombinedWords(op: Logic, a: Status, b: Status)
    ensures a.Combine(op, b).ToWord() == Bitwise(op, a.ToWord(), b.ToWord(), 16)
  {
    hide Bitwise, PackBits, Status.BitNumber, Status.Combine, Logic.Bit;
    var c := a.Combine(op, b);
    forall i | 0 <= i < 16
      ensures c.Bits()[i] == op.Bit(a.Bits()[i], b.Bits()[i])
    {
      StatusBit(op, a, b, i);
    }
    PackedBitwise(op, a.Bits(), b.Bits(), c.Bits());
  }

  /** The filter is the mask 0xA71F: what RTE, STOP, MOVE to SR, ORI and EORI let through. */
  lemma FilterIsMask(sr: Status)
    ensures sr.Filtered().ToWord() == Bitwise(AND, sr.ToWord(), 0xA71F, 16)
    ensures sr.Clean() <==> Bitwise(AND, sr.ToWord(), 0xA71F, 16) == sr.ToWord()
  {
    hide Bitwise, PackBits, Status.ToWord, FromWord;
    var mask := Mask(true, false, true, false, false, true, false, true);
    MaskWord(true, false, true, false, false, true, false, true);
    CombinedWords(AND, sr, mask);
    assert sr.Filtered() == sr.Combine(AND, mask);
    WordRoundTrip(sr);
    WordRoundTrip(sr.Filtered());
  }

  /** Entering an exception clears 0x8000 and sets 0x2000. */
  lemma EnteredIsMask(sr: Status)
    ensures sr.Entered().ToWord() == Bitwise(OR, Bitwise(AND, sr.ToWord(), 0x7FFF, 16), 0x2000, 16)
  {
    hide Bitwise, PackBits, Status.ToWord;
    var (clear, raise) := (Mask(true, true, true, true, true, true, true, false),
                           Mask(false, false, false, false, false, true, false, false));
    MaskWord(true, true, true, true, true, true, true, false);
    MaskWord(false, false, false, false, false, true, false, false);
    CombinedWords(AND, sr, clear);
    CombinedWords(OR, sr.Combine(AND, clear), raise);
    assert sr.Entered() == sr.Combine(AND, clear).Combine(OR, raise);
  }

  /** RTR and MOVE to CCR replace the low five bits. */
  lemma CodesAreMask(sr: Status, other: Status)
    ensures sr.WithCodesOf(other).ToWord()
         == Bitwise(OR, Bitwise(AND, sr.ToWord(), 0xFFE0, 16), Bitwise(AND, other.ToWord(), 0x1F, 16), 16)
  {
    hide Bitwise, PackBits, Status.ToWord;
    var (high, low) := (Mask(false, true, true, true, true, true, true, true),
                        Mask(true, false, false, false, false, false, false, false));
    MaskWord(false, true, true, true, true, true, true, true);
    MaskWord(true, false, false, false, false, false, false, false);
    CombinedWords(AND, sr, high);
    CombinedWords(AND, other, low);
    CombinedWords(OR, sr.Combine(AND, high), other.Combine(AND, low));
    assert sr.WithCodesOf(other) == sr.Combine(AND, high).Combine(OR, other.Combine(AND, low));
  }

  /** ANDI, ORI and EORI to the condition codes use the masks 0xFF00 plus the byte, and 0x1F. */
  lemma CodeOperandsAreMasks(operand: Status)
    ensures operand.CodesOnly().ToWord() == Bitwise(AND, operand.ToWord(), 0x1F, 16)
    ensures operand.LowByteOnly().ToWord() == Bitwise(OR, operand.ToWord(), 0xFF00, 16)
  {
    hide Bitwise, PackBits, Status.ToWord;
    var (low, high) := (Mask(true, false, false, false, false, false, false, false),
                        Mask(false, false, true, true, true, true, true, true));
    MaskWord(true, false, false, false, false, false, false, false);
    MaskWord(false, false, true, true, true, true, true, true);
    CombinedWords(AND, operand, low);
    CombinedWords(OR, operand, high);
    assert operand.CodesOnly() == operand.Combine(AND, low);
    assert operand.LowByteOnly() == operand.Combine(OR, high);
  }
}
