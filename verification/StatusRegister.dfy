/** The status register, which the program overlays as sixteen one-bit fields and one word. */
module StatusRegister {
  import opened Words

  /** Everything above the condition codes. Bits 5 to 7, 11, 12 and 14 are not implemented. */
  datatype SystemBits = SystemBits(
    u1: bool, u2: bool, u3: bool, i0: bool, i1: bool, i2: bool, u4: bool, m: bool, s: bool, t0: bool, t1: bool)
  {
    predicate Clean() {
      !u1 && !u2 && !u3 && !u4 && !m && !t0
    }

    /** Bit number `i + 5` of the word. */
    predicate BitNumber(i: int) {
      if i < 6 then LowBit(i) else HighBit(i)
    }

    predicate LowBit(i: int) {
      match i
      case 0 => u1
      case 1 => u2
      case 2 => u3
      case 3 => i0
      case 4 => i1
      case _ => i2
    }

    predicate HighBit(i: int) {
      match i
      case 6 => u4
      case 7 => m
      case 8 => s
      case 9 => t0
      case _ => t1
    }

    function Filtered(): (r: SystemBits)
      ensures r.Clean()
      ensures Clean() ==> r == this
    {
      SystemBits(false, false, false, i0, i1, i2, false, false, s, false, t1)
    }

    /** A bit operator on all bits. */
    function Combine(op: Logic, o: SystemBits): SystemBits {
      SystemBits(op.Bit(u1, o.u1), op.Bit(u2, o.u2), op.Bit(u3, o.u3), op.Bit(i0, o.i0), op.Bit(i1, o.i1),
                 op.Bit(i2, o.i2), op.Bit(u4, o.u4), op.Bit(m, o.m), op.Bit(s, o.s), op.Bit(t0, o.t0), op.Bit(t1, o.t1))
    }
  }

  function NoBits(): SystemBits {
    SystemBits(false, false, false, false, false, false, false, false, false, false, false)
  }

  /** The upper byte of ones above three given bits. */
  function UpperOnes(b: SystemBits): SystemBits {
    SystemBits(b.u1, b.u2, b.u3, true, true, true, true, true, true, true, true)
  }

  // What the masks do to the system bits.

  lemma CombineNone(op: Logic, b: SystemBits)
    requires op == OR || op == EOR
    ensures b.Combine(op, NoBits()) == b
  {
  }

  lemma AndUpperOnes(b: SystemBits, o: SystemBits)
    ensures b.Combine(AND, UpperOnes(o)) == b.(u1 := b.u1 && o.u1, u2 := b.u2 && o.u2, u3 := b.u3 && o.u3)
  {
  }

  lemma CleanKept(op: Logic, b: SystemBits, o: SystemBits)
    requires b.Clean() && (op == AND || op == ANDNOT || o.Clean())
    ensures b.Combine(op, o).Clean()
  {
  }

  /** The condition codes and the system bits; `sys.s` is the supervisor bit. */
  datatype Status = Status(c: bool, v: bool, z: bool, n: bool, x: bool, sys: SystemBits) {

    /** No bit outside 0xA71F, the mask of the implemented bits. */
    predicate Clean() {
      sys.Clean()
    }

    /** The value masked with 0xA71F. */
    function Filtered(): (r: Status)
      ensures r.Clean()
      ensures Clean() ==> r == this
    {
      this.(sys := sys.Filtered())
    }

    /** Trace off, supervisor on: what every exception does to the register. */
    function Entered(): Status {
      this.(sys := sys.(t1 := false, s := true))
    }

    /** The value masked with 0x1F. */
    function CodesOnly(): Status {
      this.(sys := NoBits())
    }

    /** The low byte below an upper byte of ones: 0xFF00 plus the byte. */
    function LowByteOnly(): Status {
      this.(sys := UpperOnes(sys))
    }

    /** The low five bits of another register. */
    function WithCodesOf(other: Status): Status {
      other.(sys := sys)
    }

    /** A bit operator on all bits. */
    function Combine(op: Logic, o: Status): Status {
      Status(op.Bit(c, o.c), op.Bit(v, o.v), op.Bit(z, o.z), op.Bit(n, o.n), op.Bit(x, o.x), sys.Combine(op, o.sys))
    }

    /** Bit number `i` of the word. */
    predicate BitNumber(i: int) {
      if i < 5 then CodeBit(i) else sys.BitNumber(i - 5)
    }

    predicate CodeBit(i: int) {
      match i
      case 0 => c
      case 1 => v
      case 2 => z
      case 3 => n
      case _ => x
    }

    /** The bits from the least significant one up. */
    function Bits(): (b: seq<bool>)
      ensures |b| == 16
    {
      seq(16, i => BitNumber(i))
    }

    /** The register as the word that exceptions push. */
    function ToWord(): u16 {
      PackBound(Bits());
      assert Pow(2, 16) == 0x1_0000 by { PowerOfTwo16(); }
      PackBits(Bits())
    }
  }

  function FromWord(value: u16): Status {
    FromBits(UnpackBits(value, 16))
  }

  function FromBits(b: seq<bool>): Status
    requires |b| == 16
  {
    Status(b[0], b[1], b[2], b[3], b[4],
           SystemBits(b[5], b[6], b[7], b[8], b[9], b[10], b[11], b[12], b[13], b[14], b[15]))
  }

  /** The register after initialisation: only the supervisor bit is set. */
  function SupervisorStatus(): Status {
    Status(false, false, false, false, false,
           SystemBits(false, false, false, false, false, false, false, false, true, false, false))
  }

  function PackBits(b: seq<bool>): nat {
    if b == [] then 0 else BitOf(b[0]) + 2 * PackBits(b[1..])
  }

  function UnpackBits(v: nat, n: nat): (b: seq<bool>)
    ensures |b| == n
  {
    if n == 0 then [] else [v % 2 == 1] + UnpackBits(v / 2, n - 1)
  }

  lemma PowerOfTwo16()
    ensures Pow(2, 16) == 0x1_0000
  {
    assert Pow(2, 4) == 16;
    PowAdd(2, 4, 4);
    PowAdd(2, 8, 8);
  }

  lemma {:induction false} PackBound(b: seq<bool>)
    ensures PackBits(b) < Pow(2, |b|)
  {
    if b != [] {
      PackBound(b[1..]);
    }
  }

  lemma {:induction false} UnpackPack(b: seq<bool>)
    ensures UnpackBits(PackBits(b), |b|) == b
  {
    if b != [] {
      var rest := PackBits(b[1..]);
      assert PackBits(b) % 2 == BitOf(b[0]) && PackBits(b) / 2 == rest;
      UnpackPack(b[1..]);
    }
  }

  /** What an exception pushes decodes to the register it came from. */
  lemma WordRoundTrip(sr: Status)
    ensures FromWord(sr.ToWord()) == sr
  {
    UnpackPack(sr.Bits());
  }
}
