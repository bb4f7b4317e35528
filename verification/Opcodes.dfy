/** The fields of an opcode word. */
module Opcodes {
  import opened Words
  import opened Machines

  /** Bits 0 to 2 and 3 to 5: register and mode of the effective address. */
  function EaReg(opcode: u16): Reg {
    opcode % 8
  }

  function EaMode(opcode: u16): Reg {
    opcode / 8 % 8
  }

  /** Bits 6 to 8. */
  function OpMode(opcode: u16): Reg {
    opcode / 0x40 % 8
  }

  /** Bits 9 to 11. */
  function OpReg(opcode: u16): Reg {
    opcode / 0x200 % 8
  }

  /** Bits 6 and 7, which most instructions take as a size; 3 is no size. */
  function SizeField(opcode: u16): (f: int)
    ensures 0 <= f < 4
  {
    opcode / 0x40 % 4
  }

  function SizeOf(field: int): Size {
    if field == 0 then Byte else if field == 1 then Word else Long
  }

  /** Bits 8 to 11. */
  function CondField(opcode: u16): (f: int)
    ensures 0 <= f < 16
  {
    opcode / 0x100 % 0x10
  }

  // ---- Opcode words from their fields ----

  type Nibble = n: int | 0 <= n < 16

  /** Four bits of line, two fields of three bits in the middle, and six bits of effective address. */
  function Encode(line: Nibble, upper: Reg, middle: Reg, mode: Reg, reg: Reg): u16 {
    line * 0x1000 + upper * 0x200 + middle * 0x40 + mode * 8 + reg
  }

  lemma EncodedFields(line: Nibble, upper: Reg, middle: Reg, mode: Reg, reg: Reg)
    ensures var w := Encode(line, upper, middle, mode, reg);
      && w / 0x1000 == line && OpReg(w) == upper && OpMode(w) == middle && EaMode(w) == mode && EaReg(w) == reg
      && w / 0x40 % 0x40 == upper * 8 + middle && w / 8 % 0x20 == middle % 4 * 8 + mode
      && SizeField(w) == middle % 4 && CondField(w) == upper * 2 + middle / 4
      && w / 0x200 % 4 == upper % 4 && w / 8 % 4 == mode % 4 && w / 0x20 % 2 == mode / 4 && w / 8 % 2 == mode % 2
      && w % 0x100 == middle % 4 * 0x40 + mode * 8 + reg && w % 0x10 == mode % 2 * 8 + reg
  {
    var w := Encode(line, upper, middle, mode, reg);
    var (eight, forty, two) := (line * 0x200 + upper * 0x40 + middle * 8 + mode, line * 0x40 + upper * 8 + middle,
                                line * 8 + upper);
    var (mid4, mid1, half) := (middle / 4, middle % 4, mode / 4);
    Splits(w, eight, reg, 8);
    Splits(w, forty, mode * 8 + reg, 0x40);
    Splits(w, two, middle * 0x40 + mode * 8 + reg, 0x200);
    Splits(w, line, upper * 0x200 + middle * 0x40 + mode * 8 + reg, 0x1000);
    Splits(w, line * 0x10 + upper * 2 + mid4, mid1 * 0x40 + mode * 8 + reg, 0x100);
    Splits(w, line * 0x80 + upper * 0x10 + middle * 2 + half, mode % 4 * 8 + reg, 0x20);
    Splits(w, line * 0x100 + upper * 0x20 + middle * 4 + mode / 2, mode % 2 * 8 + reg, 0x10);
    Splits(eight, forty, mode, 8);
    Splits(eight, line * 0x10 + upper * 2 + mid4, mid1 * 8 + mode, 0x20);
    Splits(eight, line * 0x80 + upper * 0x10 + middle * 2 + half, mode % 4, 4);
    Splits(eight, line * 0x100 + upper * 0x20 + middle * 4 + mode / 2, mode % 2, 2);
    Splits(forty, two, middle, 8);
    Splits(forty, line, upper * 8 + middle, 0x40);
    Splits(forty, line * 0x10 + upper * 2 + mid4, mid1, 4);
    Splits(two, line, upper, 8);
    Splits(two, line * 2 + upper / 4, upper % 4, 4);
    Splits(line * 0x10 + upper * 2 + mid4, line, upper * 2 + mid4, 0x10);
    Splits(line * 0x80 + upper * 0x10 + middle * 2 + half, line * 0x40 + upper * 8 + middle, half, 2);
  }

  lemma Splits(w: int, q: int, r: int, p: int)
    requires p > 0 && w == q * p + r && 0 <= r < p
    ensures w / p == q && w % p == r
  {
    hide Times;
    assert w == Times(q, p) + r by { TimesIs(q, p); }
    DivModUnique(w, q, r, p);
  }
}
