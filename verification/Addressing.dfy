/** The addressing modes as a programmer reads them: the address, the operand and the registers after it, as formulas
    over registers and memory words. Operand set-up and access are proved to follow these formulas. */
module Addressing {
  import opened Words
  import opened Memories
  import opened Machines
  import opened Opcodes
  import opened Decoding

  datatype Mode =
    | DataDirect(reg: Reg)
    | AddressDirect(reg: Reg)
    | Indirect(reg: Reg)
    | Postincrement(reg: Reg)
    | Predecrement(reg: Reg)
    | Displaced(reg: Reg)
    | Indexed(reg: Reg)
    | AbsoluteShort
    | AbsoluteLong
    | PcDisplaced
    | PcIndexed
    | ImmediateData
  {
    /** The two fields of three bits that name the mode. */
    function Field(): Reg {
      match this
      case DataDirect(_) => 0
      case AddressDirect(_) => 1
      case Indirect(_) => 2
      case Postincrement(_) => 3
      case Predecrement(_) => 4
      case Displaced(_) => 5
      case Indexed(_) => 6
      case _ => 7
    }

    function Register(): Reg {
      match this
      case AbsoluteShort => 0
      case AbsoluteLong => 1
      case PcDisplaced => 2
      case PcIndexed => 3
      case ImmediateData => 4
      case _ => reg
    }

    predicate Direct() {
      DataDirect? || AddressDirect?
    }

    predicate InMemory() {
      !Direct() && !ImmediateData?
    }

    predicate FromPc() {
      PcDisplaced? || PcIndexed?
    }

    /** A data register, or memory that is not relative to the program counter. */
    predicate Alterable() {
      DataDirect? || (InMemory() && !FromPc())
    }

    /** The extension words that follow. */
    function Extensions(sz: Size): nat {
      match this
      case Displaced(_) => 1
      case Indexed(_) => 1
      case AbsoluteShort => 1
      case AbsoluteLong => 2
      case PcDisplaced => 1
      case PcIndexed => 1
      case ImmediateData => if sz == Long then 2 else 1
      case _ => 0
    }
  }

  // ---- What a mode names; the program counter is at the first extension word ----

  /** Extension word number `i`, from zero. */
  function Extension(m: Machine, i: nat): u16 {
    WordAt(m.ram, Wrap32(m.pc + 2 * i))
  }

  /** The index register of an extension word: bit 15 selects an address register, bit 11 the whole register. */
  function IndexValue(m: Machine, ext: u16): int {
    var reg: Reg := ext / 0x1000 % 8;
    var v: int := if ext >= 0x8000 then m.A(reg) else m.d[reg];
    if ext / 0x800 % 2 == 1 then v else Signed(Word, v % 0x1_0000)
  }

  /** The stack pointer moves by two even for a byte. */
  function StepOf(reg: Reg, sz: Size): int {
    if reg == 7 && sz == Byte then 2 else sz.Bytes()
  }

  /** The address that a memory mode names, before it is taken modulo 2^32. */
  function AddressOf(m: Machine, mode: Mode, sz: Size): int {
    match mode
    case Indirect(r) => m.A(r)
    case Postincrement(r) => m.A(r)
    case Predecrement(r) => m.A(r) - StepOf(r, sz)
    case Displaced(r) => m.A(r) + Signed(Word, Extension(m, 0))
    case Indexed(r) => m.A(r) + Signed(Byte, Extension(m, 0) % 0x100) + IndexValue(m, Extension(m, 0))
    case AbsoluteShort => Signed(Word, Extension(m, 0))
    case AbsoluteLong => Extension(m, 0) * 0x1_0000 + Extension(m, 1)
    case PcDisplaced => m.pc + Signed(Word, Extension(m, 0))
    case PcIndexed => m.pc + Signed(Byte, Extension(m, 0) % 0x100) + IndexValue(m, Extension(m, 0))
    case _ => 0
  }

  function Address(m: Machine, mode: Mode, sz: Size): u32 {
    Wrap32(AddressOf(m, mode, sz))
  }

  /** The machine behind the extension words: the program counter and the last word fetched, and the address register
      that the mode moves. */
  function Behind(m: Machine, mode: Mode, sz: Size): Machine {
    var n := mode.Extensions(sz);
    var m1 := if n == 0 then m else m.(pc := Wrap32(m.pc + 2 * n), opcode := Extension(m, n - 1));
    match mode
    case Postincrement(r) => m1.SetA(r, Wrap32(m.A(r) + StepOf(r, sz)))
    case Predecrement(r) => m1.SetA(r, Wrap32(m.A(r) - StepOf(r, sz)))
    case _ => m1
  }

  /** The operand as a source. */
  function ValueOf(m: Machine, mode: Mode, sz: Size): (v: u32)
    ensures v < sz.Modulus()
  {
    match mode
    case DataDirect(r) => Low(sz, m.d[r])
    case AddressDirect(r) => Low(sz, m.A(r))
    case ImmediateData =>
      if sz == Byte then Extension(m, 0) % 0x100
      else if sz == Word then Extension(m, 0)
      else Extension(m, 0) * 0x1_0000 + Extension(m, 1)
    case _ => ReadSized(m.ram, sz, Address(m, mode, sz))
  }

  /** Memory is accessed in words and longs at even addresses only. */
  predicate Accessible(m: Machine, mode: Mode, sz: Size) {
    mode.InMemory() && sz != Byte ==> Even(Address(m, mode, sz))
  }

  /** There is no byte form of an address register. */
  predicate Readable(m: Machine, mode: Mode, sz: Size) {
    Accessible(m, mode, sz) && !(mode.AddressDirect? && sz == Byte)
  }

  /** A register with another low part. */
  function WithLow(sz: Size, reg: u32, v: u32): (r: u32)
    requires v < sz.Modulus()
    ensures Rem(r, sz.Modulus()) == v && Quot(r, sz.Modulus()) == Quot(reg, sz.Modulus())
  {
    MergeParts(sz, reg, v);
    Merge(sz, reg, v)
  }

  function Low(sz: Size, reg: u32): (v: u32)
    ensures v < sz.Modulus()
  {
    reg % sz.Modulus()
  }

  /** A value written to a register or to an address: registers keep their upper part. */
  function Written(m: Machine, mode: Mode, address: u32, sz: Size, v: u32): Machine
    requires v < sz.Modulus()
  {
    match mode
    case DataDirect(r) => m.SetD(r, WithLow(sz, m.d[r], v))
    case _ => m.(ram := WriteSized(m.ram, sz, address, v))
  }

  // ---- Set-up and access follow them ----

  /** Where a mode that has been set up lies. */
  function Place(m: Machine, mode: Mode, sz: Size): Location {
    match mode
    case DataDirect(r) => Location(DataRegister, r, false)
    case AddressDirect(r) => Location(AddressRegister, r, false)
    case ImmediateData =>
      Location(Immediate, if sz == Long then Extension(m, 0) * 0x1_0000 + Extension(m, 1) else Extension(m, 0), false)
    case _ => Location(MemoryLocation, Address(m, mode, sz), mode.FromPc())
  }

  lemma FetchIs(m: Machine)
    ensures m.Fetch() == m.(opcode := Extension(m, 0), pc := Wrap32(m.pc + 2))
  {
    hide WordAt;
  }

  lemma FetchTwice(m: Machine)
    ensures m.Fetch().opcode == Extension(m, 0)
    ensures m.Fetch().Fetch() == m.(opcode := Extension(m, 1), pc := Wrap32(m.pc + 4))
  {
    hide WordAt, Wrap32;
    FetchIs(m);
    WrapStep(m.pc + 2, 2);
  }

  /** The brief extension word: base, signed byte and index. */
  lemma IndexedIs(m: Machine, m': Machine, base: int)
    requires m' == m.(pc := m'.pc, opcode := Extension(m, 0))
    ensures m'.IndexedFrom(base)
         == Wrap32(base + Signed(Byte, Extension(m, 0) % 0x100) + IndexValue(m, Extension(m, 0)))
  {
    hide WordAt, Extension, Wrap32;
    IndexIs(m, m', Extension(m, 0));
    var k := if m'.Index(Extension(m, 0)) == IndexValue(m, Extension(m, 0)) then 0 else 1;
    WrapTurns(base + Signed(Byte, Extension(m, 0) % 0x100) + IndexValue(m, Extension(m, 0)), k);
  }

  lemma IndexIs(m: Machine, m': Machine, ext: u16)
    requires m'.a == m.a && m'.d == m.d && m'.ssp == m.ssp && m'.sr == m.sr
    ensures m'.Index(ext) == IndexValue(m, ext) || m'.Index(ext) == IndexValue(m, ext) + 0x1_0000_0000
  {
  }

  lemma WrapTurns(a: int, k: int)
    ensures Wrap32(a + k * 0x1_0000_0000) == Wrap32(a)
  {
    Wrap32Is(a + k * 0x1_0000_0000, a / 0x1_0000_0000 + k, Wrap32(a));
  }

  lemma ShortIs(v: u16)
    ensures SignExtend(Word, v) == Wrap32(Signed(Word, v))
  {
  }

  /** Every mode is set up at the place the formulas name, and the machine is behind it. */
  lemma SetUp(m: Machine, mode: Mode, sz: Size)
    ensures m.Resolve(mode.Register(), mode.Field(), sz.Bytes()) == At(Behind(m, mode, sz), Place(m, mode, sz))
  {
    if mode.Field() == 7 {
      SetUpExtended(m, mode, sz);
    } else if mode.Postincrement? || mode.Predecrement? {
      SetUpMoving(m, mode, sz);
    } else {
      SetUpRegister(m, mode, sz);
    }
  }

  lemma SetUpRegister(m: Machine, mode: Mode, sz: Size)
    requires mode.Field() != 7 && !mode.Postincrement? && !mode.Predecrement?
    ensures m.Resolve(mode.Register(), mode.Field(), sz.Bytes()) == At(Behind(m, mode, sz), Place(m, mode, sz))
  {
    hide Wrap32, WordAt, Extension, Signed, IndexValue;
    hide Machine.Fetch, Machine.Index, Machine.IndexedFrom, Machine.A, Machine.SetA, Machine.ResolveExtended;
    FetchIs(m);
    if mode.Indexed? {
      IndexedIs(m, m.Fetch(), m.A(mode.reg));
      FetchedA(m, mode.reg);
    } else if mode.Displaced? {
      FetchedA(m, mode.reg);
    }
  }

  lemma SetUpMoving(m: Machine, mode: Mode, sz: Size)
    requires mode.Postincrement? || mode.Predecrement?
    ensures m.Resolve(mode.Register(), mode.Field(), sz.Bytes()) == At(Behind(m, mode, sz), Place(m, mode, sz))
  {
    hide Wrap32, WordAt, Machine.A, Machine.SetA, Machine.ResolveExtended;
    StepsAgree(m, mode.reg, sz);
  }

  lemma SetUpExtended(m: Machine, mode: Mode, sz: Size)
    requires mode.Field() == 7
    ensures m.Resolve(mode.Register(), 7, sz.Bytes()) == At(Behind(m, mode, sz), Place(m, mode, sz))
  {
    hide Wrap32, WordAt, Extension, Signed, SignExtend, IndexValue;
    hide Machine.Fetch, Machine.Index, Machine.IndexedFrom, Machine.A, Machine.SetA;
    FetchIs(m);
    FetchTwice(m);
    WrapStep(m.pc + 2, -2);
    if mode.PcIndexed? {
      IndexedIs(m, m.Fetch(), m.pc);
    } else if mode.AbsoluteShort? {
      ShortIs(Extension(m, 0));
    }
  }

  /** A register is where it is. */
  lemma DirectSetUp(m: Machine, mode: Mode, width: int)
    requires mode.Direct()
    ensures m.Resolve(mode.Register(), mode.Field(), width)
         == At(m, Location(if mode.DataDirect? then DataRegister else AddressRegister, mode.reg, false))
  {
  }

  /** Setting up an operand leaves data registers, codes and memory alone. */
  lemma BehindKeeps(m: Machine, mode: Mode, sz: Size)
    ensures Behind(m, mode, sz).d == m.d && Behind(m, mode, sz).sr == m.sr && Behind(m, mode, sz).ram == m.ram
  {
    hide Wrap32, WordAt;
  }

  lemma FetchedA(m: Machine, reg: Reg)
    ensures m.Fetch().A(reg) == m.A(reg)
  {
    hide WordAt, Wrap32;
  }

  lemma StepsAgree(m: Machine, reg: Reg, sz: Size)
    ensures Machine.Stride(reg, sz.Bytes()) == StepOf(reg, sz)
    ensures m.DecA(reg, sz.Bytes()).A(reg) == Wrap32(m.A(reg) - StepOf(reg, sz))
  {
    hide Wrap32;
  }

  /** An accessible operand is what the formulas say; as a destination it is no immediate, except a byte. */
  lemma Loads(m: Machine, mode: Mode, sz: Size, source: bool)
    requires Readable(m, mode, sz) && (source || !mode.ImmediateData?)
    ensures Behind(m, mode, sz).Load(Place(m, mode, sz), sz, source) == Value(ValueOf(m, mode, sz))
  {
    hide Readable, Accessible, Behind, Place, ValueOf, Machine.Load;
    if mode.Direct() {
      LoadsDirect(m, mode, sz, source);
    } else if mode.ImmediateData? {
      LoadsImmediate(m, mode, sz);
    } else {
      LoadsMemory(m, mode, sz, source);
    }
  }

  lemma LoadsDirect(m: Machine, mode: Mode, sz: Size, source: bool)
    requires mode.Direct() && Readable(m, mode, sz)
    ensures Behind(m, mode, sz).Load(Place(m, mode, sz), sz, source) == Value(ValueOf(m, mode, sz))
  {
    hide Wrap32, WordAt, Extension, Address, AddressOf, ReadSized, Machine.A, Low, Truncate;
    LowIs(sz, m.d[mode.reg]);
    LowIs(sz, m.A(mode.reg));
  }

  lemma LoadsImmediate(m: Machine, mode: Mode, sz: Size)
    requires mode.ImmediateData?
    ensures Behind(m, mode, sz).Load(Place(m, mode, sz), sz, true) == Value(ValueOf(m, mode, sz))
  {
    hide Wrap32, WordAt, Extension, Address, AddressOf, ReadSized;
  }

  lemma LoadsMemory(m: Machine, mode: Mode, sz: Size, source: bool)
    requires mode.InMemory() && Readable(m, mode, sz)
    ensures Behind(m, mode, sz).Load(Place(m, mode, sz), sz, source) == Value(ValueOf(m, mode, sz))
  {
    hide Wrap32, WordAt, Extension, Address, AddressOf, ReadSized, Even, Behind;
    hide Machine.AddressError;
    BehindKeeps(m, mode, sz);
  }

  /** An inaccessible one is an address error at that address. */
  lemma Faults(m: Machine, mode: Mode, sz: Size, source: bool)
    requires !Accessible(m, mode, sz)
    ensures Behind(m, mode, sz).Load(Place(m, mode, sz), sz, source)
         == Fault(Behind(m, mode, sz).AddressError(Address(m, mode, sz), true, mode.FromPc()), VECTOR_ADDRESS_ERROR)
  {
    hide Wrap32, WordAt, Extension, IndexValue, AddressOf;
    hide Machine.AddressError;
  }

  lemma Stores(m: Machine, g: Machine, mode: Mode, sz: Size, v: u32)
    requires v < sz.Modulus() && mode.Alterable() && Accessible(m, mode, sz)
    ensures g.Store(Place(m, mode, sz), sz, v) == Value(Written(g, mode, Address(m, mode, sz), sz, v))
  {
    hide Wrap32, WordAt, Extension, IndexValue, AddressOf, WriteSized;
  }

  lemma StoreFaults(m: Machine, g: Machine, mode: Mode, sz: Size, v: u32)
    requires v < sz.Modulus() && !Accessible(m, mode, sz)
    ensures g.Store(Place(m, mode, sz), sz, v)
         == Fault(g.AddressError(Address(m, mode, sz), false, mode.FromPc()), VECTOR_ADDRESS_ERROR)
  {
    hide Wrap32, WordAt, Extension, IndexValue, AddressOf;
    hide Machine.AddressError;
  }

  lemma LowIs(sz: Size, v: u32)
    ensures Truncate(sz, v) == Low(sz, v)
  {
  }

  // ---- Fetching an instruction ----

  /** The opcode has been fetched: the program counter is at the first extension word. */
  function Fetched(m: Machine): Machine {
    m.(oldPc := m.pc, opcode := WordAt(m.ram, m.pc), pc := Wrap32(m.pc + 2))
  }

  lemma Begins(m: Machine, hooked: bool)
    ensures Executed(m, hooked) == Performed(Fetched(m), WordAt(m.ram, m.pc), hooked)
  {
    hide WordAt, Wrap32, Performed;
  }

  /** An instruction word with these fields lies at the program counter. */
  predicate Coded(m: Machine, line: Nibble, upper: Reg, middle: Reg, ea: Mode) {
    WordAt(m.ram, m.pc) == Encode(line, upper, middle, ea.Field(), ea.Register())
  }

  /** N and Z of a value; V and C are clear and X is kept. */
  function Tested(m: Machine, sz: Size, v: u32): Machine {
    m.(sr := m.sr.(n := Signed(sz, v) < 0, z := v == 0, v := false, c := false))
  }
}
