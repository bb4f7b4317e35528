/** The machine as a value: registers, status and memory, with the primitive state changes that
    instructions are made of. `Cpus.Cpu` performs the same changes in place. */
module Machines {
  import opened Words
  import opened StatusRegister
  import opened Memories

  type Reg = r: int | 0 <= r < 8
  type Registers = s: seq<u32> | |s| == 8 witness [0, 0, 0, 0, 0, 0, 0, 0]

  const SP: Reg := 7

  const VECTOR_ADDRESS_ERROR := 0x0C
  const VECTOR_ILLEGAL_INSTRUCTION := 0x10
  const VECTOR_DIVIDE_BY_ZERO := 0x14
  const VECTOR_CHK_INSTRUCTION := 0x18
  const VECTOR_TRAPV_INSTRUCTION := 0x1C
  const VECTOR_PRIVILEGE_VIOLATION := 0x20
  const VECTOR_UNIMPLEMENTED_A_LINE := 0x28
  const VECTOR_UNIMPLEMENTED_F_LINE := 0x2C

  // ---- Where an operand lies ----

  datatype LocationKind = NoLocation | DataRegister | AddressRegister | MemoryLocation | Immediate

  datatype Location = Location(l: LocationKind, n: u32, programSpace: bool)

  /** The result of setting up an effective address; `IllegalMode` leaves the machine as it was. */
  datatype Resolved = At(m: Machine, location: Location) | IllegalMode

  /** The result of an operand access: a fault carries the machine after the exception has been taken. */
  datatype Access<T> = Value(v: T) | Fault(m: Machine, vector: int) | OutOfRange

  /** A word access at an odd address reads zero and writes nothing. */
  function WordAt(ram: Ram, address: int): u16 {
    if !Even(address) then 0 else Read16(ram, address)
  }

  function LongAt(ram: Ram, address: int): u32 {
    if !Even(address) then 0 else Read32(ram, address)
  }

  function PutWord(ram: Ram, address: int, value: u16): Ram {
    if !Even(address) then ram else Write16(ram, address, value)
  }

  datatype Machine = Machine(
    pc: u32, d: Registers, a: Registers, ssp: u32, sr: Status, oldPc: u32, opcode: u16, ram: Ram)
  {
    /** A7 is the supervisor stack pointer in supervisor mode and `a[7]` in user mode. */
    function A(reg: Reg): u32 {
      if reg == SP && sr.sys.s then ssp else a[reg]
    }

    function SetA(reg: Reg, v: u32): Machine {
      if reg == SP && sr.sys.s then this.(ssp := v) else this.(a := a[reg := v])
    }

    function SetD(reg: Reg, v: u32): Machine {
      this.(d := d[reg := v])
    }

    /** The stack pointer moves by two even for a byte. */
    static function Stride(reg: Reg, width: int): int {
      if reg == SP && width < 2 then 2 else width
    }

    function IncA(reg: Reg, width: int): Machine {
      SetA(reg, Wrap32(A(reg) + Stride(reg, width)))
    }

    function DecA(reg: Reg, width: int): Machine {
      SetA(reg, Wrap32(A(reg) - Stride(reg, width)))
    }

    function Fetch(): Machine {
      this.(opcode := WordAt(ram, pc), pc := Wrap32(pc + 2))
    }

    // ---- Effective addresses ----

    /** The index register that an extension word selects, whole or sign-extended from its low word. */
    function Index(ext: u16): u32 {
      var reg: Reg := ext / 0x1000 % 8;
      var v := if ext >= 0x8000 then A(reg) else d[reg];
      if ext / 0x800 % 2 == 1 then v else SignExtend(Word, Truncate(Word, v))
    }

    /** The word that has just been fetched, as a displacement. */
    function Displacement(): int {
      Signed(Word, opcode)
    }

    /** The brief extension word that has just been fetched: 8-bit displacement and index. */
    function IndexedFrom(base: int): u32 {
      Wrap32(base + Signed(Byte, opcode % 0x100) + Index(opcode))
    }

    function InMemory(address: u32): Resolved {
      At(this, Location(MemoryLocation, address, false))
    }

    function InProgram(address: u32): Resolved {
      At(this, Location(MemoryLocation, address, true))
    }

    function Resolve(reg: Reg, mode: Reg, width: int): Resolved {
      match mode
      case 0 => At(this, Location(DataRegister, reg, false))
      case 1 => At(this, Location(AddressRegister, reg, false))
      case 2 => InMemory(A(reg))
      case 3 => IncA(reg, width).InMemory(A(reg))
      case 4 => var m := DecA(reg, width); m.InMemory(m.A(reg))
      case 5 => var m := Fetch(); m.InMemory(Wrap32(m.A(reg) + m.Displacement()))
      case 6 => var m := Fetch(); m.InMemory(m.IndexedFrom(m.A(reg)))
      case _ => ResolveExtended(reg, width)
    }

    /** Mode 7: absolute, relative to the extension word, or immediate. */
    function ResolveExtended(reg: Reg, width: int): Resolved {
      match reg
      case 0 => var m := Fetch(); m.InMemory(SignExtend(Word, m.opcode))
      case 1 => var m := Fetch(); var m' := m.Fetch(); m'.InMemory(Join16(m.opcode, m'.opcode))
      case 2 => var m := Fetch(); m.InProgram(Wrap32(Wrap32(m.pc - 2) + m.Displacement()))
      case 3 => var m := Fetch(); m.InProgram(m.IndexedFrom(Wrap32(m.pc - 2)))
      case 4 =>
        var m := Fetch();
        if width != 4 then At(m, Location(Immediate, m.opcode, false))
        else var m' := m.Fetch(); At(m', Location(Immediate, Join16(m.opcode, m'.opcode), false))
      case _ => IllegalMode
    }

    function IllegalAccess<T>(): Access<T> {
      Fault(Exception(VECTOR_ILLEGAL_INSTRUCTION), VECTOR_ILLEGAL_INSTRUCTION)
    }

    /** Only a source may be an immediate word or long; an address register has no byte form. */
    function Load(at: Location, sz: Size, source: bool): (r: Access<u32>)
      ensures r.Value? ==> r.v < sz.Modulus()
    {
      match at.l
      case DataRegister => if at.n < 8 then Value(Truncate(sz, d[at.n])) else OutOfRange
      case AddressRegister =>
        if sz == Byte then IllegalAccess() else if at.n < 8 then Value(Truncate(sz, A(at.n))) else OutOfRange
      case MemoryLocation =>
        if sz != Byte && !Even(at.n) then Fault(AddressError(at.n, true, at.programSpace), VECTOR_ADDRESS_ERROR)
        else Value(ReadSized(ram, sz, at.n))
      case Immediate => if sz == Byte || source then Value(Truncate(sz, at.n)) else IllegalAccess()
      case NoLocation => IllegalAccess()
    }

    function Store(at: Location, sz: Size, v: u32): Access<Machine>
      requires v < sz.Modulus()
    {
      match at.l
      case DataRegister => if at.n < 8 then Value(SetD(at.n, Merge(sz, d[at.n], v))) else OutOfRange
      case AddressRegister =>
        if sz == Byte then IllegalAccess()
        else if at.n < 8 then Value(SetA(at.n, Merge(sz, A(at.n), v))) else OutOfRange
      case MemoryLocation =>
        if sz != Byte && !Even(at.n) then Fault(AddressError(at.n, false, at.programSpace), VECTOR_ADDRESS_ERROR)
        else Value(this.(ram := WriteSized(ram, sz, at.n, v)))
      case _ => IllegalAccess()
    }

    // ---- Stack ----

    function PushSsp(value: u16): Machine {
      var sp := Wrap32(ssp - 2);
      this.(ssp := sp, ram := PutWord(ram, sp, value))
    }

    function PushUsp(value: u16): Machine {
      var usp: int := a[SP];
      var sp := Wrap32(usp - 2);
      this.(a := a[SP := sp], ram := PutWord(ram, sp, value))
    }

    /** On the stack of the current mode. */
    function Push(value: u16): Machine {
      var m := SetA(SP, Wrap32(A(SP) - 2));
      m.(ram := PutWord(ram, m.A(SP), value))
    }

    /** Low word first, so that the long lies big-endian on the stack. */
    function PushLong(value: u32): Machine {
      Push(value % 0x1_0000).Push(value / 0x1_0000)
    }

    function PushLongSsp(value: u32): Machine {
      PushSsp(value % 0x1_0000).PushSsp(value / 0x1_0000)
    }

    function Top(): u16 {
      WordAt(ram, A(SP))
    }

    function Dropped(): Machine {
      SetA(SP, Wrap32(A(SP) + 2))
    }

    function TopLong(): u32 {
      Join16(Top(), Dropped().Top())
    }

    function DroppedLong(): Machine {
      Dropped().Dropped()
    }

    // ---- Exceptions ----

    /** The last actions of every exception: jump through the vector, trace off, supervisor on. */
    function Vectored(vector: int): Machine {
      this.(pc := LongAt(ram, vector), sr := sr.Entered())
    }

    /** The six-byte frame: pc and status register, on the supervisor stack. */
    function Framed(vector: int): Machine {
      PushLongSsp(pc).PushSsp(sr.ToWord()).Vectored(vector)
    }

    /** An exception reported at the instruction itself. */
    function Exception(vector: int): Machine {
      this.(pc := oldPc).Framed(vector)
    }

    function AccessWord(read: bool, program: bool): u16 {
      opcode - opcode % 0x20 + 0x10 * BitOf(read)
      + (if sr.sys.s then if program then 6 else 5 else if program then 2 else 1)
    }

    /** The fourteen-byte frame of an address error. */
    function AddressError(address: u32, read: bool, program: bool): Machine {
      PushLongSsp(pc).PushSsp(sr.ToWord()).PushSsp(opcode).PushLongSsp(address)
        .PushSsp(AccessWord(read, program)).Vectored(VECTOR_ADDRESS_ERROR)
    }
  }

  /** The machine after initialisation. */
  function Initial(ram: Ram): Machine {
    var zeros: Registers := [0, 0, 0, 0, 0, 0, 0, 0];
    Machine(0, zeros, zeros, 0, SupervisorStatus(), 0, 0, ram)
  }

  /** Only the last value given to each of two registers stays; memory and condition codes do not matter. */
  lemma SetTwice(m: Machine, y: Reg, x: Reg, y1: u32, x1: u32, y2: u32, x2: u32, ram: Ram, sr: Status)
    requires y != x && sr.sys.s == m.sr.sys.s
    ensures var m1 := m.SetA(y, y1).SetA(x, x1).(ram := ram, sr := sr);
      && m1.A(y) == y1 && m1.A(x) == x1
      && m1.SetA(y, y2).A(y) == y2 && m1.SetA(y, y2).A(x) == x1
      && m1.SetA(y, y2).SetA(x, x2).A(x) == x2
      && m1.SetA(y, y2).SetA(x, x2) == m.SetA(y, y2).SetA(x, x2).(ram := ram, sr := sr)
  {
    assert m.a[y := y1][x := x1][y := y2][x := x2] == m.a[y := y2][x := x2];
    assert m.a[x := x1][x := x2] == m.a[x := x2];
    assert m.a[y := y1][y := y2] == m.a[y := y2];
  }
}
