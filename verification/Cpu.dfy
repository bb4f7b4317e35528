/** The processor in place: registers, status and memory that the instructions update. */
module Cpus {
  import opened Words
  import opened StatusRegister
  import opened Memories
  import opened Machines
  import opened Safety
  import Alu
  import Shifts

  class Cpu {
    var pc: u32
    const d: array<u32>
    const a: array<u32>
    var ssp: u32
    // Condition codes and the rest of the status register, which share one word.
    var c: bool
    var v: bool
    var z: bool
    var n: bool
    var x: bool
    var sys: SystemBits
    var oldPc: u32
    var opcode: u16
    var src: Location
    var dst: Location
    const hooked: bool
    const mem: Memory

    ghost predicate Valid() {
      && d.Length == 8 && a.Length == 8 && d != a
      && mem.Valid() && mem.ram as object != d as object && mem.ram as object != a as object
    }

    /** The status register as one value. */
    function Sr(): Status
      reads this
    {
      Status(c, v, z, n, x, sys)
    }

    /** The machine this processor and its memory represent. */
    ghost function S(): Machine
      requires Valid()
      reads this, d, a, mem.ram
    {
      Machine(pc, d[..], a[..], ssp, Sr(), oldPc, opcode, mem.Bytes())
    }

    /** Everything is zero, in supervisor mode. */
    constructor (mem: Memory, hooked: bool)
      requires mem.Valid()
      ensures Valid() && fresh(d) && fresh(a)
      ensures this.mem == mem && this.hooked == hooked
      ensures S() == Initial(mem.Bytes())
      ensures pc == ssp == 0 && (forall r: Reg :: d[r] == a[r] == 0)
      ensures !c && !v && !z && !n && !x && sys == NoBits().(s := true)
    {
      pc, ssp, oldPc, opcode := 0, 0, 0, 0;
      d := new u32[8](_ => 0);
      a := new u32[8](_ => 0);
      c, v, z, n, x := false, false, false, false, false;
      sys := SupervisorStatus().sys;
      src, dst := Location(NoLocation, 0, false), Location(NoLocation, 0, false);
      this.mem, this.hooked := mem, hooked;
      new;
      assert d[..] == [0, 0, 0, 0, 0, 0, 0, 0] && a[..] == [0, 0, 0, 0, 0, 0, 0, 0];
    }

    // ---- Registers ----

    function AddressRegValue(reg: Reg): (v: u32)
      requires Valid()
      reads this, d, a, mem.ram
      ensures v == S().A(reg)
    {
      if reg == SP && sys.s then ssp else a[reg]
    }

    method SetDataReg(reg: Reg, value: u32)
      requires Valid()
      modifies d
      ensures S() == old(S()).SetD(reg, value)
    {
      d[reg] := value;
      assert d[..] == old(d[..])[reg := value];
    }

    method AddressRegSetLong(reg: Reg, value: u32)
      requires Valid()
      modifies this`ssp, a
      ensures S() == old(S()).SetA(reg, value)
      ensures Within(old(S()), S())
    {
      SetAWithin(S(), reg, value);
      if reg == SP && sys.s {
        ssp := value;
      } else {
        a[reg] := value;
        assert a[..] == old(a[..])[reg := value];
      }
    }

    method AddressRegSetWord(reg: Reg, value: u16)
      requires Valid()
      modifies this`ssp, a
      ensures S() == old(S()).SetA(reg, Merge(Word, old(S()).A(reg), value))
      ensures Within(old(S()), S())
    {
      SetAWithin(S(), reg, Merge(Word, S().A(reg), value));
      if reg == SP && sys.s {
        ssp := ssp - ssp % 0x1_0000;
        ssp := ssp + value;
      } else {
        a[reg] := a[reg] - a[reg] % 0x1_0000;
        a[reg] := a[reg] + value;
        assert a[..] == old(a[..])[reg := Merge(Word, old(a[reg]), value)];
      }
    }

    method AddressRegInc(reg: Reg, width: int)
      requires Valid()
      modifies this`ssp, a
      ensures S() == old(S()).IncA(reg, width)
      ensures Within(old(S()), S())
    {
      hide Wrap32, Within;
      SetAWithin(S(), reg, Wrap32(S().A(reg) + Machine.Stride(reg, width)));
      if reg == SP {
        var step: int := if width < 2 then 2 else width;
        if sys.s {
          ssp := Wrap32(ssp + step);
        } else {
          a[reg] := Wrap32(a[reg] + step);
          assert a[..] == old(a[..])[reg := Wrap32(old(a[reg]) + step)];
        }
      } else {
        a[reg] := Wrap32(a[reg] + width);
        assert a[..] == old(a[..])[reg := Wrap32(old(a[reg]) + width)];
      }
    }

    method AddressRegDec(reg: Reg, width: int)
      requires Valid()
      modifies this`ssp, a
      ensures S() == old(S()).DecA(reg, width)
      ensures Within(old(S()), S())
    {
      hide Wrap32, Within;
      SetAWithin(S(), reg, Wrap32(S().A(reg) - Machine.Stride(reg, width)));
      if reg == SP {
        var step: int := if width < 2 then 2 else width;
        if sys.s {
          ssp := Wrap32(ssp - step);
        } else {
          a[reg] := Wrap32(a[reg] - step);
          assert a[..] == old(a[..])[reg := Wrap32(old(a[reg]) - step)];
        }
      } else {
        a[reg] := Wrap32(a[reg] - width);
        assert a[..] == old(a[..])[reg := Wrap32(old(a[reg]) - width)];
      }
    }

    method Fetch() returns (word: u16)
      requires Valid()
      modifies this`pc, this`opcode
      ensures S() == old(S()).Fetch() && word == opcode
      ensures Within(old(S()), S())
    {
      hide Wrap32, Within;
      FetchWithin(S());
      var value, _ := mem.ReadWord(pc);
      opcode := value;
      pc := Wrap32(pc + 2);
      word := opcode;
    }

    // ---- Stack ----

    /** The error of an odd stack pointer is ignored: nothing is written, and zero is read. */
    method SspPush(value: u16)
      requires Valid()
      modifies this`ssp, mem.ram
      ensures S() == old(S()).PushSsp(value)
    {
      hide Wrap32, Cell;
      ssp := Wrap32(ssp - 2);
      var _ := mem.WriteWord(ssp, value);
    }

    method UspPush(value: u16)
      requires Valid()
      modifies a, mem.ram
      ensures S() == old(S()).PushUsp(value)
    {
      hide Wrap32, Cell;
      var usp: int := a[SP];
      a[SP] := Wrap32(usp - 2);
      assert a[..] == old(a[..])[SP := Wrap32(usp - 2)];
      var _ := mem.WriteWord(a[SP], value);
    }

    method StackPush(value: u16)
      requires Valid()
      modifies this`ssp, a, mem.ram
      ensures S() == old(S()).Push(value)
      ensures Within(old(S()), S())
    {
      hide Wrap32, Cell, Within;
      StackWithin(S(), value);
      if sys.s {
        SspPush(value);
      } else {
        UspPush(value);
      }
    }

    method StackPop() returns (value: u16)
      requires Valid()
      modifies this`ssp, a
      ensures value == old(S()).Top() && S() == old(S()).Dropped()
      ensures Within(old(S()), S())
    {
      hide Wrap32, Cell, Within;
      StackWithin(S(), 0);
      if sys.s {
        var word, _ := mem.ReadWord(ssp);
        value := word;
        ssp := Wrap32(ssp + 2);
      } else {
        var word, _ := mem.ReadWord(a[SP]);
        value := word;
        var usp: int := a[SP];
        a[SP] := Wrap32(usp + 2);
        assert a[..] == old(a[..])[SP := Wrap32(usp + 2)];
      }
    }

    // ---- Exceptions ----

    /** Trace off, supervisor on, and the jump through the vector: how every exception ends. */
    method EnterVector(vector: u32)
      requires Valid()
      modifies this`pc, this`sys
      ensures S() == old(S()).Vectored(vector)
    {
      hide Cell;
      var target, _ := mem.ReadLong(vector);
      pc := target;
      sys := sys.(t1 := false);
      sys := sys.(s := true);
    }

    method RaiseException(vector: u32)
      requires Valid()
      modifies this`pc, this`ssp, this`sys, mem.ram
      ensures S() == old(S()).Exception(vector)
      ensures vector != VECTOR_ADDRESS_ERROR ==> Taken(old(S()), S(), vector)
    {
      hide Wrap32, Cell, Taken;
      if vector != VECTOR_ADDRESS_ERROR { ExceptionTaken(S(), vector); }
      pc := oldPc;
      SspPush(pc % 0x1_0000);
      SspPush(pc / 0x1_0000);
      SspPush(Sr().ToWord());
      EnterVector(vector);
    }

    method RaiseAddressError(address: u32, read: bool, programSpace: bool)
      requires Valid()
      modifies this`pc, this`ssp, this`sys, mem.ram
      ensures S() == old(S()).AddressError(address, read, programSpace)
    {
      hide Machine.PushSsp;
      SspPush(pc % 0x1_0000);
      SspPush(pc / 0x1_0000);
      SspPush(Sr().ToWord());
      SspPush(opcode);
      SspPush(address % 0x1_0000);
      SspPush(address / 0x1_0000);
      var value: int := opcode - opcode % 0x20;
      if read {
        value := value + 0x10;
      }
      if sys.s {
        value := value + if programSpace then 6 else 5;
      } else {
        value := value + if programSpace then 2 else 1;
      }
      assert value == old(S()).AccessWord(read, programSpace);
      SspPush(value);
      EnterVector(VECTOR_ADDRESS_ERROR);
    }

    // ---- Effective addresses ----

    /** The index register of a brief extension word. */
    function ExtWordRegValue(ext: u16): (v: u32)
      requires Valid()
      reads this, d, a, mem.ram
      ensures v == S().Index(ext)
    {
      var reg: Reg := ext / 0x1000 % 8;
      if ext / 0x8000 == 1 then
        if ext / 0x800 % 2 == 1 then AddressRegValue(reg)
        else SignExtend(Word, Truncate(Word, AddressRegValue(reg)))
      else
        if ext / 0x800 % 2 == 1 then d[reg] else SignExtend(Word, Truncate(Word, d[reg]))
    }

    /** Sets up an operand; the program has one copy of this for sources and one for destinations. */
    method SetLocation(reg: Reg, mode: Reg, width: int) returns (o: Outcome<Location>)
      requires Valid()
      modifies this`pc, this`opcode, this`ssp, this`sys, a, mem.ram
      ensures match old(S()).Resolve(reg, mode, width)
        case At(m, location) => o == Done(location) && S() == m
        case IllegalMode => o == Outcome<Location>.Exception(VECTOR_ILLEGAL_INSTRUCTION)
                            && S() == old(S()).Exception(VECTOR_ILLEGAL_INSTRUCTION)
    {
      hide Wrap32, Even, Cell, SignExtend, Signed, Truncate;
      hide Machine.Index, Machine.Exception;
      match mode {
        case 0 => // Dn
          o := Done(Location(DataRegister, reg, false));
        case 1 => // An
          o := Done(Location(AddressRegister, reg, false));
        case 2 => // (An)
          o := Done(Location(MemoryLocation, AddressRegValue(reg), false));
        case 3 => // (An)+
          var address := AddressRegValue(reg);
          AddressRegInc(reg, width);
          o := Done(Location(MemoryLocation, address, false));
        case 4 => // -(An)
          AddressRegDec(reg, width);
          o := Done(Location(MemoryLocation, AddressRegValue(reg), false));
        case 5 => // (d16,An)
          var ext := Fetch();
          o := Done(Location(MemoryLocation, Wrap32(AddressRegValue(reg) + Signed(Word, ext)), false));
        case 6 => // (d8,An,Xn)
          var ext := Fetch();
          var address := AddressRegValue(reg) + Signed(Byte, ext % 0x100) + ExtWordRegValue(ext);
          o := Done(Location(MemoryLocation, Wrap32(address), false));
        case _ =>
          o := SetLocationExtended(reg, width);
      }
    }

    method SetLocationExtended(reg: Reg, width: int) returns (o: Outcome<Location>)
      requires Valid()
      modifies this`pc, this`opcode, this`ssp, this`sys, mem.ram
      ensures match old(S()).ResolveExtended(reg, width)
        case At(m, location) => o == Done(location) && S() == m
        case IllegalMode => o == Outcome<Location>.Exception(VECTOR_ILLEGAL_INSTRUCTION)
                            && S() == old(S()).Exception(VECTOR_ILLEGAL_INSTRUCTION)
    {
      hide Wrap32, Even, Cell, SignExtend, Signed, Truncate;
      hide Machine.Index, Machine.Exception;
      match reg {
        case 0 => // (xxx).W
          var ext := Fetch();
          o := Done(Location(MemoryLocation, SignExtend(Word, ext), false));
        case 1 => // (xxx).L
          var high := Fetch();
          var low := Fetch();
          o := Done(Location(MemoryLocation, Join16(high, low), false));
        case 2 => // (d16,PC)
          var ext := Fetch();
          var address: int := Wrap32(pc - 2);
          o := Done(Location(MemoryLocation, Wrap32(address + Signed(Word, ext)), true));
        case 3 => // (d8,PC,Xn)
          var ext := Fetch();
          var address: int := Wrap32(pc - 2);
          address := address + Signed(Byte, ext % 0x100) + ExtWordRegValue(ext);
          o := Done(Location(MemoryLocation, Wrap32(address), true));
        case 4 => // #<data>
          var high := Fetch();
          if width == 4 {
            var low := Fetch();
            o := Done(Location(Immediate, Join16(high, low), false));
          } else {
            o := Done(Location(Immediate, high, false));
          }
        case _ =>
          o := Raise(VECTOR_ILLEGAL_INSTRUCTION);
      }
    }

    method SrcSet(reg: Reg, mode: Reg, width: int) returns (o: Outcome<()>)
      requires Valid()
      modifies this`pc, this`opcode, this`ssp, this`sys, this`src, a, mem.ram
      ensures match old(S()).Resolve(reg, mode, width)
        case At(m, location) => o == Done(()) && S() == m && src == location
        case IllegalMode => o == Outcome<()>.Exception(VECTOR_ILLEGAL_INSTRUCTION)
                            && S() == old(S()).Exception(VECTOR_ILLEGAL_INSTRUCTION)
      ensures Safe(old(S()), S(), o)
    {
      hide Within, Taken;
      hide Machine.Resolve, Machine.Exception;
      ResolveWithin(S(), reg, mode, width);
      ExceptionTaken(S(), VECTOR_ILLEGAL_INSTRUCTION);
      src :- SetLocation(reg, mode, width);
      o := Done(());
    }

    method DstSet(reg: Reg, mode: Reg, width: int) returns (o: Outcome<()>)
      requires Valid()
      modifies this`pc, this`opcode, this`ssp, this`sys, this`dst, a, mem.ram
      ensures match old(S()).Resolve(reg, mode, width)
        case At(m, location) => o == Done(()) && S() == m && dst == location
        case IllegalMode => o == Outcome<()>.Exception(VECTOR_ILLEGAL_INSTRUCTION)
                            && S() == old(S()).Exception(VECTOR_ILLEGAL_INSTRUCTION)
      ensures Safe(old(S()), S(), o)
    {
      hide Within, Taken;
      hide Machine.Resolve, Machine.Exception;
      ResolveWithin(S(), reg, mode, width);
      ExceptionTaken(S(), VECTOR_ILLEGAL_INSTRUCTION);
      dst :- SetLocation(reg, mode, width);
      o := Done(());
    }

    // ---- Operand access ----

    /** Reads an operand; an odd word or long address is an address error, taken before anything is read. */
    method ReadLocation(at: Location, sz: Size, source: bool) returns (o: Outcome<u32>)
      requires Valid()
      modifies this`pc, this`ssp, this`sys, mem.ram
      ensures match old(S()).Load(at, sz, source)
        case Value(v) => o == Done(v) && S() == old(S())
        case Fault(m, vector) => o == Outcome<u32>.Exception(vector) && S() == m
        case OutOfRange => o == Outcome<u32>.Undefined && S() == old(S())
    {
      hide Wrap32, Even, Cell, Truncate;
      hide Machine.Exception, Machine.AddressError;
      match at.l {
        case DataRegister =>
          o := if at.n < 8 then Done(Truncate(sz, d[at.n])) else Undefined;
        case AddressRegister =>
          if sz == Byte {
            o := Illegal();
          } else {
            o := if at.n < 8 then Done(Truncate(sz, AddressRegValue(at.n))) else Undefined;
          }
        case MemoryLocation =>
          var value, error := 0, false;
          match sz {
            case Byte => value := mem.ReadByte(at.n);
            case Word => value, error := mem.ReadWord(at.n);
            case Long => value, error := mem.ReadLong(at.n);
          }
          if error {
            o := AddressFault(at.n, true, at.programSpace);
          } else {
            o := Done(value);
          }
        case Immediate =>
          if sz == Byte || source {
            o := Done(Truncate(sz, at.n));
          } else {
            o := Illegal();
          }
        case NoLocation =>
          o := Illegal();
      }
    }

    method AddressFault<T>(address: u32, read: bool, programSpace: bool) returns (o: Outcome<T>)
      requires Valid()
      modifies this`pc, this`ssp, this`sys, mem.ram
      ensures o == Outcome<T>.Exception(VECTOR_ADDRESS_ERROR)
      ensures S() == old(S()).AddressError(address, read, programSpace)
      ensures Taken(old(S()), S(), VECTOR_ADDRESS_ERROR)
    {
      hide Taken;
      hide Machine.AddressError;
      AddressErrorTaken(S(), address, read, programSpace);
      RaiseAddressError(address, read, programSpace);
      o := Exception(VECTOR_ADDRESS_ERROR);
    }

    method Illegal<T>() returns (o: Outcome<T>)
      requires Valid()
      modifies this`pc, this`ssp, this`sys, mem.ram
      ensures o == Outcome<T>.Exception(VECTOR_ILLEGAL_INSTRUCTION)
      ensures S() == old(S()).Exception(VECTOR_ILLEGAL_INSTRUCTION)
      ensures Taken(old(S()), S(), VECTOR_ILLEGAL_INSTRUCTION)
    {
      o := Raise(VECTOR_ILLEGAL_INSTRUCTION);
    }

    method Raise<T>(vector: u32) returns (o: Outcome<T>)
      requires Valid() && vector != VECTOR_ADDRESS_ERROR
      modifies this`pc, this`ssp, this`sys, mem.ram
      ensures o == Outcome<T>.Exception(vector)
      ensures S() == old(S()).Exception(vector)
      ensures Taken(old(S()), S(), vector)
    {
      hide Taken;
      hide Machine.Exception;
      RaiseException(vector);
      o := Exception(vector);
    }

    method SrcRead(sz: Size) returns (o: Outcome<u32>)
      requires Valid()
      modifies this`pc, this`ssp, this`sys, mem.ram
      ensures match old(S()).Load(src, sz, true)
        case Value(v) => o == Done(v) && S() == old(S())
        case Fault(m, vector) => o == Outcome<u32>.Exception(vector) && S() == m
        case OutOfRange => o == Outcome<u32>.Undefined && S() == old(S())
      ensures Safe(old(S()), S(), o)
    {
      hide Taken;
      hide Machine.Load;
      LoadSafe(S(), src, sz, true);
      o := ReadLocation(src, sz, true);
    }

    method DstRead(sz: Size) returns (o: Outcome<u32>)
      requires Valid()
      modifies this`pc, this`ssp, this`sys, mem.ram
      ensures match old(S()).Load(dst, sz, false)
        case Value(v) => o == Done(v) && S() == old(S())
        case Fault(m, vector) => o == Outcome<u32>.Exception(vector) && S() == m
        case OutOfRange => o == Outcome<u32>.Undefined && S() == old(S())
      ensures Safe(old(S()), S(), o)
    {
      hide Taken;
      hide Machine.Load;
      LoadSafe(S(), dst, sz, false);
      o := ReadLocation(dst, sz, false);
    }

    /** Writes the destination; an odd word or long address writes nothing and is an address error. */
    method DstWrite(sz: Size, value: u32) returns (o: Outcome<()>)
      requires Valid() && value < sz.Modulus()
      modifies this`pc, this`ssp, this`sys, d, a, mem.ram
      ensures match old(S()).Store(dst, sz, value)
        case Value(m) => o == Done(()) && S() == m
        case Fault(m, vector) => o == Outcome<()>.Exception(vector) && S() == m
        case OutOfRange => o == Outcome<()>.Undefined && S() == old(S())
      ensures Safe(old(S()), S(), o)
    {
      hide Wrap32, Even, Cell, Merge, Within, Taken;
      hide Machine.Exception, Machine.AddressError;
      StoreSafe(S(), dst, sz, value);
      match dst.l {
        case DataRegister =>
          if dst.n < 8 {
            SetDataReg(dst.n, Merge(sz, d[dst.n], value));
            o := Done(());
          } else {
            o := Undefined;
          }
        case AddressRegister =>
          o := WriteAddressReg(sz, value);
        case MemoryLocation =>
          var error := false;
          match sz {
            case Byte => mem.WriteByte(dst.n, value);
            case Word => error := mem.WriteWord(dst.n, value);
            case Long => error := mem.WriteLong(dst.n, value);
          }
          if error {
            o := AddressFault(dst.n, false, dst.programSpace);
          } else {
            o := Done(());
          }
        case _ =>
          o := Illegal();
      }
    }

    /** A word write to an address register replaces its low word only. */
    method WriteAddressReg(sz: Size, value: u32) returns (o: Outcome<()>)
      requires Valid() && value < sz.Modulus() && dst.l == AddressRegister
      modifies this`pc, this`ssp, this`sys, a, mem.ram
      ensures match old(S()).Store(dst, sz, value)
        case Value(m) => o == Done(()) && S() == m
        case Fault(m, vector) => o == Outcome<()>.Exception(vector) && S() == m
        case OutOfRange => o == Outcome<()>.Undefined && S() == old(S())
    {
      hide Wrap32, Even, Cell;
      hide Machine.Exception, Machine.AddressError;
      if sz == Byte {
        o := Illegal();
      } else if dst.n >= 8 {
        o := Undefined;
      } else {
        if sz == Word {
          AddressRegSetWord(dst.n, value);
        } else {
          AddressRegSetLong(dst.n, value);
        }
        o := Done(());
      }
    }

    // ---- Arithmetic helpers ----

    method AddHelper(sz: Size, in1: u32, in2: u32, skip: bool) returns (result: u32)
      requires in1 < sz.Modulus() && in2 < sz.Modulus()
      modifies this`c, this`v, this`z, this`n, this`x
      ensures result == Alu.Add(sz, in1, in2, old(Sr())).value
      ensures Sr() == if skip then old(Sr()) else Alu.Add(sz, in1, in2, old(Sr())).sr
    {
      hide BitAt, Truncate, Alu.Add, Alu.SumOverflows, Alu.DifferenceOverflows;
      Alu.AddBits(sz, in1, in2, Sr());
      result := Truncate(sz, in1 + in2);
      if skip {
        return;
      }
      n := BitAt(result, sz.Half());
      z := result == 0;
      c := BitAt(in1 + in2, sz.Modulus());
      v := Alu.SumOverflows(sz, in1, in2, result);
      x := c;
    }

    method AddxHelper(sz: Size, in1: u32, in2: u32) returns (result: u32)
      requires in1 < sz.Modulus() && in2 < sz.Modulus()
      modifies this`c, this`v, this`z, this`n, this`x
      ensures result == Alu.Addx(sz, in1, in2, old(Sr())).value
      ensures Sr() == Alu.Addx(sz, in1, in2, old(Sr())).sr
    {
      hide BitAt, Truncate, Alu.Addx, Alu.SumOverflows, Alu.DifferenceOverflows;
      Alu.AddxBits(sz, in1, in2, Sr());
      var sum: int := in1 + in2 + BitOf(x);
      result := Truncate(sz, sum);
      n := BitAt(result, sz.Half());
      if result != 0 {
        z := false;
      }
      c := BitAt(sum, sz.Modulus());
      v := Alu.SumOverflows(sz, in1, in2, result);
      x := c;
    }

    /** `sub` is subtracted from `min`. */
    method CmpHelper(sz: Size, sub: u32, min: u32)
      requires sub < sz.Modulus() && min < sz.Modulus()
      modifies this`c, this`v, this`z, this`n, this`x
      ensures Sr() == Alu.Cmp(sz, sub, min, old(Sr()))
    {
      hide BitAt, Truncate, Alu.Cmp, Alu.SumOverflows, Alu.DifferenceOverflows;
      Alu.CmpBits(sz, sub, min, Sr());
      var result := Truncate(sz, min - sub);
      n := BitAt(result, sz.Half());
      z := result == 0;
      c := BitAt(min - sub, sz.Modulus());
      v := Alu.DifferenceOverflows(sz, sub, min, result);
    }

    method SubHelper(sz: Size, sub: u32, min: u32, skip: bool) returns (result: u32)
      requires sub < sz.Modulus() && min < sz.Modulus()
      modifies this`c, this`v, this`z, this`n, this`x
      ensures result == Alu.Sub(sz, sub, min, old(Sr())).value
      ensures Sr() == if skip then old(Sr()) else Alu.Sub(sz, sub, min, old(Sr())).sr
    {
      hide BitAt, Truncate, Alu.Sub, Alu.SumOverflows, Alu.DifferenceOverflows;
      Alu.SubBits(sz, sub, min, Sr());
      result := Truncate(sz, min - sub);
      if skip {
        return;
      }
      n := BitAt(result, sz.Half());
      z := result == 0;
      c := BitAt(min - sub, sz.Modulus());
      v := Alu.DifferenceOverflows(sz, sub, min, result);
      x := c;
    }

    method SubxHelper(sz: Size, sub: u32, min: u32) returns (result: u32)
      requires sub < sz.Modulus() && min < sz.Modulus()
      modifies this`c, this`v, this`z, this`n, this`x
      ensures result == Alu.Subx(sz, sub, min, old(Sr())).value
      ensures Sr() == Alu.Subx(sz, sub, min, old(Sr())).sr
    {
      hide BitAt, Truncate, Alu.Subx, Alu.SumOverflows, Alu.DifferenceOverflows;
      Alu.SubxBits(sz, sub, min, Sr());
      var diff: int := min - sub - BitOf(x);
      result := Truncate(sz, diff);
      n := BitAt(result, sz.Half());
      if result != 0 {
        z := false;
      }
      c := BitAt(diff, sz.Modulus());
      v := Alu.DifferenceOverflows(sz, sub, min, result);
      x := c;
    }

    /** Decimal addition by correcting the nibbles of the binary sum. */
    method AddBcdHelper(in1: u8, in2: u8) returns (value: u8)
      modifies this`c, this`v, this`z, this`n, this`x
      ensures value == Alu.AddBcd(in1, in2, old(Sr())).value
      ensures Sr() == Alu.AddBcd(in1, in2, old(Sr())).sr
    {
      hide Alu.LowByte, Alu.AddBcd, Alu.HighNibble;
      ghost var (r, carry) := Alu.AdjustSum(in1 % 0x10 + in2 % 0x10 + BitOf(x),
                                            Alu.HighNibble(in1) + Alu.HighNibble(in2));
      Alu.AddBcdCodes(in1, in2, Sr(), r, carry);
      var result: int := in1 % 0x10 + in2 % 0x10 + BitOf(x);
      if result > 9 {
        result := result + 6;
      }
      result := result + (Alu.HighNibble(in1) + Alu.HighNibble(in2));
      if result > 0x9F {
        result := result - 0xA0;
        c := true;
      } else {
        c := false;
      }
      value := Alu.LowByte(result);
      if value != 0 {
        z := false;
      }
      x := c;
    }

    /** Decimal subtraction, on a 16-bit intermediate that wraps below zero. */
    method SubBcdHelper(sub: u8, min: u8) returns (value: u8)
      modifies this`c, this`v, this`z, this`n, this`x
      ensures value == Alu.SubBcd(sub, min, old(Sr())).value
      ensures Sr() == Alu.SubBcd(sub, min, old(Sr())).sr
    {
      hide Alu.LowByte, Alu.LowWord, Alu.SubBcd, Alu.HighNibble;
      ghost var (r, borrow) := Alu.AdjustDifference(min % 0x10 - sub % 0x10 - BitOf(x),
                                                    Alu.HighNibble(min) - Alu.HighNibble(sub));
      Alu.SubBcdCodes(sub, min, Sr(), r, borrow);
      var result := Alu.LowWord(min % 0x10 - sub % 0x10 - BitOf(x));
      if result > 0xF {
        result := Alu.LowWord(result + (Alu.HighNibble(min) - Alu.HighNibble(sub)));
        if result > 0xFF {
          result := result + 0xA0;
          c := true;
        } else {
          c := result < 6;
        }
        result := result - 6;
      } else {
        result := Alu.LowWord(result + (Alu.HighNibble(min) - Alu.HighNibble(sub)));
        if result > 0xFF {
          result := result + 0xA0;
          c := true;
        } else {
          c := false;
        }
      }
      value := Alu.LowByte(result);
      if value != 0 {
        z := false;
      }
      x := c;
    }

    // ---- Shift and rotate helpers ----

    method SetSignAndZero(sz: Size, result: u32)
      requires result < sz.Modulus()
      modifies this`z, this`n
      ensures Sr() == old(Sr()).(n := Alu.Negative(sz, result), z := result == 0)
    {
      hide BitAt;
      TopBit(sz, result);
      n := BitAt(result, sz.Half());
      z := result == 0;
    }

    method AslHelper(sz: Size, operand: u32, places: u8) returns (input: u32)
      requires operand < sz.Modulus()
      modifies this`c, this`v, this`z, this`n, this`x
      ensures input == Shifts.Asl(sz, operand, places, old(Sr())).value
      ensures Sr() == Shifts.Asl(sz, operand, places, old(Sr())).sr
    {
      hide BitAt, Truncate, Times, Pow, Fits, Signed, Shifts.LeftValue, Alu.Negative;
      TopBit(sz, operand);
      Shifts.LeftZero(sz, operand);
      SignedFits(sz, operand);
      input := operand;
      var msb := BitAt(input, sz.Half());
      var count: int := places;
      v := false;
      if count == 0 {
        c := false;
      } else {
        while count > 0
          invariant 0 <= count <= places
          invariant input == Shifts.LeftValue(sz, operand, places - count)
          invariant v == !Fits(sz, Times(Signed(sz, operand), Pow(2, places - count)))
          invariant count < places ==> c == Shifts.LeftLast(sz, operand, places - count)
          modifies this`c, this`v
        {
          TopBit(sz, input);
          Shifts.LeftStep(sz, operand, places - count);
          Shifts.OverflowStep(sz, operand, places - count);
          TruncateReduces(sz, 2 * input);
          c := BitAt(input, sz.Half());
          input := Truncate(sz, 2 * input);
          TopBit(sz, input);
          if BitAt(input, sz.Half()) != msb {
            v := true;
          }
          count := count - 1;
        }
        x := c;
      }
      SetSignAndZero(sz, input);
    }

    method LslHelper(sz: Size, operand: u32, places: u8) returns (input: u32)
      requires operand < sz.Modulus()
      modifies this`c, this`v, this`z, this`n, this`x
      ensures input == Shifts.Lsl(sz, operand, places, old(Sr())).value
      ensures Sr() == Shifts.Lsl(sz, operand, places, old(Sr())).sr
    {
      hide BitAt, Truncate, Times, Pow, Signed, Shifts.LeftValue, Alu.Negative;
      Shifts.LeftZero(sz, operand);
      input := operand;
      var count: int := places;
      if count == 0 {
        c := false;
      } else {
        while count > 0
          invariant 0 <= count <= places
          invariant input == Shifts.LeftValue(sz, operand, places - count)
          invariant count < places ==> c == Shifts.LeftLast(sz, operand, places - count)
          modifies this`c
        {
          TopBit(sz, input);
          Shifts.LeftStep(sz, operand, places - count);
          TruncateReduces(sz, 2 * input);
          c := BitAt(input, sz.Half());
          input := Truncate(sz, 2 * input);
          count := count - 1;
        }
        x := c;
      }
      SetSignAndZero(sz, input);
      v := false;
    }

    method LsrHelper(sz: Size, operand: u32, places: u8) returns (input: u32)
      requires operand < sz.Modulus()
      modifies this`c, this`v, this`z, this`n, this`x
      ensures input == Shifts.Lsr(sz, operand, places, old(Sr())).value
      ensures Sr() == Shifts.Lsr(sz, operand, places, old(Sr())).sr
    {
      hide BitAt, Signed, Shifts.RightQuotient, Alu.Negative;
      Shifts.RightZero(operand);
      input := operand;
      var count: int := places;
      if count == 0 {
        c := false;
      } else {
        while count > 0
          invariant 0 <= count <= places
          invariant input == Shifts.RightQuotient(operand, places - count)
          invariant count < places ==> c == Shifts.RightLast(operand, places - count)
          modifies this`c
        {
          Shifts.RightStep(operand, places - count);
          c := input % 2 == 1;
          input := input / 2;
          count := count - 1;
        }
        x := c;
      }
      Shifts.RightBound(sz, operand, places);
      SetSignAndZero(sz, input);
      v := false;
    }

    /** After each halving the sign bit, now one place lower, is copied back to the top. */
    method AsrHelper(sz: Size, operand: u32, places: u8) returns (input: u32)
      requires operand < sz.Modulus()
      modifies this`c, this`v, this`z, this`n, this`x
      ensures input == Shifts.Asr(sz, operand, places, old(Sr())).value
      ensures Sr() == Shifts.Asr(sz, operand, places, old(Sr())).sr
    {
      hide BitAt, Signed, Shifts.AsrValue, Shifts.RightLast, Alu.Negative;
      Shifts.AsrStep(sz, operand, 0);
      input := operand;
      var count: int := places;
      if count == 0 {
        c := false;
      } else {
        while count > 0
          invariant 0 <= count <= places
          invariant input == Shifts.AsrValue(sz, operand, places - count)
          invariant count < places ==> c == Shifts.RightLast(Signed(sz, operand), places - count)
          modifies this`c
        {
          Shifts.AsrStep(sz, operand, places - count);
          c := input % 2 == 1;
          input := input / 2;
          if BitAt(input, sz.Half() / 2) {
            input := input + sz.Half();
          }
          count := count - 1;
        }
        x := c;
      }
      Shifts.NothingOut(Signed(sz, operand));
      SetSignAndZero(sz, input);
      v := false;
    }

    method RolHelper(sz: Size, operand: u32, places: u8) returns (input: u32)
      requires operand < sz.Modulus()
      modifies this`c, this`v, this`z, this`n, this`x
      ensures input == Shifts.Rol(sz, operand, places, old(Sr())).value
      ensures Sr() == Shifts.Rol(sz, operand, places, old(Sr())).sr
    {
      hide BitAt, Odd, Truncate, Shifts.ManyLeft, Shifts.RotatedLeft, Alu.Negative;
      ghost var w := sz.Bits();
      Shifts.ManyZero(operand, w);
      input := operand;
      var count: int := places;
      if count == 0 {
        c := false;
      } else {
        while count > 0
          invariant 0 <= count <= places
          invariant input == Shifts.ManyLeft(operand, w, places - count) < sz.Modulus()
          invariant count < places ==> c == Odd(input)
          modifies this`c
        {
          TopBit(sz, input);
          Shifts.RolStep(sz, operand, input, places - count);
          TruncateReduces(sz, 2 * input);
          c := BitAt(input, sz.Half());
          input := Truncate(sz, 2 * input);
          input := input + BitOf(c);
          count := count - 1;
        }
      }
      Shifts.RolValue(sz, operand, places, old(Sr()));
      SetSignAndZero(sz, input);
      v := false;
    }

    method RorHelper(sz: Size, operand: u32, places: u8) returns (input: u32)
      requires operand < sz.Modulus()
      modifies this`c, this`v, this`z, this`n, this`x
      ensures input == Shifts.Ror(sz, operand, places, old(Sr())).value
      ensures Sr() == Shifts.Ror(sz, operand, places, old(Sr())).sr
    {
      hide BitAt, Shifts.ManyRight, Shifts.RotatedRight, Alu.Negative;
      ghost var w := sz.Bits();
      Shifts.ManyZero(operand, w);
      input := operand;
      var count: int := places;
      if count == 0 {
        c := false;
      } else {
        while count > 0
          invariant 0 <= count <= places
          invariant input == Shifts.ManyRight(operand, w, places - count) < sz.Modulus()
          invariant count < places ==> c == (input >= sz.Half())
          modifies this`c
        {
          Shifts.RorStep(sz, operand, input, places - count);
          c := input % 2 == 1;
          input := input / 2;
          input := input + sz.Half() * BitOf(c);
          count := count - 1;
        }
      }
      Shifts.RorValue(sz, operand, places, old(Sr()));
      SetSignAndZero(sz, input);
      v := false;
    }

    method RoxlHelper(sz: Size, operand: u32, places: u8) returns (input: u32)
      requires operand < sz.Modulus()
      modifies this`c, this`v, this`z, this`n, this`x
      ensures input == Shifts.Roxl(sz, operand, places, old(Sr())).value
      ensures Sr() == Shifts.Roxl(sz, operand, places, old(Sr())).sr
    {
      hide BitAt, Truncate, Shifts.ManyLeft, Shifts.RotatedLeft, Shifts.Roxl, Alu.Negative;
      ghost var q, w := Shifts.Extended(sz, x, operand), sz.Bits() + 1;
      Shifts.ManyZero(q, w);
      input := operand;
      var count: int := places;
      if count == 0 {
        c := x;
      } else {
        while count > 0
          invariant 0 <= count <= places
          invariant input < sz.Modulus() && Shifts.Extended(sz, x, input) == Shifts.ManyLeft(q, w, places - count)
          invariant count < places ==> c == x
          modifies this`c, this`x
        {
          TopBit(sz, input);
          Shifts.RoxlStep(sz, q, x, input, places - count);
          TruncateReduces(sz, 2 * input);
          c := BitAt(input, sz.Half());
          input := Truncate(sz, 2 * input);
          input := input + BitOf(x);
          x := c;
          count := count - 1;
        }
      }
      Shifts.RoxlValue(sz, operand, places, old(Sr()), x, input);
      SetSignAndZero(sz, input);
      v := false;
    }

    method RoxrHelper(sz: Size, operand: u32, places: u8) returns (input: u32)
      requires operand < sz.Modulus()
      modifies this`c, this`v, this`z, this`n, this`x
      ensures input == Shifts.Roxr(sz, operand, places, old(Sr())).value
      ensures Sr() == Shifts.Roxr(sz, operand, places, old(Sr())).sr
    {
      hide BitAt, Shifts.ManyRight, Shifts.RotatedRight, Shifts.Roxr, Alu.Negative;
      ghost var q, w := Shifts.Extended(sz, x, operand), sz.Bits() + 1;
      Shifts.ManyZero(q, w);
      input := operand;
      var count: int := places;
      if count == 0 {
        c := x;
      } else {
        while count > 0
          invariant 0 <= count <= places
          invariant input < sz.Modulus() && Shifts.Extended(sz, x, input) == Shifts.ManyRight(q, w, places - count)
          invariant count < places ==> c == x
          modifies this`c, this`x
        {
          Shifts.RoxrStep(sz, q, x, input, places - count);
          c := input % 2 == 1;
          input := input / 2;
          input := input + sz.Half() * BitOf(x);
          x := c;
          count := count - 1;
        }
      }
      Shifts.RoxrValue(sz, operand, places, old(Sr()), x, input);
      SetSignAndZero(sz, input);
      v := false;
    }
  }
}
