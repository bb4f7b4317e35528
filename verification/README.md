# A verified model of the 68000 core of cpm68emu

The project models the Motorola 68000 emulator in `m68k.c`, the 24-bit memory and the S-record loader in `mem.c`, and the
RAM disks in `ramdisk.c`. The class `Cpus.Cpu` updates registers, status register and memory in place as the program
does; the value `Machines.Machine` is the same state as a value, and every method is proved to reach the machine that a
function on values names. What the program promises is proved about those functions, and about whole runs.
`Addressing` gives the addressing modes as formulas over registers and memory words; the modules after it say with
these, and without the functions of the instructions, what executing each instruction word leaves behind.

Files, in the order in which they build on each other:

| files | what they hold |
| --- | --- |
| `Words`, `StatusRegister`, `StatusMasks`, `Memory`, `Regions`, `AccessSequence` | widths, wrap-around, the status register and its masks, the address space |
| `Machine`, `Opcodes`, `Safety`, `Cpu` | the machine as a value and in place, operands, exceptions, and what every step keeps |
| `Alu`, `Shifts`, `Division`, `Conditions` | what the arithmetic helpers mean |
| `Multiprecision`, `MultiprecisionLaws`, `ChainProgram`, `LoopProgram`, `DoublingProgram`, `RegisterChain` | arithmetic on numbers of any length, and programs that do it |
| `ControlFlow`, `CallNesting`, `TrapNesting`, `CountedLoop` | calls, frames, exceptions and DBcc loops |
| `Movem`, `MovemInstructions`, `MultiplyInstructions` | register lists, products and quotients |
| `Operations`, `Arithmetic`, `ExtendedArithmetic`, `FlowInstructions`, `PlainEffects`, `PlainInstructions` | the instructions |
| `Decoding`, `Execution`, `Runs` | one step, and whole runs |
| `Addressing`, `DataMovement`, `IntegerArithmetic`, `Comparisons`, `Branching`, `ShiftInstructions`, `Products`, `BitsAndStatus`, `RegisterBlocks` | what each instruction does from its words in memory, in terms of registers, addresses and integers |
| `Ramdisk`, `Srec` | the RAM disks and the S-record loader |

The program leaves an instruction by `longjmp` when an exception is taken. Here every piece of an instruction returns an
`Outcome`: done, an exception that has been taken, or `Undefined` where the program leaves the C language. One size
parameter stands for the textual copies of a helper for bytes, words and longs, and one copy of the operand set-up
for the two of the program.

Where the documentation and the code differ, the code is followed: the address-error frame holds the status word that
the code computes, and illegal instructions are recognised only where the code does (`README.md:26-27`); ADDQ.W and SUBQ.W
on an address register change its low word only (`m68k.c:1976-1983`, `m68k.c:5064-5071`).

## Model

| member | source | states |
|---|---|---|
| Memories.Memory.constructor | mem.c:94-100 | a new memory is zero everywhere |
| Memories.Memory.ReadByte | mem.c:8-11 | reads the byte that the low 24 bits of the address name |
| Memories.Memory.ReadWord | mem.c:15-25 | big-endian; raises the error flag exactly at odd addresses, and then reads zero |
| Memories.Memory.ReadLong | mem.c:29-48 | two consecutive words at every even address, the split case at 0xFFFFFE included; odd addresses raise the error flag |
| Memories.Memory.WriteByte | mem.c:52-55 | changes one byte of the 24-bit address space |
| Memories.Memory.WriteWord | mem.c:59-68 | big-endian; an odd address changes nothing and raises the error flag |
| Memories.Memory.WriteLong | mem.c:72-90 | the long lies as two consecutive words, across the end of memory too; an odd address changes nothing |
| Memories.ReadBack | mem.c:8-90 | an access of any size reads back what one of the same size has written at the same address |
| Memories.WriteFrame | mem.c:52-90 | a write changes only the bytes it covers |
| Memories.AccessWraps | mem.c:8-90 | addresses that agree in their low 24 bits are the same place for reads and writes of every size |
| Memories.LongBytes | mem.c:80-88 | shifting and masking a long gives the bytes of its two words |
| AccessSequence.LastWriteWins | mem.c:52-90 | a write puts exactly its big-endian bytes into the cells it covers |
| AccessSequence.MemoryIsFlat | mem.c:52-90 | after any sequence of byte, word and long writes each byte is the last one written to it; misaligned writes count for nothing |
| AccessSequence.ReadIsFlat | mem.c:8-90 | any read after any sequence of writes is the big-endian value of those bytes |
| StatusRegister.WordRoundTrip | m68k.h:30-50 | the word that an exception pushes decodes to the status register it came from |
| StatusMasks.CombinedWords | m68k.c:2210-2231 | AND, OR and exclusive OR of the register are the bit operators of C on its word |
| StatusMasks.FilterIsMask | m68k.c:41-45 | the filter is the mask 0xA71F, and a register is clean exactly when that mask leaves it alone |
| StatusMasks.EnteredIsMask | m68k.c:241-242 | entering an exception clears 0x8000 and sets 0x2000 |
| StatusMasks.CodesAreMask | m68k.c:4613-4614 | RTR and MOVE to CCR replace exactly the bits of 0x1F |
| StatusMasks.CodeOperandsAreMasks | m68k.c:2210-2212 | the operands of the CCR forms are masked with 0x1F, or extended with 0xFF00 |
| Alu.SumBits | m68k.c:266-361 | the bit tests of the addition helpers are carry and signed overflow of the integer sum |
| Alu.DifferenceBits | m68k.c:547-579 | the bit tests of the subtraction helpers are borrow and signed overflow of the integer difference |
| Cpus.Cpu.AddHelper | m68k.c:266-312 | result modulo the size; C and X are the carry, V signed overflow, N and Z the result; a skipped update leaves the codes |
| Cpus.Cpu.AddxHelper | m68k.c:316-361 | adds X too; Z can only be cleared |
| Cpus.Cpu.CmpHelper | m68k.c:547-579 | codes of the integer difference, X untouched |
| Cpus.Cpu.SubHelper | m68k.c:1021-1067 | difference modulo the size with borrow in C and X |
| Cpus.Cpu.SubxHelper | m68k.c:1088-1133 | subtracts X too; Z can only be cleared |
| Cpus.Cpu.AddBcdHelper | m68k.c:365-384 | the nibble corrections compute the specified decimal adjustment, with the decimal carry in C and X |
| Cpus.Cpu.SubBcdHelper | m68k.c:1137-1168 | the same for subtraction, through the 16-bit intermediate that wraps |
| Alu.AddBcdIsDecimal | m68k.c:365-384 | on valid packed digits the result is valid and equals the decimal sum, with the carry of weight 100 |
| Alu.SubBcdIsDecimal | m68k.c:1137-1168 | on valid packed digits the result is valid and equals the decimal difference, with the borrow of weight 100 |
| Operations.BitwiseBit | m68k.c:388-416 | each bit of AND, OR, exclusive OR and AND NOT is that operator on the bits of the operands |
| FlowInstructions.TestBranch | m68k.c:2390-2508 | the table of Bcc decides the conditions; codes 0 and 1 always branch |
| FlowInstructions.TestLoop | m68k.c:3107-3223 | the table of DBcc decides the same conditions |
| FlowInstructions.TestSet | m68k.c:4653-4769 | the table of Scc decides the same conditions, so the three agree for every flag state |
| Conditions.CompareDecides | m68k.c:547-579 | after a compare of any size HI, LS, CC, CS, NE, EQ, GE, LT, GT and LE hold exactly when the unsigned or signed relation does |
| Conditions.OddNegatesEven | m68k.c:2403-2508 | each odd condition code is the negation of the even one before it |
| Cpus.Cpu.AslHelper | m68k.c:420-484 | the loop equals its closed form for every width and count: value times 2^count modulo the size; V exactly when the signed product does not fit; C and X the last bit out |
| Cpus.Cpu.AsrHelper | m68k.c:488-542 | the loop equals its closed form for every width and count: the signed value divided by 2^count, rounded down; C and X the last bit out |
| Cpus.Cpu.LslHelper | m68k.c:615-667 | the loop equals its closed form for every width and count: value times 2^count modulo the size; C and X the last bit out |
| Cpus.Cpu.LsrHelper | m68k.c:671-723 | the loop equals its closed form for every width and count: value divided by 2^count, rounded down; C and X the last bit out |
| Cpus.Cpu.RolHelper | m68k.c:791-843 | the loop equals its closed form for every width and count: rotation by count modulo the size; X untouched |
| Cpus.Cpu.RorHelper | m68k.c:847-899 | the loop equals its closed form for every width and count: rotation to the right by count modulo the size; X untouched |
| Cpus.Cpu.RoxlHelper | m68k.c:903-958 | the loop equals its closed form for every width and count: rotation of X:value, one bit wider than the operand, by count modulo that width; C equals X |
| Cpus.Cpu.RoxrHelper | m68k.c:962-1017 | the loop equals its closed form for every width and count: the same to the right |
| Shifts.SignedLeft | m68k.c:420-484 | the result of a left shift is the signed operand times 2^count modulo the size, so without overflow it is the signed product |
| Shifts.RotationsUndo | m68k.c:791-899 | rotating left and right by the same count is the identity, both ways round |
| Shifts.RotatesUndo | m68k.c:791-899 | ROL and ROR undo each other for every count and leave X alone |
| Shifts.ExtendedRotatesUndo | m68k.c:903-1017 | ROXL and ROXR undo each other on the value and X for every count |
| Shifts.RoxlByOne | m68k.c:903-958 | ROXL by one doubles the operand, with X coming in and the top bit going out |
| Shifts.RoxlChainDoubles | m68k.c:903-958 | ROXL by one over limb values from the least significant one computes 2 * value + X, with X the bit that comes out; the limbs are those of data registers in `DoublingProgram.RegistersDouble` |
| DoublingProgram.RoxlDecodes | m68k.c:5566-5648 | the word 0xE5E0 + n is decoded as ROXL -(An): the word below An is rotated by one |
| DoublingProgram.MemoryDoubles | m68k.c:5566-5648 | executing n ROXL -(An) from memory turns the big-endian number of 2n bytes below An into 2 * value + X, with the bit that comes out in X; An has moved to the number, and registers and other memory are unchanged |
| DoublingProgram.RegistersFollowChain | m68k.c:5566-5648 | executing ROXL #1 on distinct data registers from memory changes their low parts as the chain of limbs says, and no upper part, other register or memory |
| DoublingProgram.RegistersDouble | m68k.c:903-958 | so the number that those registers hold becomes 2 * value + X, for every size, with the bit that comes out in X |
| Cpus.Cpu.constructor | m68k.c:5660-5664 | registers, pc and codes are zero, and of the status register only the supervisor bit is set |
| Cpus.Cpu.AddressRegValue | m68k.c:49-56 | A7 is the supervisor stack pointer exactly in supervisor mode |
| Cpus.Cpu.ExtWordRegValue | m68k.c:60-76 | the index register of an extension word, whole or sign-extended from its low word |
| Cpus.Cpu.AddressRegSetWord | m68k.c:80-90 | replaces the low word of the register of the current mode, and stays within the mode |
| Cpus.Cpu.AddressRegSetLong | m68k.c:94-102 | replaces the register of the current mode, and stays within the mode |
| Cpus.Cpu.AddressRegInc | m68k.c:106-120 | moves by the width, A7 by at least two, modulo 2^32 |
| Cpus.Cpu.AddressRegDec | m68k.c:124-138 | moves by the width, A7 by at least two, modulo 2^32 |
| Cpus.Cpu.Fetch | m68k.c:142-152 | reads the word at pc, zero at an odd one, and moves pc by two; an even pc stays even |
| Cpus.Cpu.SspPush | m68k.c:185-190 | lowers the supervisor stack pointer by two and writes there; an odd one writes nothing |
| Cpus.Cpu.UspPush | m68k.c:192-197 | the same on the user stack, in either mode |
| Cpus.Cpu.StackPush | m68k.c:199-206 | pushes on the stack of the current mode and leaves the other stack pointer alone |
| Cpus.Cpu.StackPop | m68k.c:156-181 | pops from the stack of the current mode and leaves the other stack pointer alone |
| Cpus.Cpu.RaiseAddressError | m68k.c:210-245 | pushes the fourteen-byte frame that `TrapNesting.AddressErrorHolds` lays out, loads the vector, clears trace and enters supervisor mode |
| Cpus.Cpu.RaiseException | m68k.c:249-262 | pushes the six-byte frame with the old pc, loads the vector, clears trace and enters supervisor mode |
| Safety.AddressErrorTaken | m68k.c:210-245 | from any state: supervisor mode, pc the vector long read after the push, the status register kept except trace off and supervisor on, and from user mode SSP lowered by 14 |
| Safety.ExceptionTaken | m68k.c:249-262 | the same for the other exceptions, with six bytes |
| Cpus.Cpu.SetLocation | m68k.c:1172-1299 | sets up an operand in each of the twelve addressing modes, at the place and with the registers that `Addressing.SetUp` names; the rest is an illegal instruction |
| Cpus.Cpu.SrcSet | m68k.c:1172-1299 | the same for a source, and whatever happens is safe for the mode |
| Cpus.Cpu.DstSet | m68k.c:1403-1530 | the same for a destination |
| Safety.ResolveWithin | m68k.c:1172-1299 | setting up an operand never changes the mode, the other stack pointer or the parity of pc |
| Cpus.Cpu.ReadLocation | m68k.c:1331-1363 | reads an operand; an odd word or long address is an address error before anything else happens |
| Cpus.Cpu.SrcRead | m68k.c:1303-1399 | the same for a source, which may be any immediate |
| Cpus.Cpu.DstRead | m68k.c:1534-1622 | the same for a destination, of which only a byte may be immediate |
| Cpus.Cpu.DstWrite | m68k.c:1626-1702 | writes the destination, keeping the rest of a register; an odd word or long address writes nothing and is an address error |
| Safety.LoadSafe | m68k.c:1303-1399 | a read that faults has taken an exception as every exception is taken |
| Safety.StoreSafe | m68k.c:1626-1702 | a write changes nothing privileged, or has taken an exception |
| Addressing.SetUp | m68k.c:1172-1299 | each of the twelve addressing modes names the address or register of a formula over registers and extension words, and leaves pc behind them and An moved |
| Addressing.Loads | m68k.c:1303-1399 | an accessible operand is the register part, the immediate or the memory bytes of that formula |
| Addressing.Faults | m68k.c:1303-1399 | an odd word or long is an address error at that address, in program space when relative to pc |
| Addressing.Stores | m68k.c:1626-1702 | a result goes to the low part of the register or to the bytes of that formula |
| DataMovement.LeaLoadsAddress | m68k.c:3373-3383 | LEA from memory words loads the address itself, for every memory mode |
| DataMovement.PeaPushes | m68k.c:4332-4341 | PEA pushes it |
| DataMovement.MoveCopies | m68k.c:3600-3669 | MOVE from memory words copies the operand of any mode to any alterable one, sets N and Z of it, clears V and C, and forms the address of the destination after the source and its extension words |
| DataMovement.MoveFaults | m68k.c:3600-3669 | an odd source is a read error before anything is set, an odd destination a write error after the codes |
| DataMovement.MoveaExtends | m68k.c:3621-3669 | MOVEA extends the sign over the whole register and sets no codes |
| DataMovement.MoveqLoads | m68k.c:3730-3743 | MOVEQ loads a signed byte and its codes |
| DataMovement.ClrClears | m68k.c:2854-2886 | CLR leaves zero and Z |
| DataMovement.TstTests | m68k.c:5149-5182 | TST sets the codes of any operand and changes nothing else |
| DataMovement.OneOperandFaults | m68k.c:2854-2886 | an odd word or long of CLR or TST is an address error of a read |
| DataMovement.SwapExchanges | m68k.c:5086-5100 | SWAP exchanges the halves of a register |
| DataMovement.ExtExtends | m68k.c:3309-3337 | EXT extends the sign of a byte to the word or of a word to the register |
| DataMovement.ExgExchanges | m68k.c:2032-2066 | EXG exchanges two registers of one kind, or a data register and an address register |
| Multiprecision.CombineDigit | m68k.c:316-384 | one limb or byte of ADDX, SUBX, ABCD or SBCD is one digit of the schoolbook algorithm, with X as carry or borrow |
| Multiprecision.StepMoves | m68k.c:1770-1788 | one instruction in the form -(Ay),-(Ax) works on the next digit, moves both registers down and changes nothing else |
| Multiprecision.ChainComputes | m68k.c:1770-1796 | n instructions leave (dst + src + X) or (dst - src - X) modulo the n-th power of the base, for any n; X and C are the carry or borrow out of the whole number, Z is sticky, and source and other memory are unchanged |
| MultiprecisionLaws.ChainSetsSigns | m68k.c:344-361 | after a chain of ADDX or SUBX, N is the sign of the whole number and V its signed overflow |
| MultiprecisionLaws.ChainUndone | m68k.c:4076-4106 | SUBX chains undo ADDX chains and SBCD chains undo ABCD chains byte for byte, and the other way round |
| MultiprecisionLaws.LimbsAreBytes | m68k.c:1116-1133 | the number a chain works on is the big-endian number of its bytes |
| ChainProgram.Decodes | m68k.c:5205-5656 | the instruction words of the memory forms are decoded as the steps of a chain |
| ChainProgram.ProgramRunsChain | m68k.c:5205-5656 | a program of n such words, apart from its destination, runs as the chain does |
| ChainProgram.ProgramComputes | m68k.c:5205-5656 | executing it from memory computes the sum or difference of the two numbers, of any length |
| LoopProgram.DbfBranches | m68k.c:3226-3242 | DBF with displacement -4 goes back to the instruction before it until its counter has passed zero |
| LoopProgram.OnePass | m68k.c:5205-5656 | one pass of the loop, executed from memory, is one digit of the chain and one count |
| LoopProgram.LoopComputes | m68k.c:5205-5656 | three words in memory, ADDX, SUBX, ABCD or SBCD and DBF back to it, executed with k in the counter: after 2(k + 1) steps pc is behind the loop, the numbers of k + 1 digits have been added or subtracted with the carry in X, and only the counter among the data registers has changed, to -1 in its low word |
| ExtendedArithmetic.CombineMemory | m68k.c:1770-1788 | the memory form in place is one step of a chain, address errors included |
| ExtendedArithmetic.CombineRegisters | m68k.c:1790-1795 | the register form changes the low part of Dx and the codes only |
| ExtendedArithmetic.ExtendedInstruction | m68k.c:1706-1803 | ADDX, SUBX, ABCD or SBCD, by the form bit of the opcode: a step of `Multiprecision.ChainComputes` or of `RegisterChain.RegistersCompute` |
| RegisterChain.PairDecodes | m68k.c:1790-1795 | the instruction words of the register forms put the operation on Dy and Dx into the low part of Dx |
| RegisterChain.PairsSum | m68k.c:1706-1803 | n such words on two lists of data registers, executed from memory, compute one schoolbook digit each, from the least significant one |
| RegisterChain.RegistersCompute | m68k.c:1706-1803 | executing them leaves (dst + src + X) or (dst - src - X) modulo the n-th power of the base in the second list, with the carry or borrow in X and C and sticky Z; the first list, upper parts, other registers and memory are unchanged |
| Arithmetic.Compute | m68k.c:266-416 | every arithmetic and logical helper gives the result and codes of its operation |
| Arithmetic.Modify | m68k.c:1867-1878 | read, apply, write back: operand, codes and any fault as specified |
| Arithmetic.Accumulate | m68k.c:1816-1823 | operation of a source operand and a data register |
| Arithmetic.OperateOnDestination | m68k.c:1867-1878 | the operation on any addressing mode as destination |
| Arithmetic.OperateFromSource | m68k.c:1816-1842 | the operation from any addressing mode to a data register |
| Arithmetic.OperateFromRegister | m68k.c:1854-1891 | the operation of a data register on any destination |
| Arithmetic.OperateOnAddress | m68k.c:1844-1852 | ADDA and SUBA: a sign-extended source, the whole address register, no codes |
| Arithmetic.OperateWithImmediate | m68k.c:1907-1951 | the immediate is fetched before the destination is set up |
| Arithmetic.OperateQuick | m68k.c:1955-1994 | ADDQ and SUBQ by one to eight; no codes for an address register |
| Arithmetic.CompareSource | m68k.c:2970-2989 | CMP: only the codes of register minus operand change |
| Arithmetic.CompareAddressSource | m68k.c:2991-2997 | CMPA compares longs with a sign-extended source |
| Arithmetic.CompareWithImmediate | m68k.c:3050-3088 | CMPI: the codes of operand minus immediate |
| Arithmetic.CompareBothMemory | m68k.c:2890-2957 | CMPM: both registers move up, each before its odd address is noticed |
| IntegerArithmetic.ApplyIs | m68k.c:266-416 | the operations are sum, difference and bit operators of destination and source, with carry, signed overflow, sign and zero of the exact result |
| IntegerArithmetic.SourceToRegister | m68k.c:1807-1903 | ADD, SUB, AND and OR from memory words: the operand of any mode is combined into the low part of Dx, or taken from it, and nothing else changes |
| IntegerArithmetic.SourceFaults | m68k.c:1807-1903 | an odd operand is an address error with nothing computed |
| IntegerArithmetic.RegisterToDestination | m68k.c:4895-4991 | the same to memory, and EOR to a register too: Dx is combined into the destination, or taken from it |
| IntegerArithmetic.DestinationFaults | m68k.c:4895-4991 | an odd destination is an address error of its read |
| IntegerArithmetic.ImmediateToDestination | m68k.c:1907-1951 | ADDI, SUBI, ANDI, ORI and EORI: the immediate comes first and is combined into the destination, or taken from it |
| IntegerArithmetic.QuickToDestination | m68k.c:1955-1994 | ADDQ and SUBQ of one to eight |
| IntegerArithmetic.QuickToAddress | m68k.c:1976-1983 | on an address register they set no codes, and of a word change the low part only |
| IntegerArithmetic.SourceToAddress | m68k.c:1807-1903 | ADDA and SUBA add or take away the sign-extended operand on the whole register, without codes |
| IntegerArithmetic.UnaryToDestination | m68k.c:3964-4072 | NEG and NEGX subtract from zero, NOT complements, on any alterable operand |
| IntegerArithmetic.NbcdNegates | m68k.c:3950-3960 | NBCD subtracts two decimal digits and X from zero, decimally |
| Comparisons.CmpCompares | m68k.c:2970-2989 | CMP from memory words: all sixteen conditions are the relations of their names between the low part of Dx and the operand; X, registers and memory are unchanged |
| Comparisons.CmpFaults | m68k.c:2961-3046 | an odd operand is an address error with nothing compared |
| Comparisons.CmpaCompares | m68k.c:2993-3012 | CMPA: the same between the whole address register and the sign-extended operand |
| Comparisons.CmpiCompares | m68k.c:3050-3088 | CMPI: the same between the operand and the immediate |
| Comparisons.CmpmCompares | m68k.c:2890-2957 | CMPM: the same between the operands at (Ax)+ and (Ay)+ |
| Comparisons.CompareAndBranch | m68k.c:2372-2526 | CMP and Bcc in memory, executed one after the other, branch exactly when the signed or unsigned relation of the condition holds |
| ExtendedArithmetic.ShiftRegister | m68k.c:2260-2346 | a register is shifted by one to eight or by a register modulo 64, and only its low part and the codes change |
| ExtendedArithmetic.ShiftMemory | m68k.c:2350-2368 | a word in memory is shifted by one |
| ShiftInstructions.RegisterShifts | m68k.c:2260-2346 | a shift or rotate word with a data register names the shift by its kind and direction, and counts by one to eight or by a register modulo 64, in the low part only |
| ShiftInstructions.MemoryShifts | m68k.c:2350-2368 | a shift word with a memory mode shifts that word by one, in place |
| ShiftInstructions.ShiftsMean | m68k.c:420-723 | to the left the product with 2^count modulo the size, to the right the quotient rounded down, signed or unsigned |
| ShiftInstructions.RolMultiplies | m68k.c:791-843 | ROL is the product with 2^k modulo one less than the size |
| FlowInstructions.Jmp | m68k.c:3341-3352 | pc becomes the address; an odd one is an address error |
| FlowInstructions.Jsr | m68k.c:3356-3369 | pushes the return address unless the target is odd |
| FlowInstructions.Rts | m68k.c:4626-4640 | returns to the popped address; an odd one is an address error with pc at the RTS |
| FlowInstructions.Rtr | m68k.c:4604-4622 | the same, with the popped condition codes |
| FlowInstructions.Rte | m68k.c:4579-4600 | a privilege violation in user mode; otherwise filtered status register and pc from the supervisor stack, and the user stack pointer untouched |
| FlowInstructions.Trap | m68k.c:5122-5134 | exception through vector 32 + n with the pc after the instruction; a hooked number 15 changes only data registers and memory |
| FlowInstructions.Trapv | m68k.c:5138-5145 | an exception exactly when V is set |
| FlowInstructions.Link | m68k.c:3387-3403 | pushes the register, points it at the stack and adds the displacement to the stack pointer |
| FlowInstructions.Unlk | m68k.c:5186-5201 | an odd frame pointer is an address error; otherwise stack pointer and register come from the frame |
| FlowInstructions.Branch | m68k.c:2372-2526 | Bcc, BRA and BSR with 8- and 16-bit displacements, odd targets included |
| Branching.BranchGoes | m68k.c:2511-2525 | BRA and Bcc from memory words: the address behind the opcode word plus the displacement, of a byte or a word, when the condition holds, and the next instruction otherwise; nothing else changes |
| Branching.BranchFaults | m68k.c:2511-2525 | a taken branch to an odd target is an address error inside the instruction |
| Branching.BsrCalls | m68k.c:2503-2525 | BSR pushes the address behind itself and goes there |
| Branching.BsrFaults | m68k.c:2503-2525 | to an odd target it has pushed that address and reports the fault from there |
| Branching.LoopGoes | m68k.c:3226-3242 | DBcc ends when its condition holds with the counter as it was, and else counts the low word down and branches unless it was zero |
| Branching.SetWrites | m68k.c:4653-4776 | Scc writes ones when its condition holds and zeros otherwise |
| Branching.JumpGoes | m68k.c:3341-3369 | JMP and JSR go to the address of their operand, JSR after pushing the one behind it; an odd one is an address error with nothing pushed |
| Branching.ControlWords | m68k.c:5205-5656 | the words of RTE, RTS, RTR, TRAP, LINK, UNLK and NOP are the instructions of the nesting theorems |
| Branching.SystemWords | m68k.c:5205-5656 | the words of TRAPV, MOVE USP, RESET and STOP, which are privilege violations in user mode except TRAPV |
| Branching.Unimplemented | m68k.c:5205-5656 | words of the lines A and F, forms that do not exist, and moves from operands that name no mode, are exceptions at the instruction through 0x28, 0x2C and 0x10 |
| Branching.RtrReturns | m68k.c:4604-4622 | RTR takes the codes from the top of the stack and goes to the address above them |
| Branching.RtsFaults | m68k.c:4626-4640 | RTS to an odd address is an address error with the address popped |
| Branching.RteFaults | m68k.c:4579-4600 | and RTE with address and status register popped |
| Branching.UnlkFaults | m68k.c:5186-5201 | UNLK through an odd frame pointer is an address error with nothing changed |
| FlowInstructions.Dbcc | m68k.c:3092-3243 | counts down and branches unless the condition holds; an odd target puts the counter back |
| FlowInstructions.Scc | m68k.c:4644-4777 | a byte of ones or zeros at the destination |
| CallNesting.PushLongKeeps | m68k.c:185-206 | a long pushed on an even stack lies at the new top, and only bytes below the old top change |
| CallNesting.BsrIsCall | m68k.c:2396-2401 | BSR to an even target is the call that JSR makes |
| CallNesting.CallReturns | m68k.c:4626-4640 | RTS after a call whose live stack was left alone returns to the instruction after it |
| CallNesting.UnlkReturns | m68k.c:5186-5201 | UNLK after a LINK whose frame was left alone restores the frame pointer and the stack pointer |
| CallNesting.NestingReturns | m68k.c:3356-3403 | in every well-nested arrangement of calls and frames that fits in memory, each RTS returns to its call, each UNLK restores its register and the stack pointer ends where it started |
| TrapNesting.AddressErrorHolds | m68k.c:210-245 | for an even SSP the fourteen bytes from the lowest address are access word, long fault address, opcode, status register and long pc, below an untouched stack |
| TrapNesting.AccessWordBits | m68k.c:220-238 | the access word tells read from write in bit 4, and supervisor from user and program from data space in the low three |
| TrapNesting.ExceptionEnters | m68k.c:210-262 | every exception leaves the status register and the reported address on the supervisor stack: that of the instruction, or how far it has been read for TRAP, TRAPV, CHK and address errors |
| TrapNesting.RteReturns | m68k.c:4579-4600 | RTE after any exception, eight bytes being dropped first after an address error, resumes at the reported address with the whole status register and SSP as before, and keeps all other registers |
| TrapNesting.ExceptionsRestore | m68k.c:210-262 | exceptions of all kinds nested to any depth: each is entered through its vector in supervisor mode, each RTE restores reported address, status register, mode and SSP, and neither changes the user stack pointer |
| CountedLoop.DbccCounts | m68k.c:3226-3242 | one DBcc with a false condition: low word minus one, high word kept, branch unless it was zero |
| CountedLoop.OddTargetKeepsCounter | m68k.c:3231-3237 | an odd target leaves the counter as it was and reports the target |
| CountedLoop.LoopCounts | m68k.c:3092-3243 | a loop whose body keeps the counter branches exactly k times when the low word starts at k, then leaves 0xFFFF there, with the high word unchanged |
| Movem.StoredSlot | m68k.c:3863-3885 | each listed register lies as far above the lowest address as the listed registers before it take |
| Movem.StoredFrame | m68k.c:3863-3885 | bytes outside the list are untouched, all around the address space |
| Movem.UpSlot | m68k.c:3887-3902 | upwards too, each listed register lies as far above the first as the listed registers before it take |
| Movem.UpFrame | m68k.c:3887-3902 | and all other bytes are kept |
| Movem.LoadedValue | m68k.c:3925-3942 | each listed register gets its slot, every other register keeps its value |
| Movem.MovemMoves | m68k.c:3864-3885 | storing and loading move An by the width times the number of mask bits |
| Movem.MovemRoundTrip | m68k.c:3849-3946 | storing to -(An) and loading from (An)+ with the reversed mask restores every listed register and An, listed or not, in both modes and across the wrap; the word form restores the sign-extended low word |
| MovemInstructions.StoreDown | m68k.c:3863-3885 | the loop writes the listed registers downwards; an odd address with a nonempty list writes nothing before the address error |
| MovemInstructions.StoreUp | m68k.c:3887-3902 | the loop of the other modes, upwards |
| MovemInstructions.LoadUp | m68k.c:3925-3942 | the loop that loads; an odd address with a nonempty list loads nothing before the address error |
| MovemInstructions.RegistersToMemory | m68k.c:3747-3802 | MOVEM to memory in every memory mode |
| MovemInstructions.MemoryToRegisters | m68k.c:3806-3845 | MOVEM to registers in every memory mode |
| RegisterBlocks.MovemStores | m68k.c:3887-3902 | MOVEM from memory words in any mode that does not move An: the listed registers lie one after the other from the address that the mode names, and other memory and all registers are unchanged |
| RegisterBlocks.MovemLoads | m68k.c:3908-3946 | MOVEM from there loads them, a word with its sign, and keeps the other registers |
| RegisterBlocks.MovemFaults | m68k.c:3747-3946 | an odd address stops a list that is not empty before its first register |
| RegisterBlocks.BlockRoundTrip | m68k.c:3747-3946 | a block stored and left alone brings the listed registers back, whatever mode names it then |
| RegisterBlocks.MovingWords | m68k.c:3747-3946 | the words of MOVEM to -(An) and from (An)+ are the two halves of `Movem.MovemRoundTrip` |
| MultiplyInstructions.MultiplyInstruction | m68k.c:2070-2103 | the signed or unsigned product of the low words, with N and Z of the long |
| MultiplyInstructions.ComputeQuotient | m68k.c:4110-4176 | the quotient and remainder of the two divisions, and when they do not fit |
| MultiplyInstructions.DivideInstruction | m68k.c:4110-4176 | zero divisors are exceptions; overflow sets V and leaves the register; otherwise remainder and quotient are packed |
| Division.DivuInverts | m68k.c:4145-4176 | dividend = MULU(quotient, divisor) + remainder with a smaller remainder; overflow exactly when the quotient has more than 16 bits |
| Division.DivsInverts | m68k.c:4110-4141 | dividend = MULS(quotient, divisor) + remainder, the remainder smaller and of the sign of the dividend; overflow exactly when no 16-bit quotient with such a remainder exists |
| Division.DividesUnique | m68k.c:4110-4141 | quotient and remainder of a truncating division are unique |
| Products.MultiplyMultiplies | m68k.c:2070-2103 | MULU and MULS from memory words put the product of the operand and the low word into all of Dx, with N and Z of it |
| Products.WordFaults | m68k.c:2070-2103 | an odd operand is an address error with nothing computed, for the divisions too |
| Products.DivideDivides | m68k.c:4110-4176 | DIVU and DIVS: truncating quotient in the low word and remainder in the high one, with N and Z of the quotient, or V and an unchanged register when no word holds the quotient |
| Products.DivideByZero | m68k.c:4110-4176 | a divisor of zero is an exception with nothing changed |
| PlainInstructions.Move | m68k.c:3600-3669 | MOVE sets the codes before the destination is set up; MOVEA extends and sets none |
| PlainInstructions.Moveq | m68k.c:3730-3743 | a sign-extended byte and its codes |
| PlainInstructions.Movep | m68k.c:3673-3726 | every other byte of memory, from or to a data register |
| PlainInstructions.Clr | m68k.c:2854-2886 | words and longs are read before they are cleared |
| PlainInstructions.Exg | m68k.c:2032-2066 | exchanges two registers in the three forms |
| PlainInstructions.Ext | m68k.c:3309-3337 | sign extension to a word or a long |
| PlainInstructions.Swap | m68k.c:5086-5100 | exchanges the halves of a register |
| PlainInstructions.Lea | m68k.c:3373-3383 | the address of the operand into an address register |
| PlainInstructions.Pea | m68k.c:4332-4341 | the address of the operand on the stack |
| PlainInstructions.Tst | m68k.c:5149-5182 | only the codes of the operand |
| PlainInstructions.Tas | m68k.c:5104-5118 | the codes of the byte, which gets its top bit set |
| PlainInstructions.Chk | m68k.c:2820-2850 | outside the range from zero to the bound an exception with the pc after the instruction |
| PlainInstructions.BitInstruction | m68k.c:2530-2816 | BTST, BCHG, BCLR and BSET: Z is the complement of the old bit, and only that bit changes as asked |
| BitsAndStatus.BitwiseOne | m68k.c:2530-2816 | OR and AND NOT with a power of two turn that bit on or off and change nothing else |
| BitsAndStatus.BitByRegister | m68k.c:2569-2816 | BTST, BCHG, BCLR and BSET by a register: Z tells whether the bit, modulo 32 or 8, was clear, and that bit is left, changed, cleared or set |
| BitsAndStatus.BitByNumber | m68k.c:2530-2785 | the same with the number in the instruction |
| BitsAndStatus.TasSets | m68k.c:5104-5118 | TAS sets the codes of a byte and then its top bit |
| BitsAndStatus.ChkChecks | m68k.c:2820-2850 | CHK raises its exception exactly when the low word is negative or above the operand |
| BitsAndStatus.MovepReads | m68k.c:3673-3726 | MOVEP to a register reads every other byte, the most significant first |
| BitsAndStatus.MovepWrites | m68k.c:3673-3726 | MOVEP from a register writes every other byte, the most significant first, and keeps the bytes between |
| BitsAndStatus.CodesAreMoved | m68k.c:3519-3531 | MOVE to CCR takes the five codes and nothing else |
| BitsAndStatus.StatusIsMoved | m68k.c:3535-3550 | MOVE to SR takes the implemented bits in supervisor mode, and is a privilege violation in user mode |
| BitsAndStatus.StatusIsRead | m68k.c:3554-3564 | MOVE from SR stores the whole register |
| BitsAndStatus.LogicOnStatus | m68k.c:2198-2256 | ANDI, ORI and EORI to CCR and SR: each implemented bit becomes the operator on itself and on its bit of the immediate, the form for SR being privileged |
| PlainInstructions.LogicImmediate | m68k.c:2198-2256 | ANDI, ORI and EORI, to an operand, the condition codes or, privileged, the status register |
| PlainInstructions.LogicStatusSafe | m68k.c:2227-2231 | the privileged forms keep a clean status register clean |
| PlainInstructions.MoveToCcr | m68k.c:3519-3531 | replaces the condition codes only |
| PlainInstructions.MoveToSr | m68k.c:3535-3550 | privileged; the new register is filtered |
| PlainInstructions.MoveFromSr | m68k.c:3554-3564 | stores the status register |
| PlainInstructions.MoveToUsp | m68k.c:3568-3580 | privileged; changes the user stack pointer and nothing else |
| PlainInstructions.MoveFromUsp | m68k.c:3584-3596 | privileged; reads the user stack pointer |
| PlainInstructions.Stop | m68k.c:4781-4790 | privileged; the filtered register is loaded and pc stays at the instruction |
| PlainInstructions.Reset | m68k.c:4345-4351 | privileged; changes nothing |
| Execution.ExecuteLine0 | m68k.c:5219-5301 | decodes and performs immediates, bit operations and MOVEP as specified, and safely |
| Execution.ExecuteLine4 | m68k.c:5315-5510 | decodes and performs the miscellaneous line as specified, and safely |
| Execution.ExecuteControl | m68k.c:5440-5504 | decodes and performs traps, frames, MOVE USP and the instructions without operands as specified, and safely |
| Execution.ExecuteLine5 | m68k.c:5512-5532 | decodes and performs ADDQ, SUBQ, Scc and DBcc as specified, and safely |
| Execution.ExecuteLine8 | m68k.c:4180-4266 | decodes and performs OR, DIVU, DIVS and SBCD as specified, and safely |
| Execution.ExecuteAdditive | m68k.c:1807-1903 | decodes and performs ADD, ADDA and ADDX, or the subtractions as specified, and safely |
| Execution.ExecuteLineB | m68k.c:2961-3046 | decodes and performs CMP, CMPA, CMPM and EOR as specified, and safely |
| Execution.ExecuteLineC | m68k.c:2107-2194 | decodes and performs AND, MULU, MULS, ABCD and EXG as specified, and safely |
| Execution.ExecuteLineE | m68k.c:5566-5648 | decodes and performs shifts and rotates as specified, and safely |
| Execution.Perform | m68k.c:5217-5653 | every opcode is performed as specified and keeps mode separation, clean status bits and an even pc |
| Execution.Execute | m68k.c:5205-5656 | one step reaches exactly the specified machine; without an exception user mode keeps SSP and the upper status byte, with one the frame, mode and vector are right, and from supervisor mode only MOVE to USP changes the user stack pointer |
| Runs.ExecuteMany | main.c:343-363 | executing any number of steps gives the run of the specified machines, which ends early only where C leaves an instruction undefined |
| Runs.Run | main.c:343-363 | so every execution keeps the modes apart and the user stack pointer in supervisor mode, a clean status register clean, and an even pc even as long as the vectors taken are |
| Runs.RunKeeps | main.c:343-363 | the same invariants over all states of a run at once, by the four results below |
| Runs.Boot | main.c:305-363 | initialising a processor, setting the entry point and running it: every state ever reached has a clean status register, and from an even entry point an even pc unless a vector taken was odd |
| Runs.StatusStaysClean | m68k.c:41-45 | in every run from a clean state no status bit outside 0xA71F is ever set, and the filter does not change what an exception pushes; `Runs.Boot` starts it from initialisation |
| Runs.ProgramCounterStaysEven | m68k.c:142-152 | in every run that starts at an even pc, pc is even as long as the vectors of the exceptions taken are |
| Runs.UserModeIsConfined | m68k.c:5205-5656 | any stretch of user mode without an exception stays in user mode, with SSP and the upper status byte unchanged |
| Runs.OnlyExceptionsEnterSupervisorMode | m68k.c:210-262 | every way from user to supervisor mode leads through an exception whose frame lies just below the supervisor stack that was left |
| Runs.UserStackPointerIsKept | m68k.c:3568-3580 | any stretch of supervisor mode keeps the user stack pointer unless it executes MOVE to USP |
| Ramdisk.RamDisks.constructor | ramdisk.c:83-99 | disk, track, sector and address are zero and every sector is filled with 0xE5 |
| Ramdisk.RamDisks.SelectDisk | ramdisk.c:10-18 | refines the selection; a disk that does not exist answers zero and changes nothing |
| Ramdisk.RamDisks.TrackSet | ramdisk.c:22-29 | refines the setting of the track; one out of bounds changes nothing |
| Ramdisk.RamDisks.SectorSet | ramdisk.c:33-40 | refines the setting of the sector; one out of bounds changes nothing |
| Ramdisk.RamDisks.DmaSet | ramdisk.c:44-47 | refines the setting of the memory address |
| Ramdisk.RamDisks.ReadSector | ramdisk.c:51-63 | copies the current sector to memory, wrapping at 2^24 |
| Ramdisk.RamDisks.WriteSector | ramdisk.c:67-79 | copies memory to the current sector and leaves every other sector of every disk alone |
| Ramdisk.DistinctOffsets | ramdisk.c:56-58 | distinct sectors of a disk never overlap |
| Ramdisk.CallsSet | main.c:76-90 | the calls 4, 5, 6 and 7 set disk, track, sector and address from their narrow arguments, and ignore what does not exist |
| Ramdisk.CallsTransfer | main.c:76-98 | selecting a place with calls 4 to 7, writing with 9 and reading with 8 moves 128 bytes from one address to another through that sector, and no other sector changes |
| Ramdisk.TrapHook | main.c:76-98 | the numbers 4 to 9 in D0 are the six operations, with narrow arguments truncated and an answer for the selection only |
| Ramdisk.SparedIsKept | ramdisk.c:10-79 | a sector keeps its bytes over every run that does not write to it |
| Ramdisk.ReadReturnsLastWrite | ramdisk.c:51-79 | a sector read after any commands that do not write to it again returns, byte for byte, what was last written to it |
| Regions.PeekPoke | ramdisk.c:59-62 | a block put into memory at any address reads back, around the end of memory too |
| Srec.LoadLine | mem.c:142-173 | the loop over a line loads exactly its data, or nothing for lines of other kinds |
| Srec.LoadSrec | mem.c:141-174 | the loop over the file, reading at most 127 characters at once |
| Srec.ScanOfSpelling | mem.c:151-169 | a number spelled in hexadecimal digits of either case is scanned |
| Srec.RecordLoads | mem.c:155-173 | any spelling of an S1 or S2 record, whatever follows its data, puts exactly count - 3 or count - 4 bytes at its address |
| Srec.FileLoads | mem.c:125-178 | a file of records in any spelling among other lines, its last line with or without a newline, leaves memory overlaid with their data, in order |
| Srec.ImageRoundTrip | mem.c:125-178 | however an image is cut into consecutive records and spelled, loading the file reproduces it and changes nothing else |
| Srec.EncodedRoundTrip | mem.c:125-178 | an encoder of S2 records gives such a file for every image, so encoding and loading are a round trip |

## Left out

- Console, debugger and instruction trace: terminal handling, printing and diagnostics only.
- Option parsing, signals, the host file transfer calls of the trap hook, `ramdisk_load`, `ramdisk_save`, `mem_load_binary` and `mem_dump`: host input and output.
- `panic` sets a message and asks for the debugger, and execution goes on; the model leaves it out, so a program counter above 0xFFFFFF and a track or sector out of bounds only have the effects that follow it.
- FlowInstructions.Trap: a hooked trap number 15 is any change of the data registers and memory, since the hook is not part of the processor; `Ramdisk.TrapHook` gives its six RAM disk calls.
- Ramdisk.TrapHook: the other call numbers are console and host file input and output.
- MovemInstructions.RegistersToMemory: a destination that is not in memory is only shown to be safe; such opcodes are not legal, and the code counts register numbers past the register file there.
- MovemInstructions.MemoryToRegisters: the same for a source.
- MultiplyInstructions.DivideInstruction: DIVS of -2^31 by -1 is undefined in C and left undefined here.
- Multiprecision.ChainComputes: byte operands exclude A7, which moves by two and skips every other byte; the two registers are distinct, and word and long operands are aligned.
- CallNesting.NestingReturns: stated on the instructions, not on their code in memory; work between them must leave the live stack and the frame pointers in use alone, and the stack pointer is even.
- CountedLoop.LoopCounts: stated on the DBcc instructions of a run; what lies between them is any work that keeps the counter; `LoopProgram.LoopComputes` runs a whole loop from memory.
- LoopProgram.LoopComputes: like the other programs, the code must lie outside the memory that is written, and the operands are those of `Multiprecision.ChainComputes`.
- RegisterChain.RegistersCompute: the destination registers are distinct and none of them is a source; digits of the decimal forms are valid.
- DoublingProgram.MemoryDoubles: the address is even and the code outside the number; an odd one is an address error, as `ExtendedArithmetic.ShiftMemory` says.
- Shifts of negative values and products outside the range of `int` are formally undefined in C; they are taken modulo 2^32.
- Srec.LoadLine: the scanning of numbers knows hexadecimal digits only; the blanks, signs and 0x prefixes that `sscanf` also accepts are not modelled, nor are columns past the end of a short line, where the program reads what is left of an earlier line.
- The copies of the helpers for each size and the two copies of the operand set-up appear once each.
- The guest programs (`emubios.s`, `read.s`, `write.s`, `quit.s`): they run on the model and are not part of it.
